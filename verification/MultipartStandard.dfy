// Forms as RFC 2046 section 5.1.1 allows them, with parts that have no headers or no
// body, and which of them the upload loop reads as they are.

module MultipartStandard {
  import opened Multipart
  import opened MultipartRoundTrip
  import opened Options
  import opened Sequences
  import opened Text

  /** Header lines, which may be none, and after a blank line the content, which may be missing with that line. */
  datatype BodyPart = BodyPart(headers: seq<string>, content: Option<string>)

  predicate HeaderLine(h: string) {
    h != [] && '\r' !in h && '\n' !in h
  }

  predicate Allowed(p: BodyPart, boundary: string) {
    && (forall i :: 0 <= i < |p.headers| ==> HeaderLine(p.headers[i]))
    && (p.content.Some? ==> !Contains(p.content.value, CRLF + boundary))
  }

  function HeaderText(headers: seq<string>): string {
    if headers == [] then "" else headers[0] + CRLF + HeaderText(headers[1..])
  }

  /** One part after its delimiter, up to the line break before the next delimiter. */
  function PrintBody(p: BodyPart): string {
    CRLF + HeaderText(p.headers) + (if p.content.Some? then CRLF + p.content.value else "") + CRLF
  }

  /** From a delimiter on: the parts left, the closing delimiter, and anything after it. */
  function PrintForm(parts: seq<BodyPart>, boundary: string, epilogue: string): string {
    if parts == [] then boundary + "--" + epilogue
    else boundary + PrintBody(parts[0]) + PrintForm(parts[1..], boundary, epilogue)
  }

  /** The header lines without the last line break. */
  function Joined(headers: seq<string>): string {
    if headers == [] then ""
    else if |headers| == 1 then headers[0]
    else headers[0] + CRLF + Joined(headers[1..])
  }

  function Content(p: BodyPart): string {
    if p.content.Some? then p.content.value else ""
  }

  function BodyStart(before: nat, p: BodyPart, boundary: string): nat {
    before + |boundary| + 2 + |HeaderText(p.headers)| + if p.content.Some? then 2 else 0
  }

  /** The parts as a reader of the standard reports them, when `before` characters precede the first delimiter. */
  function FormParts(parts: seq<BodyPart>, boundary: string, before: nat): seq<Part> {
    if parts == [] then []
    else
      var start := BodyStart(before, parts[0], boundary);
      var end := start + |Content(parts[0])|;
      [Part(Joined(parts[0].headers), start, end)] + FormParts(parts[1..], boundary, end + 2)
  }

  /** A header line and a content, which the loop takes for granted. */
  predicate Complete(p: BodyPart) {
    p.headers != [] && p.content.Some?
  }

  predicate AllComplete(parts: seq<BodyPart>) {
    forall i :: 0 <= i < |parts| ==> Complete(parts[i])
  }

  predicate AllAllowed(parts: seq<BodyPart>, boundary: string) {
    forall i :: 0 <= i < |parts| ==> Allowed(parts[i], boundary)
  }

  // ---- Complete parts ----

  /** A complete part as header text and content. */
  function AsText(p: BodyPart): FormPart {
    FormPart(Joined(p.headers), Content(p))
  }

  lemma {:induction false} HeaderTextJoined(headers: seq<string>)
    requires headers != []
    ensures HeaderText(headers) == Joined(headers) + CRLF
    decreases headers
  {
    if |headers| == 1 {
      assert headers[1..] == [];
      assert headers[0] + CRLF + "" == headers[0] + CRLF;
    } else {
      HeaderTextJoined(headers[1..]);
      Regroup(headers[0] + CRLF, Joined(headers[1..]), CRLF);
    }
  }

  /** After a line feed there is always more, and no carriage return. */
  predicate Tidy(s: string) {
    s != [] && s[0] != '\r' && forall i :: 0 <= i < |s| && s[i] == '\n' ==> i + 1 < |s| && s[i + 1] != '\r'
  }

  lemma {:induction false} JoinedTidy(headers: seq<string>)
    requires headers != [] && forall i :: 0 <= i < |headers| ==> HeaderLine(headers[i])
    ensures Tidy(Joined(headers))
    decreases headers
  {
    var h := headers[0];
    assert HeaderLine(h) && h[0] in h;
    if |headers| > 1 {
      var rest := Joined(headers[1..]);
      JoinedTidy(headers[1..]);
      var s := Joined(headers);
      assert s == h + CRLF + rest;
      forall i | 0 <= i < |s| ensures s[i] == '\n' ==> i + 1 < |s| && s[i + 1] != '\r' {
        if i < |h| {
          assert s[i] == h[i] && h[i] in h;
        } else if i > |h| + 1 {
          assert s[i] == rest[i - |h| - 2];
        } else {
          assert s[|h| + 2] == rest[0];
        }
      }
    }
  }

  lemma TidyHeaders(s: string)
    requires Tidy(s)
    ensures !Contains(s, BLANK) && !(|s| >= 2 && s[|s| - 2..] == CRLF)
  {
    forall i | 0 <= i && i + 4 <= |s| ensures !OccursAt(s, BLANK, i) {
      Mismatch(s, BLANK, i, if s[i + 1] != '\n' then 1 else 2);
    }
    assert s[|s| - 1] != '\n';
    assert |s| >= 2 ==> s[|s| - 2..][1] == s[|s| - 1];
  }

  lemma CompleteAsText(p: BodyPart, boundary: string)
    requires Allowed(p, boundary) && Complete(p)
    ensures GoodPart(AsText(p), boundary) && PrintBody(p) == PrintPart(AsText(p))
    ensures forall before: nat :: BodyStart(before, p, boundary) == ContentStart(before, AsText(p), boundary)
  {
    hide Tidy, Contains;
    JoinedTidy(p.headers);
    TidyHeaders(Joined(p.headers));
    HeaderTextJoined(p.headers);
    var j, c := Joined(p.headers), p.content.value;
    assert CRLF + (j + CRLF) + (CRLF + c) + CRLF == CRLF + j + BLANK + c + CRLF;
  }

  // ---- Incomplete parts ----

  /** In what the loop reports, header text and a blank line fill the space from delimiter to content. */
  lemma FoundShape(body: string, boundary: string, pos: nat)
    requires NextPart(body, boundary, pos).Some?
    ensures var p, at := NextPart(body, boundary, pos).value, Find(body, boundary, pos) + |boundary|;
            && 0 <= at < |body|
            && p.start == (if body[at] == '\r' then at + 2 else at) + |p.headers| + 4
  {
    hide Find;
  }

  lemma {:induction false} HeaderTextLength(headers: seq<string>)
    ensures |HeaderText(headers)| == if headers == [] then 0 else |Joined(headers)| + 2
  {
    if headers != [] {
      HeaderTextJoined(headers);
    }
  }

  /** The standard leaves that much space exactly for a complete part, and less for any other. */
  lemma SpaceLeft(before: nat, p: BodyPart, boundary: string)
    ensures var space := BodyStart(before, p, boundary) - |Joined(p.headers)| - 4;
            if Complete(p) then space == before + |boundary| + 2
            else before + |boundary| - 2 <= space < before + |boundary| + 2
  {
    HeaderTextLength(p.headers);
  }

  lemma FormStarts(parts: seq<BodyPart>, boundary: string, epilogue: string)
    ensures boundary <= PrintForm(parts, boundary, epilogue)
  {
  }

  lemma DelimiterShown(pre: string, boundary: string, p: BodyPart, tail: string)
    ensures var body := pre + (boundary + PrintBody(p) + tail);
            |pre| + |boundary| < |body| && body[|pre| + |boundary|] == '\r'
  {
  }

  /** An incomplete part is never reported as it is. */
  lemma IncompleteMissed(pre: string, p: BodyPart, boundary: string, tail: string, pos: nat)
    requires !Complete(p)
    requires Find(pre + (boundary + PrintBody(p) + tail), boundary, pos) == |pre|
    ensures var start := BodyStart(|pre|, p, boundary);
            NextPart(pre + (boundary + PrintBody(p) + tail), boundary, pos) !=
            Some(Part(Joined(p.headers), start, start + |Content(p)|))
  {
    hide Find, NextPart, PrintBody, BodyStart;
    var body := pre + (boundary + PrintBody(p) + tail);
    DelimiterShown(pre, boundary, p, tail);
    SpaceLeft(|pre|, p, boundary);
    if NextPart(body, boundary, pos).Some? {
      FoundShape(body, boundary, pos);
    }
  }

  // ---- Whole forms ----

  lemma BodyEnds(p: BodyPart)
    ensures |PrintBody(p)| >= 2 && PrintBody(p)[|PrintBody(p)| - 2..] == CRLF
  {
  }

  lemma NextBefore(pre: string, p: BodyPart, boundary: string)
    ensures |pre + (boundary + PrintBody(p))| == BodyStart(|pre|, p, boundary) + |Content(p)| + 2
  {
  }

  /** The first part of a form. */
  function FirstPart(parts: seq<BodyPart>, boundary: string, before: nat): Part
    requires parts != []
  {
    var start := BodyStart(before, parts[0], boundary);
    Part(Joined(parts[0].headers), start, start + |Content(parts[0])|)
  }

  /** A complete first part is reported as it is, and the search goes on before the next delimiter. */
  lemma CompleteFound(pre: string, parts: seq<BodyPart>, boundary: string, epilogue: string, pos: nat)
    requires GoodBoundary(boundary) && parts != [] && Allowed(parts[0], boundary) && Complete(parts[0])
    requires Find(pre + PrintForm(parts, boundary, epilogue), boundary, pos) == |pre|
    ensures var body, next := pre + PrintForm(parts, boundary, epilogue), pre + (boundary + PrintBody(parts[0]));
            && |next| >= 2 && body == next + PrintForm(parts[1..], boundary, epilogue)
            && NextPart(body, boundary, pos) == Some(FirstPart(parts, boundary, |pre|))
            && FirstPart(parts, boundary, |pre|).end == |next| - 2
            && Find(body, boundary, |next| - 2) == |next|
  {
    hide Find, NextPart, Allowed, GoodBoundary, PrintBody, BodyStart, Joined, Complete, PrintPart, GoodPart;
    var p, tail := parts[0], PrintForm(parts[1..], boundary, epilogue);
    FormStarts(parts[1..], boundary, epilogue);
    CompleteAsText(p, boundary);
    NextPrinted(pre, AsText(p), boundary, tail, pos);
    Regroup(pre, boundary + PrintBody(p), tail);
    BodyEnds(p);
    SearchResumes(pre + (boundary + PrintBody(p)), tail, boundary);
    NextBefore(pre, p, boundary);
  }

  lemma PartsStep(body: string, boundary: string, pos: nat, p: Part)
    requires NextPart(body, boundary, pos) == Some(p)
    ensures Parts(body, boundary, pos) == [p] + Parts(body, boundary, p.end)
  {
    hide NextPart;
  }

  /** From a delimiter on, the loop reports the parts as they are exactly when all of them are complete. */
  lemma {:induction false} FormFoundIff(pre: string, parts: seq<BodyPart>, boundary: string, epilogue: string, pos: nat)
    requires GoodBoundary(boundary) && AllAllowed(parts, boundary)
    requires Find(pre + PrintForm(parts, boundary, epilogue), boundary, pos) == |pre|
    ensures Parts(pre + PrintForm(parts, boundary, epilogue), boundary, pos) == FormParts(parts, boundary, |pre|) <==>
            AllComplete(parts)
    decreases parts
  {
    hide Find, NextPart, Allowed, GoodBoundary, PrintBody, PrintForm, BodyStart, Joined, Complete, Parts;
    var body := pre + PrintForm(parts, boundary, epilogue);
    if parts == [] {
      NoFormParts(pre, boundary, epilogue, pos);
    } else if Complete(parts[0]) {
      CompleteFound(pre, parts, boundary, epilogue, pos);
      var first, next := FirstPart(parts, boundary, |pre|), pre + (boundary + PrintBody(parts[0]));
      PartsStep(body, boundary, pos, first);
      FormFoundIff(next, parts[1..], boundary, epilogue, |next| - 2);
      SameTail(first, Parts(body, boundary, |next| - 2), FormParts(parts[1..], boundary, |next|));
    } else {
      FormSplit(parts, boundary, epilogue);
      IncompleteMissed(pre, parts[0], boundary, PrintForm(parts[1..], boundary, epilogue), pos);
      OtherHead(body, parts, boundary, |pre|, pos);
    }
  }

  lemma NoFormParts(pre: string, boundary: string, epilogue: string, pos: nat)
    requires Find(pre + PrintForm([], boundary, epilogue), boundary, pos) == |pre|
    ensures Parts(pre + PrintForm([], boundary, epilogue), boundary, pos) == []
  {
    ClosingStops(pre, boundary, epilogue, pos);
  }

  lemma FormSplit(parts: seq<BodyPart>, boundary: string, epilogue: string)
    requires parts != []
    ensures PrintForm(parts, boundary, epilogue) ==
            boundary + PrintBody(parts[0]) + PrintForm(parts[1..], boundary, epilogue)
  {
  }

  /** A different first part makes a different list. */
  lemma OtherHead(body: string, parts: seq<BodyPart>, boundary: string, before: nat, pos: nat)
    requires parts != [] && NextPart(body, boundary, pos) != Some(FirstPart(parts, boundary, before))
    ensures Parts(body, boundary, pos) != FormParts(parts, boundary, before)
  {
    hide NextPart, BodyStart, Joined, Content;
    assert FormParts(parts, boundary, before)[0] == FirstPart(parts, boundary, before);
    assert NextPart(body, boundary, pos).Some? ==>
             Parts(body, boundary, pos)[0] == NextPart(body, boundary, pos).value;
  }

  lemma SameTail<T>(x: T, a: seq<T>, b: seq<T>)
    ensures [x] + a == [x] + b <==> a == b
  {
    assert ([x] + a)[1..] == a && ([x] + b)[1..] == b;
  }

  /** What may stand before the first delimiter: nothing, or whole lines. */
  predicate WholeLines(preamble: string) {
    preamble == [] || (|preamble| >= 2 && preamble[|preamble| - 2..] == CRLF)
  }

  /** A mention of the boundary inside the preamble lies before its last line break. */
  lemma MentionEnds(preamble: string, boundary: string, rest: string, d: nat)
    requires GoodBoundary(boundary) && WholeLines(preamble) && d < |preamble|
    requires OccursAt(preamble + rest, boundary, d)
    ensures d + |boundary| <= |preamble| - 2
  {
    hide OccursAt;
    var n := |preamble|;
    assert preamble[n - 2] == preamble[n - 2..][0] == '\r' && preamble[n - 1] == preamble[n - 2..][1] == '\n';
    OccursChar(preamble + rest, boundary, d, 0);
    if d + |boundary| > n - 2 && d <= n - 2 {
      OccursChar(preamble + rest, boundary, d, n - 2 - d);
    }
  }

  lemma MentionFound(preamble: string, boundary: string, rest: string)
    requires Contains(preamble, boundary)
    ensures 0 <= Find(preamble + rest, boundary, 0) < |preamble| || boundary == []
  {
    var i := Find(preamble, boundary, 0);
    assert (preamble + rest)[i..i + |boundary|] == preamble[i..i + |boundary|];
    assert OccursAt(preamble + rest, boundary, i);
  }

  /** With the boundary mentioned in the preamble the first part is never reported as it is. */
  lemma MentionMisleads(preamble: string, p: BodyPart, boundary: string, rest: string)
    requires GoodBoundary(boundary) && |boundary| > 2 && WholeLines(preamble) && Contains(preamble, boundary)
    ensures var start := BodyStart(|preamble|, p, boundary);
            NextPart(preamble + rest, boundary, 0) != Some(Part(Joined(p.headers), start, start + |Content(p)|))
  {
    hide Find, NextPart, BodyStart, Contains;
    MentionFound(preamble, boundary, rest);
    var d := Find(preamble + rest, boundary, 0);
    MentionEnds(preamble, boundary, rest, d);
    SpaceLeft(|preamble|, p, boundary);
    if NextPart(preamble + rest, boundary, 0).Some? {
      FoundShape(preamble + rest, boundary, 0);
    }
  }

  /**
   * The loop reports the parts of a form as they are if and only if every part has a header line and a
   * content, and the lines before the form do not mention the boundary.
   */
  lemma FormReadIff(preamble: string, parts: seq<BodyPart>, boundary: string, epilogue: string)
    requires GoodBoundary(boundary) && |boundary| > 2 && WholeLines(preamble)
    requires parts != [] && AllAllowed(parts, boundary)
    ensures Parts(preamble + PrintForm(parts, boundary, epilogue), boundary, 0) ==
            FormParts(parts, boundary, |preamble|) <==>
            AllComplete(parts) && !Contains(preamble, boundary)
  {
    hide Find, NextPart, Allowed, GoodBoundary, WholeLines, AllComplete, Contains, PrintForm, Parts, FormParts;
    var rest := PrintForm(parts, boundary, epilogue);
    FormStarts(parts, boundary, epilogue);
    if Contains(preamble, boundary) {
      MentionMisleads(preamble, parts[0], boundary, rest);
      OtherHead(preamble + rest, parts, boundary, |preamble|, 0);
    } else {
      FirstDelimiter(preamble, boundary, rest);
      FormFoundIff(preamble, parts, boundary, epilogue, 0);
    }
  }

  lemma FirstDelimiter(preamble: string, boundary: string, rest: string)
    requires GoodBoundary(boundary) && WholeLines(preamble) && !Contains(preamble, boundary) && boundary <= rest
    ensures Find(preamble + rest, boundary, 0) == |preamble|
  {
    hide Find, Contains, OccursAt, GoodBoundary;
    assert rest == boundary + rest[|boundary|..];
    OccursMid(preamble, boundary, rest[|boundary|..]);
    Regroup(preamble, boundary, rest[|boundary|..]);
    forall i | 0 <= i < |preamble| ensures !OccursAt(preamble + rest, boundary, i) {
      NotInPreamble(preamble, boundary, rest, i);
    }
    FindIs(preamble + rest, boundary, 0, |preamble|);
  }

  // ---- What the positions mean, and what is saved ----

  /** The slices that the standard gives for the parts hold their contents. */
  lemma {:induction false} FormSlices(pre: string, parts: seq<BodyPart>, boundary: string, epilogue: string, k: nat)
    requires k < |parts|
    ensures var body, ps := pre + PrintForm(parts, boundary, epilogue), FormParts(parts, boundary, |pre|);
            && |ps| == |parts| && ps[k].headers == Joined(parts[k].headers)
            && 0 <= ps[k].start <= ps[k].end <= |body| && body[ps[k].start..ps[k].end] == Content(parts[k])
    decreases parts
  {
    hide Joined;
    var p, tail := parts[0], PrintForm(parts[1..], boundary, epilogue);
    var shown := boundary + PrintBody(p);
    Regroup(pre, shown, tail);
    NextBefore(pre, p, boundary);
    FormPartsLength(parts, boundary, |pre|);
    if k == 0 {
      FirstSlice(pre, p, boundary, tail);
    } else {
      FormSlices(pre + shown, parts[1..], boundary, epilogue, k - 1);
    }
  }

  lemma {:induction false} FormPartsLength(parts: seq<BodyPart>, boundary: string, before: nat)
    ensures |FormParts(parts, boundary, before)| == |parts|
    decreases parts
  {
    if parts != [] {
      var end := BodyStart(before, parts[0], boundary) + |Content(parts[0])|;
      FormPartsLength(parts[1..], boundary, end + 2);
    }
  }

  lemma FirstSlice(pre: string, p: BodyPart, boundary: string, tail: string)
    ensures var body, start := pre + (boundary + PrintBody(p) + tail), BodyStart(|pre|, p, boundary);
            start + |Content(p)| <= |body| && body[start..start + |Content(p)|] == Content(p)
  {
    hide HeaderText;
    var front := pre + (boundary + (CRLF + HeaderText(p.headers) + if p.content.Some? then CRLF else ""));
    var body := pre + (boundary + PrintBody(p) + tail);
    assert body == front + Content(p) + (CRLF + tail);
  }

  function Texts(parts: seq<BodyPart>): (texts: seq<FormPart>)
    ensures |texts| == |parts| && forall i :: 0 <= i < |texts| ==> texts[i] == AsText(parts[i])
  {
    seq(|parts|, i requires 0 <= i < |parts| => AsText(parts[i]))
  }

  lemma {:induction false} CompleteForm(parts: seq<BodyPart>, boundary: string, epilogue: string)
    requires AllAllowed(parts, boundary) && AllComplete(parts)
    ensures PrintForm(parts, boundary, epilogue) == Print(Texts(parts), boundary, epilogue)
    ensures forall i :: 0 <= i < |parts| ==> GoodPart(Texts(parts)[i], boundary)
    decreases parts
  {
    hide Allowed, Complete, GoodPart, PrintBody, PrintPart, AsText;
    if parts != [] {
      CompleteAsText(parts[0], boundary);
      CompleteForm(parts[1..], boundary, epilogue);
      assert Texts(parts)[1..] == Texts(parts[1..]);
      assert forall i :: 1 <= i < |parts| ==> Texts(parts)[i] == Texts(parts[1..])[i - 1];
    }
  }

  /** Uploading such a form has the effect of its parts taken one by one. */
  lemma FormRoundTrip(preamble: string, parts: seq<BodyPart>, boundary: string, epilogue: string, item: string,
                      opens: string -> bool, caption0: string)
    requires GoodBoundary(boundary) && WholeLines(preamble) && !Contains(preamble, boundary)
    requires AllAllowed(parts, boundary) && AllComplete(parts)
    ensures var body := preamble + PrintForm(parts, boundary, epilogue);
            var found := Parts(body, boundary, 0);
            && (forall p :: p in found ==> p.start <= p.end <= |body|)
            && TakeAll(Upload([], caption0), body, found, item, 1, opens) ==
               Receive(Upload([], caption0), Texts(parts), item, 1, opens)
  {
    hide GoodBoundary, Contains, GoodPart, Print, Parts, TakeAll, Receive, PrintForm;
    CompleteForm(parts, boundary, epilogue);
    forall p | p in Texts(parts) ensures GoodPart(p, boundary) {
      var i :| 0 <= i < |parts| && Texts(parts)[i] == p;
    }
    UploadRoundTrip(preamble, Texts(parts), boundary, epilogue, item, opens, caption0);
  }

  /** For one: a part without header lines, which the loop does not report as it is. */
  lemma HeaderlessMissed(content: string, boundary: string, epilogue: string)
    requires GoodBoundary(boundary) && |boundary| > 2 && !Contains(content, CRLF + boundary)
    ensures var parts := [BodyPart([], Some(content))];
            && PrintForm(parts, boundary, epilogue) ==
               boundary + (CRLF + CRLF + content + CRLF) + (boundary + "--" + epilogue)
            && Parts(PrintForm(parts, boundary, epilogue), boundary, 0) != FormParts(parts, boundary, 0)
  {
    hide Contains, Parts;
    var parts := [BodyPart([], Some(content))];
    assert parts[1..] == [];
    assert CRLF + "" == CRLF;
    assert [] + PrintForm(parts, boundary, epilogue) == PrintForm(parts, boundary, epilogue);
    assert !Complete(parts[0]);
    NoneInEmpty(boundary);
    FormReadIff([], parts, boundary, epilogue);
  }

  lemma NoneInEmpty(boundary: string)
    requires boundary != []
    ensures !Contains([], boundary)
  {
  }
}
