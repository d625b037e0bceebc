// Form bodies printed as RFC 2046 section 5.1.1 prescribes, and what the upload
// loop makes of them.

module MultipartRoundTrip {
  import opened Options
  import opened Sequences
  import opened Text
  import opened Multipart

  /** A part of a form: header lines and content. */
  datatype FormPart = FormPart(headers: string, content: string)

  /** A boundary the upload route builds: two hyphens first, and no carriage return. */
  predicate GoodBoundary(boundary: string) {
    |boundary| >= 2 && boundary[0] == '-' && boundary[1] == '-' && '\r' !in boundary
  }

  /** What RFC 2046 asks of a part: one blank line after the headers, no delimiter in the content. */
  predicate GoodPart(p: FormPart, boundary: string) {
    && !Contains(p.headers, BLANK)
    && !(|p.headers| >= 2 && p.headers[|p.headers| - 2..] == CRLF)
    && !Contains(p.content, CRLF + boundary)
  }

  /** From a delimiter on: the parts left, the closing delimiter, and anything after it. */
  function Print(parts: seq<FormPart>, boundary: string, epilogue: string): string {
    if parts == [] then boundary + "--" + epilogue
    else boundary + PrintPart(parts[0]) + Print(parts[1..], boundary, epilogue)
  }

  /** One part after its delimiter, up to the line break before the next delimiter. */
  function PrintPart(p: FormPart): string {
    CRLF + p.headers + BLANK + p.content + CRLF
  }

  // ---- No delimiter is found too early ----

  lemma NoEarlyBlank(pre: string, headers: string, post: string, i: int)
    requires |pre| <= i < |pre| + |headers|
    requires !Contains(headers, BLANK)
    requires !(|headers| >= 2 && headers[|headers| - 2..] == CRLF)
    ensures !OccursAt(pre + headers + (BLANK + post), BLANK, i)
  {
    hide Contains, OccursAt;
    var s := pre + headers + (BLANK + post);
    var n := |pre| + |headers|;
    if i + 4 <= n {
      if OccursAt(s, BLANK, i) {
        OccursInside(pre, headers, BLANK + post, BLANK, i);
        ContainsOccurrence(headers, BLANK, i - |pre|);
      }
    } else if n - i != 2 {
      assert s[n] == '\r';
      Mismatch(s, BLANK, i, n - i);
    } else {
      assert headers[|headers| - 2..] == [s[i], s[i + 1]];
      Mismatch(s, BLANK, i, if s[i] != '\r' then 0 else 1);
    }
  }

  /** The blank line is found where the headers end. */
  lemma HeadersEnd(pre: string, headers: string, post: string)
    requires !Contains(headers, BLANK)
    requires !(|headers| >= 2 && headers[|headers| - 2..] == CRLF)
    ensures Find(pre + headers + (BLANK + post), BLANK, |pre|) == |pre| + |headers|
  {
    hide Contains, OccursAt, Find;
    forall i | |pre| <= i < |pre| + |headers| ensures !OccursAt(pre + headers + (BLANK + post), BLANK, i) {
      NoEarlyBlank(pre, headers, post, i);
    }
    FindAfter(pre, headers, BLANK, post);
  }

  lemma NoEarlyDelimiter(pre: string, content: string, boundary: string, post: string, i: int)
    requires |pre| <= i < |pre| + |content|
    requires GoodBoundary(boundary) && !Contains(content, CRLF + boundary)
    ensures !OccursAt(pre + content + (CRLF + boundary + post), CRLF + boundary, i)
  {
    hide Contains, OccursAt;
    var mark := CRLF + boundary;
    var s := pre + content + (mark + post);
    var n := |pre| + |content|;
    if i + |mark| <= n {
      if OccursAt(s, mark, i) {
        OccursInside(pre, content, mark + post, mark, i);
        ContainsOccurrence(content, mark, i - |pre|);
      }
    } else {
      assert s[n] == '\r' && mark[n - i] != '\r';
      Mismatch(s, mark, i, n - i);
    }
  }

  /** The delimiter is found where the content ends. */
  lemma ContentEnds(pre: string, content: string, boundary: string, post: string)
    requires GoodBoundary(boundary) && !Contains(content, CRLF + boundary)
    ensures Find(pre + content + (CRLF + boundary + post), CRLF + boundary, |pre|) == |pre| + |content|
  {
    hide Contains, OccursAt, Find, GoodBoundary;
    forall i | |pre| <= i < |pre| + |content|
      ensures !OccursAt(pre + content + (CRLF + boundary + post), CRLF + boundary, i)
    {
      NoEarlyDelimiter(pre, content, boundary, post, i);
    }
    FindAfter(pre, content, CRLF + boundary, post);
  }

  /** After a line break the delimiter is found at once. */
  lemma DelimiterNext(pre: string, boundary: string, post: string)
    requires GoodBoundary(boundary)
    ensures Find(pre + CRLF + boundary + post, boundary, |pre|) == |pre| + 2
  {
    var s := pre + CRLF + boundary + post;
    OccursMid(pre + CRLF, boundary, post);
    Mismatch(s, boundary, |pre|, 0);
    Mismatch(s, boundary, |pre| + 1, 0);
    FindIs(s, boundary, |pre|, |pre| + 2);
  }

  // ---- Round trip ----

  /** Where the content of the first part lies when `before` characters precede its delimiter. */
  function ContentStart(before: nat, p: FormPart, boundary: string): nat {
    before + |boundary| + 2 + |p.headers| + 4
  }

  /** The parts of a printed form, as the loop should report them. */
  function Expected(parts: seq<FormPart>, boundary: string, before: nat): seq<Part> {
    if parts == [] then []
    else
      var start := ContentStart(before, parts[0], boundary);
      var end := start + |parts[0].content|;
      [Part(parts[0].headers, start, end)] + Expected(parts[1..], boundary, end + 2)
  }

  /** The printed text cut at the end of the headers. */
  lemma CutAtHeaders(pre: string, p: FormPart, boundary: string, tail: string)
    ensures pre + (boundary + PrintPart(p) + tail) ==
            (pre + boundary + CRLF) + p.headers + (BLANK + (p.content + CRLF + tail))
  {
    var head := pre + boundary + CRLF;
    Regroup(p.headers, BLANK, p.content + CRLF);
    assert PrintPart(p) == CRLF + (p.headers + (BLANK + (p.content + CRLF)));
    Regroup(pre, boundary + PrintPart(p), tail);
    Regroup(pre, boundary, PrintPart(p));
    Regroup(pre + boundary, CRLF, p.headers + (BLANK + (p.content + CRLF)));
    Regroup(head, p.headers, BLANK + (p.content + CRLF));
    Regroup(head + p.headers, BLANK + (p.content + CRLF), tail);
    Regroup(BLANK, p.content + CRLF, tail);
  }

  /** And cut again at the end of the content. */
  lemma CutAtContent(front: string, content: string, tail: string, boundary: string)
    requires boundary <= tail
    ensures front + (BLANK + (content + CRLF + tail)) ==
            (front + BLANK) + content + (CRLF + boundary + tail[|boundary|..])
  {
    assert tail == boundary + tail[|boundary|..];
    Regroup(CRLF, boundary, tail[|boundary|..]);
    Regroup(content, CRLF, tail);
    Regroup(front, BLANK, content + (CRLF + tail));
    Regroup(front + BLANK, content, CRLF + tail);
  }

  /** What a turn of the loop reports once its three searches are known. */
  lemma NextFound(body: string, boundary: string, pos: nat, found: nat, headerEnd: nat, end: nat)
    requires Find(body, boundary, pos) == found && found + |boundary| + 2 <= |body| && body[found + |boundary|] == '\r'
    requires Find(body, BLANK, found + |boundary| + 2) == headerEnd
    requires Find(body, CRLF + boundary, headerEnd + 4) == end
    ensures NextPart(body, boundary, pos) == Some(Part(body[found + |boundary| + 2..headerEnd], headerEnd + 4, end))
  {
    hide Find;
  }

  /** A part before another delimiter is found as it was printed. */
  lemma NextPrinted(pre: string, p: FormPart, boundary: string, tail: string, pos: nat)
    requires GoodBoundary(boundary) && GoodPart(p, boundary) && boundary <= tail
    requires Find(pre + (boundary + PrintPart(p) + tail), boundary, pos) == |pre|
    ensures var start := ContentStart(|pre|, p, boundary);
            NextPart(pre + (boundary + PrintPart(p) + tail), boundary, pos) ==
            Some(Part(p.headers, start, start + |p.content|))
  {
    hide Find, Contains, PrintPart, GoodBoundary, NextPart;
    var body := pre + (boundary + PrintPart(p) + tail);
    var head := pre + boundary + CRLF;
    CutAtHeaders(pre, p, boundary, tail);
    CutAtContent(head + p.headers, p.content, tail, boundary);
    HeadersEnd(head, p.headers, p.content + CRLF + tail);
    ContentEnds(head + p.headers + BLANK, p.content, boundary, tail[|boundary|..]);
    assert head <= body && body[|pre| + |boundary|] == head[|pre| + |boundary|] == '\r';
    assert body[|head|..|head| + |p.headers|] == p.headers;
    NextFound(body, boundary, pos, |pre|, |head| + |p.headers|, |head| + |p.headers| + 4 + |p.content|);
  }

  lemma PrintStep(parts: seq<FormPart>, boundary: string, epilogue: string)
    requires parts != []
    ensures Print(parts, boundary, epilogue) == boundary + PrintPart(parts[0]) + Print(parts[1..], boundary, epilogue)
    ensures boundary <= Print(parts[1..], boundary, epilogue)
  {
    PrintStarts(parts[1..], boundary, epilogue);
  }

  lemma PrintStarts(parts: seq<FormPart>, boundary: string, epilogue: string)
    ensures boundary <= Print(parts, boundary, epilogue)
  {
  }

  /** After a part, the search for the next delimiter starts at the line break before it. */
  lemma SearchResumes(next: string, tail: string, boundary: string)
    requires GoodBoundary(boundary) && boundary <= tail
    requires |next| >= 2 && next[|next| - 2..] == CRLF
    ensures Find(next + tail, boundary, |next| - 2) == |next|
  {
    hide Find;
    var end := |next| - 2;
    assert next == next[..end] + CRLF;
    assert tail == boundary + tail[|boundary|..];
    Regroup(next, boundary, tail[|boundary|..]);
    DelimiterNext(next[..end], boundary, tail[|boundary|..]);
  }

  lemma {:induction false} PartsPrinted(pre: string, parts: seq<FormPart>, boundary: string, epilogue: string, pos: nat)
    requires GoodBoundary(boundary) && forall p :: p in parts ==> GoodPart(p, boundary)
    requires Find(pre + Print(parts, boundary, epilogue), boundary, pos) == |pre|
    ensures Parts(pre + Print(parts, boundary, epilogue), boundary, pos) == Expected(parts, boundary, |pre|)
    decreases parts
  {
    hide Find, NextPart, GoodPart, GoodBoundary, Print;
    var body := pre + Print(parts, boundary, epilogue);
    if parts == [] {
      ClosingStops(pre, boundary, epilogue, pos);
    } else {
      var shown := boundary + PrintPart(parts[0]);
      var tail := Print(parts[1..], boundary, epilogue);
      PrintStep(parts, boundary, epilogue);
      NextPrinted(pre, parts[0], boundary, tail, pos);
      Regroup(pre, shown, tail);
      var next := pre + shown;
      SearchResumes(next, tail, boundary);
      PartsPrinted(next, parts[1..], boundary, epilogue, |next| - 2);
    }
  }

  lemma ClosingStops(pre: string, boundary: string, epilogue: string, pos: nat)
    requires Find(pre + Print([], boundary, epilogue), boundary, pos) == |pre|
    ensures NextPart(pre + Print([], boundary, epilogue), boundary, pos) == None
  {
  }

  /** The effect of a form on the route: every file part saved in order, the last caption kept. */
  function Receive(up: Upload, parts: seq<FormPart>, item: string, n: nat, opens: string -> bool): Upload
    decreases parts
  {
    if parts == [] then up
    else Receive(Take(up, parts[0].headers, parts[0].content, item, n, opens), parts[1..], item, n + 1, opens)
  }

  lemma {:induction false} TakeExpected(pre: string, up: Upload, parts: seq<FormPart>, boundary: string,
                                        epilogue: string, item: string, n: nat, opens: string -> bool)
    ensures var body := pre + Print(parts, boundary, epilogue);
            && (forall p :: p in Expected(parts, boundary, |pre|) ==> p.start <= p.end <= |body|)
            && TakeAll(up, body, Expected(parts, boundary, |pre|), item, n, opens) == Receive(up, parts, item, n, opens)
    decreases parts
  {
    hide Take, Print;
    if parts != [] {
      var p := parts[0];
      var body := pre + Print(parts, boundary, epilogue);
      var next := pre + (boundary + PrintPart(p));
      var tail := Print(parts[1..], boundary, epilogue);
      PrintStep(parts, boundary, epilogue);
      Regroup(pre, boundary + PrintPart(p), tail);
      CutAtHeaders(pre, p, boundary, tail);
      CutAtContent(pre + boundary + CRLF + p.headers, p.content, tail, boundary);
      var start := ContentStart(|pre|, p, boundary);
      assert body[start..start + |p.content|] == p.content;
      var taken := Take(up, p.headers, p.content, item, n, opens);
      TakeExpected(next, taken, parts[1..], boundary, epilogue, item, n + 1, opens);
      assert Expected(parts, boundary, |pre|)[1..] == Expected(parts[1..], boundary, |next|);
    }
  }

  /** What may stand before the first delimiter: nothing, or lines without the delimiter. */
  predicate GoodPreamble(preamble: string, boundary: string) {
    !Contains(preamble, boundary) && (preamble == [] || (|preamble| >= 2 && preamble[|preamble| - 2..] == CRLF))
  }

  lemma NotInPreamble(preamble: string, boundary: string, rest: string, i: nat)
    requires GoodBoundary(boundary) && GoodPreamble(preamble, boundary) && i < |preamble|
    ensures !OccursAt(preamble + rest, boundary, i)
  {
    hide Contains, OccursAt;
    var n := |preamble|;
    assert preamble[n - 2] == preamble[n - 2..][0] == '\r' && preamble[n - 1] == preamble[n - 2..][1] == '\n';
    if i + |boundary| <= n {
      if OccursAt(preamble + rest, boundary, i) {
        assert [] + preamble + rest == preamble + rest;
        OccursInside([], preamble, rest, boundary, i);
        ContainsOccurrence(preamble, boundary, i);
      }
    } else if i == n - 1 {
      Mismatch(preamble + rest, boundary, i, 0);
    } else {
      Mismatch(preamble + rest, boundary, i, n - 2 - i);
    }
  }

  /**
   * Uploading a printed form: the loop finds exactly its parts, so the files saved are the file
   * parts' contents in order and the caption is the last caption part's content.
   */
  lemma UploadRoundTrip(preamble: string, parts: seq<FormPart>, boundary: string, epilogue: string, item: string,
                        opens: string -> bool, caption0: string)
    requires GoodBoundary(boundary) && GoodPreamble(preamble, boundary)
    requires forall p :: p in parts ==> GoodPart(p, boundary)
    ensures var body := preamble + Print(parts, boundary, epilogue);
            var found := Parts(body, boundary, 0);
            && (forall p :: p in found ==> p.start <= p.end <= |body|)
            && TakeAll(Upload([], caption0), body, found, item, 1, opens) ==
               Receive(Upload([], caption0), parts, item, 1, opens)
  {
    hide GoodBoundary, GoodPreamble, GoodPart, Print, Parts, TakeAll, Receive, Expected;
    var rest := Print(parts, boundary, epilogue);
    PrintStarts(parts, boundary, epilogue);
    assert rest == boundary + rest[|boundary|..];
    OccursMid(preamble, boundary, rest[|boundary|..]);
    Regroup(preamble, boundary, rest[|boundary|..]);
    forall i | 0 <= i < |preamble| ensures !OccursAt(preamble + rest, boundary, i) {
      NotInPreamble(preamble, boundary, rest, i);
    }
    FindIs(preamble + rest, boundary, 0, |preamble|);
    PartsPrinted(preamble, parts, boundary, epilogue, 0);
    TakeExpected(preamble, Upload([], caption0), parts, boundary, epilogue, item, 1, opens);
  }

  // ---- What is saved ----

  function FileContents(parts: seq<FormPart>): seq<string> {
    if parts == [] then []
    else (if IsFile(parts[0].headers) then [parts[0].content] else []) + FileContents(parts[1..])
  }

  function SavedContents(files: seq<Saved>): (r: seq<string>)
    ensures |r| == |files| && forall i :: 0 <= i < |r| ==> r[i] == files[i].content
  {
    seq(|files|, i requires 0 <= i < |files| => files[i].content)
  }

  /** The content of the last caption field, if the form has one. */
  function LastCaption(parts: seq<FormPart>, caption: string): string
    decreases parts
  {
    if parts == [] then caption
    else
      var p := parts[0];
      LastCaption(parts[1..], if !IsFile(p.headers) && IsCaption(p.headers) then p.content else caption)
  }

  lemma TakeKeeps(up: Upload, p: FormPart, item: string, n: nat, opens: string -> bool)
    requires forall name :: opens(name)
    ensures var next := Take(up, p.headers, p.content, item, n, opens);
            && SavedContents(next.files) == SavedContents(up.files) + (if IsFile(p.headers) then [p.content] else [])
            && next.caption == if !IsFile(p.headers) && IsCaption(p.headers) then p.content else up.caption
  {
    hide IsFile, IsCaption, FileName;
  }

  /** On a disk that accepts every file, exactly the file parts are kept, in order. */
  lemma {:induction false} AllFilesKept(up: Upload, parts: seq<FormPart>, item: string, n: nat, opens: string -> bool)
    requires forall name :: opens(name)
    ensures var r := Receive(up, parts, item, n, opens);
            && SavedContents(r.files) == SavedContents(up.files) + FileContents(parts)
            && r.caption == LastCaption(parts, up.caption)
    decreases parts
  {
    hide IsFile, IsCaption, Take, SavedContents;
    if parts != [] {
      var p := parts[0];
      var next := Take(up, p.headers, p.content, item, n, opens);
      TakeKeeps(up, p, item, n, opens);
      AllFilesKept(next, parts[1..], item, n + 1, opens);
      Regroup(SavedContents(up.files), if IsFile(p.headers) then [p.content] else [], FileContents(parts[1..]));
    } else {
      assert SavedContents(up.files) + [] == SavedContents(up.files);
    }
  }

  lemma NumberEnds(d: string, e: string, f: string, g: string)
    requires '.' !in d && '.' !in f && e != [] && e[0] == '.' && g != [] && g[0] == '.'
    requires d + e == f + g
    ensures d == f
  {
    var s := d + e;
    assert s[|d|] == '.' && s[|f|] == '.';
    assert |d| == |f|;
    assert d == s[..|d|] && f == s[..|f|];
  }

  function Prefix(headers: string, item: string): (p: string)
    ensures p != []
  {
    if OriginalName(headers) == None then "photo_" + item + "_" else "item" + item + "_p"
  }

  /** The extension a part is stored with. */
  function Extension(headers: string): string {
    match OriginalName(headers)
    case None => ".jpg"
    case Some(name) =>
      var dot := FindLast(name, '.');
      if dot == NPOS then ".jpg" else name[dot..]
  }

  lemma NameParts(headers: string, item: string, n: nat)
    ensures FileName(headers, item, n) == Prefix(headers, item) + (Decimal(n) + Extension(headers))
    ensures Extension(headers) != [] && Extension(headers)[0] == '.'
  {
    hide OriginalName, Decimal;
  }

  /** Parts with different numbers are stored under different names. */
  lemma NamesDiffer(h1: string, h2: string, item: string, m: nat, n: nat)
    requires m != n
    ensures FileName(h1, item, m) != FileName(h2, item, n)
  {
    hide FileName, Decimal, OriginalName, Extension;
    var e, g := Extension(h1), Extension(h2);
    NameParts(h1, item, m);
    NameParts(h2, item, n);
    if FileName(h1, item, m) == FileName(h2, item, n) {
      var p, q := Prefix(h1, item), Prefix(h2, item);
      assert p[0] == FileName(h1, item, m)[0] && q[0] == FileName(h2, item, n)[0];
      assert p == q;
      assert Decimal(m) + e == FileName(h1, item, m)[|p|..] && Decimal(n) + g == FileName(h2, item, n)[|q|..];
      NumberEnds(Decimal(m), e, Decimal(n), g);
      DecimalInjective(m, n);
    }
  }

  predicate NamesDistinct(files: seq<Saved>) {
    forall i, j :: 0 <= i < j < |files| ==> files[i].filename != files[j].filename
  }

  /** One upload never writes two of its files under one name. */
  lemma {:induction false} UploadNamesDistinct(up: Upload, parts: seq<FormPart>, item: string, n: nat,
                                               opens: string -> bool)
    requires NamesDistinct(up.files)
    requires forall f :: f in up.files ==> exists h, k: nat :: k < n && f.filename == FileName(h, item, k)
    ensures NamesDistinct(Receive(up, parts, item, n, opens).files)
    decreases parts
  {
    hide IsFile, IsCaption, FileName;
    if parts != [] {
      var p := parts[0];
      var next := Take(up, p.headers, p.content, item, n, opens);
      forall f | f in next.files ensures exists h, k: nat :: k < n + 1 && f.filename == FileName(h, item, k) {
        if f in up.files {
          var h, k: nat :| k < n && f.filename == FileName(h, item, k);
        } else {
          assert f.filename == FileName(p.headers, item, n);
        }
      }
      forall f | f in up.files ensures f.filename != FileName(p.headers, item, n) {
        var h, k: nat :| k < n && f.filename == FileName(h, item, k);
        NamesDiffer(h, p.headers, item, k, n);
      }
      UploadNamesDistinct(next, parts[1..], item, n + 1, opens);
    }
  }

  // ---- When two uploads write under one name ----

  /** Both names quoted or neither, and one extension. */
  predicate SameForm(h1: string, h2: string) {
    OriginalName(h1).None? == OriginalName(h2).None? && Extension(h1) == Extension(h2)
  }

  /** The first letter tells the two prefixes apart. */
  lemma PrefixForm(h1: string, h2: string, item: string)
    ensures Prefix(h1, item)[0] == (if OriginalName(h1).None? then 'p' else 'i')
    ensures Prefix(h1, item) == Prefix(h2, item) <==> OriginalName(h1).None? == OriginalName(h2).None?
    ensures Prefix(h1, item)[0] == Prefix(h2, item)[0] ==> Prefix(h1, item) == Prefix(h2, item)
  {
    hide OriginalName;
    assert Prefix(h1, item)[0] == (if OriginalName(h1).None? then 'p' else 'i');
    assert Prefix(h2, item)[0] == (if OriginalName(h2).None? then 'p' else 'i');
  }

  /** Two parts of an item are stored under one name exactly when number, form and extension are the same. */
  lemma SameNameIff(h1: string, h2: string, item: string, m: nat, n: nat)
    ensures FileName(h1, item, m) == FileName(h2, item, n) <==> m == n && SameForm(h1, h2)
  {
    hide FileName, Decimal, OriginalName, Extension, Prefix;
    NameParts(h1, item, m);
    NameParts(h2, item, n);
    PrefixForm(h1, h2, item);
    if FileName(h1, item, m) == FileName(h2, item, n) {
      var p, q := Prefix(h1, item), Prefix(h2, item);
      if m != n {
        NamesDiffer(h1, h2, item, m, n);
      }
      assert p[0] == FileName(h1, item, m)[0] && q[0] == FileName(h2, item, n)[0];
      assert p == q;
      var d := Decimal(n);
      assert Extension(h1) == FileName(h1, item, m)[|p| + |d|..] && Extension(h2) == FileName(h2, item, n)[|q| + |d|..];
    }
  }

  /** Part `k` of an upload is a file, and the disk takes it. */
  predicate Stored(parts: seq<FormPart>, k: nat, item: string, n: nat, opens: string -> bool)
    requires k < |parts|
  {
    IsFile(parts[k].headers) && opens(FileName(parts[k].headers, item, n + k))
  }

  /** The file that part `k` becomes. */
  function FileOf(parts: seq<FormPart>, k: nat, item: string, n: nat): Saved
    requires k < |parts|
  {
    Saved(FileName(parts[k].headers, item, n + k), parts[k].content)
  }

  lemma TakeMembers(up: Upload, p: FormPart, item: string, n: nat, opens: string -> bool, f: Saved)
    ensures f in Take(up, p.headers, p.content, item, n, opens).files <==>
            || f in up.files
            || (IsFile(p.headers) && opens(FileName(p.headers, item, n))
                && f == Saved(FileName(p.headers, item, n), p.content))
  {
    hide IsFile, IsCaption, FileName;
  }

  /** Some stored part becomes this file. */
  ghost predicate Becomes(parts: seq<FormPart>, item: string, n: nat, opens: string -> bool, f: Saved) {
    exists k: nat :: k < |parts| && Stored(parts, k, item, n, opens) && FileOf(parts, k, item, n) == f
  }

  /** The files an upload writes are those of its stored parts. */
  lemma {:induction false} ReceiveMembers(up: Upload, parts: seq<FormPart>, item: string, n: nat,
                                          opens: string -> bool, f: Saved)
    ensures f in Receive(up, parts, item, n, opens).files <==> f in up.files || Becomes(parts, item, n, opens, f)
    decreases parts
  {
    hide IsFile, FileName, Take, Stored, FileOf, Becomes;
    if parts == [] {
      NoneBecomes(item, n, opens, f);
    } else {
      var next := Take(up, parts[0].headers, parts[0].content, item, n, opens);
      TakeMembers(up, parts[0], item, n, opens, f);
      ReceiveMembers(next, parts[1..], item, n + 1, opens, f);
      BecomesStep(parts, item, n, n + 1, opens, f);
    }
  }

  lemma NoneBecomes(item: string, n: nat, opens: string -> bool, f: Saved)
    ensures !Becomes([], item, n, opens, f)
  {
  }

  lemma BecomesStep(parts: seq<FormPart>, item: string, n: nat, m: nat, opens: string -> bool, f: Saved)
    requires parts != [] && m == n + 1
    ensures Becomes(parts, item, n, opens, f) <==>
            || (IsFile(parts[0].headers) && opens(FileName(parts[0].headers, item, n))
                && f == Saved(FileName(parts[0].headers, item, n), parts[0].content))
            || Becomes(parts[1..], item, m, opens, f)
  {
    hide IsFile, FileName;
    var tail := parts[1..];
    if Stored(parts, 0, item, n, opens) && FileOf(parts, 0, item, n) == f {
      assert Becomes(parts, item, n, opens, f);
    }
    if k: nat :| k < |parts| && Stored(parts, k, item, n, opens) && FileOf(parts, k, item, n) == f {
      if k > 0 {
        StoredShift(parts, k - 1, item, n, opens);
      }
    }
    if k: nat :| k < |tail| && Stored(tail, k, item, m, opens) && FileOf(tail, k, item, m) == f {
      StoredShift(parts, k, item, n, opens);
    }
  }

  lemma StoredShift(parts: seq<FormPart>, k: nat, item: string, n: nat, opens: string -> bool)
    requires k + 1 < |parts|
    ensures Stored(parts[1..], k, item, n + 1, opens) == Stored(parts, k + 1, item, n, opens)
    ensures FileOf(parts[1..], k, item, n + 1) == FileOf(parts, k + 1, item, n)
  {
    hide IsFile, FileName;
    assert parts[1..][k] == parts[k + 1] && n + 1 + k == n + (k + 1);
  }

  /** Some file of the first upload is overwritten by the second. */
  predicate Overwrites(first: seq<Saved>, second: seq<Saved>) {
    exists f, g :: f in first && g in second && f.filename == g.filename
  }

  /** At one position both uploads store a file, of one form and extension. */
  ghost predicate SharedPosition(p: seq<FormPart>, q: seq<FormPart>, item: string,
                                 opens1: string -> bool, opens2: string -> bool)
  {
    exists k: nat :: k < |p| && k < |q| && Stored(p, k, item, 1, opens1) && Stored(q, k, item, 1, opens2)
                     && SameForm(p[k].headers, q[k].headers)
  }

  /**
   * Across requests numbering starts over: a later upload to an item overwrites a file of an earlier
   * one if and only if at some position both store a part of the same form and extension.
   */
  lemma OverwritesIff(p: seq<FormPart>, q: seq<FormPart>, item: string, caption1: string, caption2: string,
                      opens1: string -> bool, opens2: string -> bool)
    ensures var first := Receive(Upload([], caption1), p, item, 1, opens1).files;
            var second := Receive(Upload([], caption2), q, item, 1, opens2).files;
            Overwrites(first, second) <==> SharedPosition(p, q, item, opens1, opens2)
  {
    hide Receive, FileName, SameForm, IsFile;
    var first := Receive(Upload([], caption1), p, item, 1, opens1).files;
    var second := Receive(Upload([], caption2), q, item, 1, opens2).files;
    if f, g :| f in first && g in second && f.filename == g.filename {
      ReceiveMembers(Upload([], caption1), p, item, 1, opens1, f);
      ReceiveMembers(Upload([], caption2), q, item, 1, opens2, g);
      var k: nat :| k < |p| && Stored(p, k, item, 1, opens1) && FileOf(p, k, item, 1) == f;
      var l: nat :| l < |q| && Stored(q, l, item, 1, opens2) && FileOf(q, l, item, 1) == g;
      SameNameIff(p[k].headers, q[l].headers, item, 1 + k, 1 + l);
    }
    if k: nat :| k < |p| && k < |q| && Stored(p, k, item, 1, opens1) && Stored(q, k, item, 1, opens2)
                 && SameForm(p[k].headers, q[k].headers) {
      SameNameIff(p[k].headers, q[k].headers, item, 1 + k, 1 + k);
      ReceiveMembers(Upload([], caption1), p, item, 1, opens1, FileOf(p, k, item, 1));
      ReceiveMembers(Upload([], caption2), q, item, 1, opens2, FileOf(q, k, item, 1));
    }
  }

  // ---- Other items ----

  /** An item's number as it stands in a path. */
  predicate ItemNumber(item: string) {
    forall c :: c in item ==> '0' <= c <= '9'
  }

  lemma Longer(i: string, j: string, x: string, y: string)
    requires ItemNumber(j) && |i| < |j|
    ensures i + "_" + x != j + "_" + y
  {
    assert (i + "_" + x)[|i|] == '_';
    assert (j + "_" + y)[|i|] == j[|i|] && j[|i|] in j;
  }

  lemma SameDigits(i: string, j: string, x: string, y: string)
    requires ItemNumber(i) && ItemNumber(j) && i + "_" + x == j + "_" + y
    ensures i == j
  {
    if |i| < |j| {
      Longer(i, j, x, y);
    } else if |j| < |i| {
      Longer(j, i, y, x);
    }
    assert i == (i + "_" + x)[..|i|] && j == (j + "_" + y)[..|j|];
  }

  /** The stored name after its first word: the item, an underscore and the rest. */
  lemma NameOfItem(headers: string, item: string, n: nat)
    ensures var word, sort := if OriginalName(headers).None? then "photo_" else "item",
                              if OriginalName(headers).None? then "" else "p";
            FileName(headers, item, n) == word + (item + "_" + (sort + Decimal(n) + Extension(headers)))
  {
    hide OriginalName, Decimal;
  }

  /** Photos of items with different numbers are never stored under one name. */
  lemma OtherItemsDiffer(h1: string, h2: string, i: string, j: string, m: nat, n: nat)
    requires ItemNumber(i) && ItemNumber(j) && FileName(h1, i, m) == FileName(h2, j, n)
    ensures i == j
  {
    hide FileName, OriginalName, Decimal, Extension;
    NameOfItem(h1, i, m);
    NameOfItem(h2, j, n);
    var a := if OriginalName(h1).None? then "photo_" else "item";
    var b := if OriginalName(h2).None? then "photo_" else "item";
    var s := FileName(h1, i, m);
    assert s[0] == a[0] == b[0];
    assert a == b;
    var x := (if OriginalName(h1).None? then "" else "p") + Decimal(m) + Extension(h1);
    var y := (if OriginalName(h2).None? then "" else "p") + Decimal(n) + Extension(h2);
    assert s[|a|..] == i + "_" + x == j + "_" + y;
    SameDigits(i, j, x, y);
  }

  /** For one: two uploads of a single named .jpg file are stored under one name. */
  lemma SecondUploadOverwrites(p: FormPart, q: FormPart, item: string, opens: string -> bool)
    requires IsFile(p.headers) && IsFile(q.headers) && forall name :: opens(name)
    requires OriginalName(p.headers) == Some("vase.jpg") && OriginalName(q.headers) == Some("lamp.jpg")
    ensures Receive(Upload([], ""), [p], item, 1, opens).files ==
            [Saved("item" + item + "_p" + Decimal(1) + ".jpg", p.content)]
    ensures Receive(Upload([], ""), [q], item, 1, opens).files ==
            [Saved("item" + item + "_p" + Decimal(1) + ".jpg", q.content)]
  {
    LastDot("vase.jpg", 4);
    LastDot("lamp.jpg", 4);
    ReceiveOne(p, item, opens, 4);
    ReceiveOne(q, item, opens, 4);
    assert "vase.jpg"[4..] == ".jpg" && "lamp.jpg"[4..] == ".jpg";
  }

  lemma ReceiveOne(p: FormPart, item: string, opens: string -> bool, dot: nat)
    requires IsFile(p.headers) && forall name :: opens(name)
    requires OriginalName(p.headers).Some? && FindLast(OriginalName(p.headers).value, '.') == dot
    ensures Receive(Upload([], ""), [p], item, 1, opens).files ==
            [Saved("item" + item + "_p" + Decimal(1) + OriginalName(p.headers).value[dot..], p.content)]
  {
    hide IsFile, IsCaption, Decimal, OriginalName;
    assert [p][1..] == [];
  }

  lemma LastDot(s: string, i: nat)
    requires i < |s| && s[i] == '.' && forall k :: i < k < |s| ==> s[k] != '.'
    ensures FindLast(s, '.') == i
  {
  }
}
