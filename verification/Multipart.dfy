// The multipart/form-data loop of the photo upload route, against the body
// syntax of RFC 2046 section 5.1.1.

module Multipart {
  import opened Options
  import opened Text

  const CRLF := "\r\n"
  const BLANK := "\r\n\r\n"

  /** A part found in a request body: its header text and where its content lies. */
  datatype Part = Part(headers: string, start: nat, end: nat)

  /** A file the route has written. */
  datatype Saved = Saved(filename: string, content: string)

  datatype Upload = Upload(files: seq<Saved>, caption: string)

  // ---- One turn of the loop ----

  /** The next part at or after `pos`, if there is one. */
  function NextPart(body: string, boundary: string, pos: nat): (r: Option<Part>)
    ensures r.Some? ==> pos + |boundary| < r.value.start <= r.value.end <= |body|
  {
    var found := Find(body, boundary, pos);
    if found == NPOS then None
    else
      var at := found + |boundary|;
      if at + 2 > |body| || (body[at] == '-' && body[at + 1] == '-') then None
      else
        var partStart := if body[at] == '\r' then at + 2 else at;
        var headerEnd := Find(body, BLANK, partStart);
        if headerEnd == NPOS then None
        else
          var end := Find(body, CRLF + boundary, headerEnd + 4);
          Some(Part(body[partStart..headerEnd], headerEnd + 4, if end == NPOS then |body| else end))
  }

  // ---- What a turn finds, in terms of occurrences ----

  /** The first place at or after `from` where `pat` occurs. */
  predicate FirstAt(s: string, pat: string, from: int, i: int) {
    from <= i && OccursAt(s, pat, i) && forall k :: from <= k < i ==> !OccursAt(s, pat, k)
  }

  ghost predicate Absent(s: string, pat: string, from: int) {
    forall k :: from <= k ==> !OccursAt(s, pat, k)
  }

  /** A part may follow a delimiter that ends at `at`: it is neither cut off nor the closing one. */
  predicate Continues(body: string, at: int) {
    0 <= at && at + 2 <= |body| && body[at..at + 2] != "--"
  }

  /** Headers begin after the delimiter and, if it ends in a line break, after that. */
  function HeaderStart(body: string, at: int): (i: int)
    requires Continues(body, at)
    ensures 0 <= i <= |body|
  {
    if body[at] == '\r' then at + 2 else at
  }

  /**
   * The part lies after the first delimiter from `pos` on: headers up to the first blank line, content
   * up to the first delimiter on a line of its own, or to the end of the body without one.
   */
  ghost predicate IsNext(body: string, boundary: string, pos: nat, p: Part) {
    exists d :: FirstAt(body, boundary, pos, d) && AfterDelimiter(body, boundary, d + |boundary|, p)
  }

  ghost predicate AfterDelimiter(body: string, boundary: string, at: int, p: Part) {
    && Continues(body, at)
    && FirstAt(body, BLANK, HeaderStart(body, at), p.start - 4)
    && p.headers == body[HeaderStart(body, at)..p.start - 4]
    && (FirstAt(body, CRLF + boundary, p.start, p.end)
        || (p.end == |body| && Absent(body, CRLF + boundary, p.start)))
  }

  /** No delimiter is left, or only the closing one or a cut-off one, or no blank line after it. */
  ghost predicate NoNext(body: string, boundary: string, pos: nat) {
    || Absent(body, boundary, pos)
    || exists d :: FirstAt(body, boundary, pos, d)
                   && (Continues(body, d + |boundary|) ==> Absent(body, BLANK, HeaderStart(body, d + |boundary|)))
  }

  lemma FindMeaning(s: string, pat: string, from: nat)
    ensures var i := Find(s, pat, from);
            if i == NPOS then Absent(s, pat, from) else FirstAt(s, pat, from, i) && i + |pat| <= |s|
  {
    hide Find;
  }

  /** What the searches find is the next part, and they find nothing only when there is none. */
  lemma NextPartMeaning(body: string, boundary: string, pos: nat)
    ensures match NextPart(body, boundary, pos)
            case None => NoNext(body, boundary, pos)
            case Some(p) => IsNext(body, boundary, pos, p)
  {
    hide OccursAt, Find, FirstAt, Absent;
    FindMeaning(body, boundary, pos);
    var d := Find(body, boundary, pos);
    if d != NPOS {
      var at := d + |boundary|;
      assert at + 2 <= |body| ==> body[at..at + 2] == [body[at], body[at + 1]];
      if Continues(body, at) {
        FindMeaning(body, BLANK, HeaderStart(body, at));
        var h := Find(body, BLANK, HeaderStart(body, at));
        if h != NPOS {
          FindMeaning(body, CRLF + boundary, h + 4);
        }
      }
    }
  }

  lemma SameEnd(body: string, mark: string, start: int, e: int, f: int)
    requires FirstAt(body, mark, start, e) || (e == |body| && Absent(body, mark, start))
    requires FirstAt(body, mark, start, f) || (f == |body| && Absent(body, mark, start))
    ensures e == f
  {
    hide OccursAt;
  }

  /** There is at most one next part. */
  lemma NextUnique(body: string, boundary: string, pos: nat, p: Part, q: Part)
    requires IsNext(body, boundary, pos, p) && IsNext(body, boundary, pos, q)
    ensures p == q
  {
    hide OccursAt, FirstAt, Absent;
    var d :| FirstAt(body, boundary, pos, d) && AfterDelimiter(body, boundary, d + |boundary|, p);
    var e :| FirstAt(body, boundary, pos, e) && AfterDelimiter(body, boundary, e + |boundary|, q);
    SameFirst(body, boundary, pos, d, e);
    SameFirst(body, BLANK, HeaderStart(body, d + |boundary|), p.start - 4, q.start - 4);
    SameEnd(body, CRLF + boundary, p.start, p.end, q.end);
  }

  lemma SameFirst(s: string, pat: string, from: int, i: int, j: int)
    requires FirstAt(s, pat, from, i) && FirstAt(s, pat, from, j)
    ensures i == j
  {
    hide OccursAt;
  }

  lemma NextExcludesAt(body: string, boundary: string, pos: nat, p: Part, e: int)
    requires IsNext(body, boundary, pos, p) && FirstAt(body, boundary, pos, e)
    ensures Continues(body, e + |boundary|) && !Absent(body, BLANK, HeaderStart(body, e + |boundary|))
  {
    hide OccursAt;
    var d :| FirstAt(body, boundary, pos, d) && AfterDelimiter(body, boundary, d + |boundary|, p);
    SameFirst(body, boundary, pos, d, e);
  }

  /** And none at all exactly where the loop stops. */
  lemma NextExcludes(body: string, boundary: string, pos: nat, p: Part)
    requires IsNext(body, boundary, pos, p)
    ensures !NoNext(body, boundary, pos)
  {
    hide OccursAt, AfterDelimiter;
    forall e | FirstAt(body, boundary, pos, e)
      ensures Continues(body, e + |boundary|) && !Absent(body, BLANK, HeaderStart(body, e + |boundary|))
    {
      NextExcludesAt(body, boundary, pos, p, e);
    }
  }

  // ---- All turns ----

  /** All parts from `pos` on. */
  function Parts(body: string, boundary: string, pos: nat): seq<Part>
    decreases |body| - pos
  {
    match NextPart(body, boundary, pos)
    case None => []
    case Some(p) => [p] + Parts(body, boundary, p.end)
  }

  // ---- What becomes of a part ----

  predicate IsFile(headers: string) {
    Contains(headers, "filename=")
  }

  predicate IsCaption(headers: string) {
    Contains(headers, "name=\"caption\"")
  }

  /** The client's own file name, when it is quoted in the headers. */
  function OriginalName(headers: string): Option<string> {
    var at := Find(headers, "filename=\"", 0);
    if at == NPOS then None
    else
      var close := Find(headers, "\"", at + 10);
      if close == NPOS then None else Some(headers[at + 10..close])
  }

  /** The stored name: the part's number with the original extension. */
  function FileName(headers: string, item: string, n: nat): string {
    match OriginalName(headers)
    case None => "photo_" + item + "_" + Decimal(n) + ".jpg"
    case Some(name) =>
      var dot := FindLast(name, '.');
      "item" + item + "_p" + Decimal(n) + if dot == NPOS then ".jpg" else name[dot..]
  }

  /** The effect of the `n`-th part; `opens` tells which files the disk lets the route create. */
  function Take(up: Upload, headers: string, content: string, item: string, n: nat, opens: string -> bool): Upload {
    if !IsFile(headers) then
      if IsCaption(headers) then up.(caption := content) else up
    else
      var name := FileName(headers, item, n);
      if opens(name) then up.(files := up.files + [Saved(name, content)]) else up
  }

  function TakeAll(up: Upload, body: string, parts: seq<Part>, item: string, n: nat, opens: string -> bool): Upload
    requires forall p :: p in parts ==> p.start <= p.end <= |body|
    decreases parts
  {
    if parts == [] then up
    else
      var p := parts[0];
      TakeAll(Take(up, p.headers, body[p.start..p.end], item, n, opens), body, parts[1..], item, n + 1, opens)
  }

  // ---- Any body at all ----

  /** The contents found lie inside the body, in order, and apart from each other. */
  lemma {:induction false} SlicesInOrder(body: string, boundary: string, pos: nat)
    ensures var ps := Parts(body, boundary, pos);
            && (forall p :: p in ps ==> pos <= p.start <= p.end <= |body|)
            && (forall i, j :: 0 <= i < j < |ps| ==> ps[i].end < ps[j].start)
    decreases |body| - pos
  {
    match NextPart(body, boundary, pos)
    case None =>
    case Some(p) =>
      SlicesInOrder(body, boundary, p.end);
      var rest := Parts(body, boundary, p.end);
      forall q | q in rest ensures p.end < q.start {
        FirstAfter(body, boundary, p.end);
      }
  }

  lemma {:induction false} FirstAfter(body: string, boundary: string, pos: nat)
    ensures forall p :: p in Parts(body, boundary, pos) ==> pos < p.start
    decreases |body| - pos
  {
    match NextPart(body, boundary, pos)
    case None =>
    case Some(p) => FirstAfter(body, boundary, p.end);
  }

  /** The searching half of a turn of the upload loop: the next part, or none where the loop breaks off. */
  method LocatePart(body: string, boundary: string, searchPos: nat) returns (r: Option<Part>)
    ensures r.None? <==> NoNext(body, boundary, searchPos)
    ensures r.Some? ==> IsNext(body, boundary, searchPos, r.value)
    ensures r == NextPart(body, boundary, searchPos)
  {
    hide Find, IsNext, NoNext;
    NextPartMeaning(body, boundary, searchPos);
    if NextPart(body, boundary, searchPos).Some? {
      NextExcludes(body, boundary, searchPos, NextPart(body, boundary, searchPos).value);
    }
    var partStart := Find(body, boundary, searchPos);
    if partStart == NPOS {
      return None;
    }
    partStart := partStart + |boundary|;
    if partStart + 2 > |body| {
      return None;
    }
    if body[partStart] == '-' && body[partStart + 1] == '-' {
      return None;
    }
    if body[partStart] == '\r' {
      partStart := partStart + 2;
    }
    var headerEnd := Find(body, BLANK, partStart);
    if headerEnd == NPOS {
      return None;
    }
    var bodyStart := headerEnd + 4;
    var bodyEnd := Find(body, CRLF + boundary, bodyStart);
    if bodyEnd == NPOS {
      bodyEnd := |body|;
    }
    return Some(Part(body[partStart..headerEnd], bodyStart, bodyEnd));
  }

  /** The upload loop. */
  method ParseUpload(body: string, boundary: string, item: string, opens: string -> bool, caption0: string)
    returns (up: Upload)
    ensures forall p :: p in Parts(body, boundary, 0) ==> p.start <= p.end <= |body|
    ensures up == TakeAll(Upload([], caption0), body, Parts(body, boundary, 0), item, 1, opens)
  {
    hide IsFile, IsCaption, FileName, NextPart;
    var searchPos, partNum := 0, 0;
    up := Upload([], caption0);
    ghost var left := Parts(body, boundary, 0);
    SlicesInOrder(body, boundary, 0);
    while true
      invariant left == Parts(body, boundary, searchPos)
      invariant forall p :: p in left ==> p.start <= p.end <= |body|
      invariant TakeAll(up, body, left, item, partNum + 1, opens) ==
                TakeAll(Upload([], caption0), body, Parts(body, boundary, 0), item, 1, opens)
      decreases |body| - searchPos
    {
      var part := LocatePart(body, boundary, searchPos);
      if part == None {
        break;
      }
      var Part(headers, bodyStart, bodyEnd) := part.value;
      left := Parts(body, boundary, bodyEnd);
      partNum := partNum + 1;
      var content := body[bodyStart..bodyEnd];
      if !IsFile(headers) {
        if IsCaption(headers) {
          up := up.(caption := content);
        }
        searchPos := bodyEnd;
        continue;
      }
      var filename := FileName(headers, item, partNum);
      if opens(filename) {
        up := up.(files := up.files + [Saved(filename, content)]);
      }
      searchPos := bodyEnd;
    }
  }
}
