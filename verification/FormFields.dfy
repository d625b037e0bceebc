// Form fields as RFC 7578 prints them, and what an upload makes of each: a photo when
// it has a file name, else the caption when that is its name.

module FormFields {
  import opened Multipart
  import opened MultipartRoundTrip
  import opened MultipartStandard
  import opened Options
  import opened Sequences
  import opened Text
  import Url

  /** A parameter of a header field, with its value quoted or, when it is a token, as it is. */
  datatype Param = Param(name: string, value: string, quoted: bool)

  /** The parameters of the Content-Disposition field, any other header lines, and the content. */
  datatype Field = Field(params: seq<Param>, others: seq<string>, content: string)

  const FORM_DATA := "Content-Disposition: form-data"

  predicate Token(s: string) {
    s != [] && forall c :: c in s ==> c > ' ' && c != '"' && c != '=' && c != ';'
  }

  predicate GoodParam(p: Param) {
    && Token(p.name)
    && if p.quoted then forall c :: c in p.value ==> c != '"' && c != '\r' && c != '\n' else Token(p.value)
  }

  function Shown(p: Param): string {
    if p.quoted then "\"" + p.value + "\"" else p.value
  }

  function PrintParam(p: Param): string {
    p.name + "=" + Shown(p)
  }

  /** The parameters from some point on, and what follows them. */
  function PrintParams(ps: seq<Param>, tail: string): string {
    if ps == [] then tail else "; " + (PrintParam(ps[0]) + PrintParams(ps[1..], tail))
  }

  function HeaderLines(f: Field): seq<string> {
    [FORM_DATA + PrintParams(f.params, [])] + f.others
  }

  // ---- What follows a pattern ----

  lemma DropShift(pre: string, s: string, i: nat)
    requires i <= |s|
    ensures (pre + s)[|pre| + i..] == s[i..]
  {
  }

  lemma DropFront(s: string, tail: string, i: nat)
    requires i <= |s|
    ensures (s + tail)[i..] == s[i..] + tail
  {
  }

  /** A search that passes over a front gives what it gives from there on. */
  lemma BehindPassed(t: string, c: char, rest: string, pat: string)
    requires c !in pat && pat != [] && !Contains(t, pat)
    ensures Behind(t + ([c] + rest), pat) == Behind(rest, pat)
  {
    hide Find, OccursAt;
    FindPassed(t, c, rest, pat);
    var r := Find(rest, pat, 0);
    if r != NPOS {
      InRange(rest, pat, r);
      Regroup(t, [c], rest);
      DropShift(t + [c], rest, r + |pat|);
    }
  }

  lemma NotInNothing(pat: string)
    requires pat != []
    ensures !Contains([], pat) && Behind([], pat) == None
  {
  }

  /** A character that is not in a pattern may be dropped. */
  lemma BehindNext(c: char, rest: string, pat: string)
    requires c !in pat && pat != []
    ensures Behind([c] + rest, pat) == Behind(rest, pat)
  {
    hide Behind, Contains;
    NotInNothing(pat);
    assert [] + ([c] + rest) == [c] + rest;
    BehindPassed([], c, rest, pat);
  }

  lemma BehindFound(t: string, tail: string, pat: string)
    requires pat != [] && (tail == [] || tail[0] !in pat) && Contains(t, pat)
    ensures Behind(t, pat).Some? && Behind(t + tail, pat) == Some(Behind(t, pat).value + tail)
  {
    hide Find, OccursAt;
    FindHere(t, tail, pat);
    InRange(t, pat, Find(t, pat, 0));
    DropFront(t, tail, Find(t, pat, 0) + |pat|);
  }

  /** A pattern that cannot reach across a joint is found in the front or else in the rest. */
  lemma BehindJoin(t: string, tail: string, pat: string)
    requires pat != [] && (tail == [] || tail[0] !in pat)
    ensures Behind(t + tail, pat) ==
            if Behind(t, pat).Some? then Some(Behind(t, pat).value + tail) else Behind(tail, pat)
  {
    hide Find;
    if Contains(t, pat) {
      BehindFound(t, tail, pat);
    } else if tail == [] {
      assert t + tail == t;
      NotInNothing(pat);
    } else {
      assert tail == [tail[0]] + tail[1..];
      BehindPassed(t, tail[0], tail[1..], pat);
      BehindNext(tail[0], tail[1..], pat);
    }
  }

  lemma NotWithout(t: string, pat: string, j: nat)
    requires j < |pat| && pat[j] !in t
    ensures Behind(t, pat) == None
  {
    if OccursAt(t, pat, Find(t, pat, 0)) {
      OccursChar(t, pat, Find(t, pat, 0), j);
    }
  }

  // ---- One parameter ----

  const FILE_KEY := "filename="
  const FILE_MARK := "filename=\""
  const CAPTION_MARK := "name=\"caption\""

  predicate Ends(s: string, end: string) {
    |end| <= |s| && s[|s| - |end|..] == end
  }

  /** After a name and an equals sign, either at the end of the name or in the value. */
  lemma KeyInParam(name: string, text: string, key: string)
    requires '=' !in name && '=' !in key
    ensures Behind(name + "=" + text, key + "=") == if Ends(name, key) then Some(text) else Behind(text, key + "=")
  {
    Url.PairAfter(Url.Pair(name, text), key);
  }

  lemma KeyInQuotes(value: string, key: string)
    requires '"' !in key
    ensures Behind("\"" + value + "\"", key + "=").Some? <==> Contains(value, key + "=")
  {
    hide Find;
    assert "\"" + value + "\"" == "\"" + (value + "\"");
    BehindNext('"', value + "\"", key + "=");
    BehindJoin(value, "\"", key + "=");
    assert "\"" == ['"'] + [];
    BehindNext('"', [], key + "=");
    NotInNothing(key + "=");
  }

  lemma TokenName(p: Param)
    requires GoodParam(p)
    ensures '=' !in p.name && '"' !in p.name && (p.quoted ==> '"' !in p.value)
    ensures !p.quoted ==> '"' !in p.value && '=' !in p.value
  {
  }

  /** `filename=` stands in a parameter whose name ends with it, or whose value contains it. */
  lemma FileKeyIff(p: Param)
    requires GoodParam(p)
    ensures Contains(PrintParam(p), FILE_KEY) <==> Ends(p.name, "filename") || Contains(p.value, FILE_KEY)
  {
    hide Find, Ends, GoodParam;
    TokenName(p);
    KeyInParam(p.name, Shown(p), "filename");
    assert "filename" + "=" == FILE_KEY;
    if p.quoted {
      KeyInQuotes(p.value, "filename");
    }
  }

  lemma OccursSplit(s: string, a: string, b: string, p: int)
    ensures OccursAt(s, a + b, p) <==> OccursAt(s, a, p) && OccursAt(s, b, p + |a|)
  {
    if 0 <= p && p + |a + b| <= |s| {
      var whole := s[p..p + |a + b|];
      assert s[p..p + |a|] == whole[..|a|] && s[p + |a|..p + |a| + |b|] == whole[|a|..];
      assert (a + b)[..|a|] == a && (a + b)[|a|..] == b && whole == whole[..|a|] + whole[|a|..];
    }
  }

  /** A key, an equals sign and more: at the end of the name with the text going on so, or in the text. */
  lemma MarkPlaces(name: string, text: string, key: string, more: string, p: int)
    requires '=' !in name && '=' !in key
    ensures OccursAt(name + "=" + text, key + "=" + more, p) <==>
            (Ends(name, key) && p == |name| - |key| && more <= text) ||
            (p > |name| && OccursAt(text, key + "=" + more, p - |name| - 1))
  {
    hide OccursAt, Ends;
    var s := name + "=" + text;
    OccursSplit(s, key + "=", more, p);
    KeyPlace(name, text, key, p);
    if p == |name| - |key| {
      OccursNext(name + "=", text, more);
    }
    if p > |name| {
      OccursSplit(text, key + "=", more, p - |name| - 1);
      OccursShift(name + "=", text, more, p - |name| + |key|);
    }
  }

  lemma KeyPlace(name: string, text: string, key: string, p: int)
    requires '=' !in name && '=' !in key
    ensures OccursAt(name + "=" + text, key + "=", p) <==>
            (Ends(name, key) && p == |name| - |key|) || (p > |name| && OccursAt(text, key + "=", p - |name| - 1))
  {
    hide OccursAt;
    Url.KeyPlaces(Url.Pair(name, text), key, p);
  }

  lemma OccursNext(pre: string, text: string, more: string)
    ensures OccursAt(pre + text, more, |pre|) <==> more <= text
  {
    OccursShift(pre, text, more, 0);
    if |more| <= |text| {
      assert text[0..|more|] == text[..|more|];
    }
  }

  /** Between two quotes, a key with a quote behind its equals sign can only end where the value ends. */
  lemma NotInQuotes(value: string, key: string, more: string, i: nat)
    requires '"' !in value && '"' !in key && more != [] && more[0] == '"'
    requires |more| > 1 || !Contains(value, key + "=")
    ensures !OccursAt("\"" + value + "\"", key + "=" + more, i)
  {
    var text, pat := "\"" + value + "\"", key + "=" + more;
    if OccursAt(text, pat, i) {
      OccursChar(text, pat, i, |key| + 1);
      assert i + |key| + 1 == |text| - 1;
      assert |more| == 1;
      OccursChar(text, pat, i, 0);
      assert text[i..i + |pat|][..|key| + 1] == pat[..|key| + 1] == key + "=";
      assert value[i - 1..i - 1 + |key + "="|] == text[i..i + |pat|][..|key| + 1];
      ContainsOccurrence(value, key + "=", i - 1);
    }
  }

  /** `name="caption"` stands in a parameter whose name ends so and whose quoted value is that word. */
  lemma CaptionMarkIff(p: Param)
    requires GoodParam(p)
    ensures Contains(PrintParam(p), CAPTION_MARK) <==> Ends(p.name, "name") && p.quoted && p.value == "caption"
  {
    hide OccursAt, Ends, GoodParam;
    TokenName(p);
    var more := "\"caption\"";
    assert CAPTION_MARK == "name" + "=" + more;
    forall i: int
      ensures OccursAt(PrintParam(p), CAPTION_MARK, i) <==>
              Ends(p.name, "name") && i == |p.name| - 4 && p.quoted && p.value == "caption"
    {
      MarkPlaces(p.name, Shown(p), "name", more, i);
      if p.quoted {
        if i > |p.name| {
          NotInQuotes(p.value, "name", more, i - |p.name| - 1);
        }
        QuotedWord(p.value, "caption");
      } else {
        NoQuoteStarts(p.value, more);
        if i > |p.name| {
          NoQuoteInside(p.value, "name" + "=" + more, i - |p.name| - 1, 5);
        }
      }
    }
    if Ends(p.name, "name") && p.quoted && p.value == "caption" {
      ContainsOccurrence(PrintParam(p), CAPTION_MARK, |p.name| - 4);
    }
  }

  lemma QuotedWord(value: string, word: string)
    requires '"' !in value && '"' !in word
    ensures "\"" + word + "\"" <= "\"" + value + "\"" <==> value == word
  {
    var text, more := "\"" + value + "\"", "\"" + word + "\"";
    if more <= text {
      assert text[|word| + 1] == '"';
      assert value == text[1..|value| + 1] && word == more[1..|word| + 1] == text[1..|word| + 1];
    }
  }

  lemma NoQuoteStarts(value: string, more: string)
    requires '"' !in value && more != [] && more[0] == '"'
    ensures !(more <= value)
  {
  }

  lemma NoQuoteInside(value: string, pat: string, i: int, j: nat)
    requires '"' !in value && j < |pat| && pat[j] == '"'
    ensures !OccursAt(value, pat, i)
  {
    if OccursAt(value, pat, i) {
      OccursChar(value, pat, i, j);
    }
  }

  /** A quoted file name is what stands between the mark and the next quote. */
  lemma FileMarkBehind(p: Param)
    requires GoodParam(p) && !Contains(p.value, FILE_KEY)
    ensures Behind(PrintParam(p), FILE_MARK) ==
            if p.quoted && Ends(p.name, "filename") then Some(p.value + "\"") else None
  {
    hide OccursAt, Ends, GoodParam;
    TokenName(p);
    assert FILE_MARK == "filename" + "=" + "\"" && "filename" + "=" == FILE_KEY;
    forall i: int
      ensures OccursAt(PrintParam(p), FILE_MARK, i) <==> Ends(p.name, "filename") && i == |p.name| - 8 && p.quoted
    {
      MarkPlaces(p.name, Shown(p), "filename", "\"", i);
      if p.quoted {
        if i > |p.name| {
          NotInQuotes(p.value, "filename", "\"", i - |p.name| - 1);
        }
      } else {
        NoQuoteStarts(p.value, "\"");
        if i > |p.name| {
          NoQuoteInside(p.value, FILE_MARK, i - |p.name| - 1, 9);
        }
      }
    }
    if p.quoted && Ends(p.name, "filename") {
      InRange(PrintParam(p), FILE_MARK, |p.name| - 8);
      FindIs(PrintParam(p), FILE_MARK, 0, |p.name| - 8);
      assert PrintParam(p)[|p.name| + 2..] == p.value + "\"";
    }
  }

  // ---- The whole header text ----

  /** The other header lines, each after a line break. */
  function Following(others: seq<string>): string {
    if others == [] then [] else CRLF + Joined(others)
  }

  lemma {:induction false} ParamsTail(ps: seq<Param>, tail: string)
    ensures PrintParams(ps, tail) == PrintParams(ps, []) + tail
    decreases ps
  {
    hide PrintParam;
    if ps == [] {
      assert [] + tail == tail;
    } else {
      ParamsTail(ps[1..], tail);
      Regroup(PrintParam(ps[0]), PrintParams(ps[1..], []), tail);
      Regroup("; ", PrintParam(ps[0]) + PrintParams(ps[1..], []), tail);
    }
  }

  lemma HeaderShape(f: Field)
    ensures Joined(HeaderLines(f)) == FORM_DATA + PrintParams(f.params, Following(f.others))
  {
    hide PrintParams;
    ParamsTail(f.params, Following(f.others));
    var lines := HeaderLines(f);
    assert lines[1..] == f.others;
    Regroup(FORM_DATA, PrintParams(f.params, []), Following(f.others));
    if f.others == [] {
      assert PrintParams(f.params, []) + [] == PrintParams(f.params, []);
    } else {
      Regroup(lines[0], CRLF, Joined(f.others));
    }
  }

  /** A pattern that cannot reach from one parameter, or line, into another. */
  predicate Inner(pat: string) {
    pat != [] && (forall c :: c in pat ==> c != ';' && c != ' ' && c != '\r' && c != '\n') && '=' in pat
  }

  /** The first parameter that holds a pattern. */
  function FirstWith(ps: seq<Param>, pat: string): Option<nat> {
    if ps == [] then None
    else if Contains(PrintParam(ps[0]), pat) then Some(0)
    else match FirstWith(ps[1..], pat)
      case None => None
      case Some(i) => Some(i + 1)
  }

  lemma ParamsStart(ps: seq<Param>, tail: string, pat: string)
    requires Inner(pat) && (tail == [] || tail[0] == '\r')
    ensures var text := PrintParams(ps, tail); text == [] || text[0] !in pat
  {
  }

  /** A pattern is found in the first parameter that holds it, or else in the other lines. */
  lemma {:induction false} BehindParams(ps: seq<Param>, tail: string, pat: string)
    requires Inner(pat) && (tail == [] || tail[0] == '\r')
    ensures match FirstWith(ps, pat)
            case None => Behind(PrintParams(ps, tail), pat) == Behind(tail, pat)
            case Some(i) =>
              i < |ps| && Behind(PrintParam(ps[i]), pat).Some? &&
              Behind(PrintParams(ps, tail), pat) ==
              Some(Behind(PrintParam(ps[i]), pat).value + PrintParams(ps[i + 1..], tail))
    decreases ps
  {
    hide Behind, Contains, PrintParam;
    if ps != [] {
      var shown, rest := PrintParam(ps[0]), PrintParams(ps[1..], tail);
      BehindContains(shown, pat);
      ParamsStart(ps[1..], tail, pat);
      assert PrintParams(ps, tail) == [';'] + ([' '] + (shown + rest));
      BehindNext(';', [' '] + (shown + rest), pat);
      BehindNext(' ', shown + rest, pat);
      BehindJoin(shown, rest, pat);
      BehindParams(ps[1..], tail, pat);
    }
  }

  lemma BehindContains(t: string, pat: string)
    ensures Contains(t, pat) <==> Behind(t, pat).Some?
  {
  }

  lemma {:induction false} LinesContain(lines: seq<string>, pat: string)
    requires Inner(pat)
    ensures Behind(Joined(lines), pat).Some? <==> exists i :: 0 <= i < |lines| && Contains(lines[i], pat)
    decreases lines
  {
    hide Behind, Contains;
    if lines == [] {
      NotInNothing(pat);
    } else {
      var rest := Joined(lines[1..]);
      BehindContains(lines[0], pat);
      LinesContain(lines[1..], pat);
      if |lines| > 1 {
        assert Joined(lines) == lines[0] + (['\r'] + (['\n'] + rest));
        BehindJoin(lines[0], ['\r'] + (['\n'] + rest), pat);
        BehindNext('\r', ['\n'] + rest, pat);
        BehindNext('\n', rest, pat);
        assert forall i :: 1 <= i < |lines| ==> lines[i] == lines[1..][i - 1];
      }
    }
  }

  /** The header text holds a pattern where a parameter or another line does. */
  lemma BehindHeaders(f: Field, pat: string)
    requires Inner(pat)
    ensures var text, tail := Joined(HeaderLines(f)), Following(f.others);
            match FirstWith(f.params, pat)
            case None => (Behind(text, pat).Some? <==> exists i :: 0 <= i < |f.others| && Contains(f.others[i], pat))
            case Some(i) =>
              i < |f.params| && Behind(PrintParam(f.params[i]), pat).Some? &&
              Behind(text, pat) ==
              Some(Behind(PrintParam(f.params[i]), pat).value + PrintParams(f.params[i + 1..], tail))
  {
    hide Behind, Contains, PrintParam, PrintParams, FirstWith;
    var tail := Following(f.others);
    HeaderShape(f);
    ParamsStart(f.params, tail, pat);
    BehindJoin(FORM_DATA, PrintParams(f.params, tail), pat);
    var j :| 0 <= j < |pat| && pat[j] == '=';
    NotWithout(FORM_DATA, pat, j);
    BehindParams(f.params, tail, pat);
    LinesContain(f.others, pat);
    if f.others != [] {
      assert tail == ['\r'] + (['\n'] + Joined(f.others));
      BehindNext('\r', ['\n'] + Joined(f.others), pat);
      BehindNext('\n', Joined(f.others), pat);
    } else {
      NotInNothing(pat);
    }
  }

  lemma {:induction false} FirstWithMeans(ps: seq<Param>, pat: string)
    ensures match FirstWith(ps, pat)
            case None => forall i :: 0 <= i < |ps| ==> !Contains(PrintParam(ps[i]), pat)
            case Some(k) => k < |ps| && Contains(PrintParam(ps[k]), pat) &&
                            forall i :: 0 <= i < k ==> !Contains(PrintParam(ps[i]), pat)
    decreases ps
  {
    hide Contains, PrintParam;
    if ps != [] {
      FirstWithMeans(ps[1..], pat);
      assert forall i :: 1 <= i < |ps| ==> ps[i] == ps[1..][i - 1];
    }
  }

  predicate GoodParams(ps: seq<Param>) {
    forall i :: 0 <= i < |ps| ==> GoodParam(ps[i])
  }

  /**
   * A field is taken for a photo exactly when a parameter's name ends with `filename`, or a value or
   * another header line contains that word with an equals sign.
   */
  lemma FileIff(f: Field)
    requires GoodParams(f.params)
    ensures IsFile(Joined(HeaderLines(f))) <==>
            || (exists i :: 0 <= i < |f.params| &&
                  (Ends(f.params[i].name, "filename") || Contains(f.params[i].value, "filename=")))
            || (exists i :: 0 <= i < |f.others| && Contains(f.others[i], "filename="))
  {
    hide Behind, Contains, Ends, GoodParam, HeaderLines;
    BehindHeaders(f, FILE_KEY);
    BehindContains(Joined(HeaderLines(f)), FILE_KEY);
    FirstWithMeans(f.params, FILE_KEY);
    forall i | 0 <= i < |f.params|
      ensures Contains(PrintParam(f.params[i]), FILE_KEY) <==>
              Ends(f.params[i].name, "filename") || Contains(f.params[i].value, FILE_KEY)
    {
      FileKeyIff(f.params[i]);
    }
  }

  /** It is taken for the caption exactly when a parameter's name ends with `name` and its quoted value is that word. */
  lemma CaptionIff(f: Field)
    requires GoodParams(f.params)
    ensures IsCaption(Joined(HeaderLines(f))) <==>
            || (exists i :: 0 <= i < |f.params| && Ends(f.params[i].name, "name") && f.params[i].quoted
                            && f.params[i].value == "caption")
            || (exists i :: 0 <= i < |f.others| && Contains(f.others[i], "name=\"caption\""))
  {
    hide Behind, Contains, Ends, GoodParam, HeaderLines;
    BehindHeaders(f, CAPTION_MARK);
    BehindContains(Joined(HeaderLines(f)), CAPTION_MARK);
    FirstWithMeans(f.params, CAPTION_MARK);
    forall i | 0 <= i < |f.params|
      ensures Contains(PrintParam(f.params[i]), CAPTION_MARK) <==>
              Ends(f.params[i].name, "name") && f.params[i].quoted && f.params[i].value == "caption"
    {
      CaptionMarkIff(f.params[i]);
    }
  }

  // ---- What an upload makes of a field ----

  /**
   * The parameters are `name` and `filename` where their names end so, and nothing but the parameter
   * `filename` mentions that word with an equals sign.
   */
  predicate Ordinary(f: Field) {
    && GoodParams(f.params)
    && (forall i :: 0 <= i < |f.params| ==>
          && (Ends(f.params[i].name, "name") ==> f.params[i].name == "name" || f.params[i].name == "filename")
          && !Contains(f.params[i].value, "filename="))
    && (forall i :: 0 <= i < |f.others| ==>
          HeaderLine(f.others[i]) && !Contains(f.others[i], "filename=") && !Contains(f.others[i], "name=\"caption\""))
  }

  predicate HasFileName(f: Field) {
    exists i :: 0 <= i < |f.params| && f.params[i].name == "filename"
  }

  predicate NamedCaption(f: Field) {
    exists i :: 0 <= i < |f.params| && f.params[i] == Param("name", "caption", true)
  }

  /** The first quoted file name. */
  function QuotedName(ps: seq<Param>): Option<string> {
    if ps == [] then None
    else if ps[0].name == "filename" && ps[0].quoted then Some(ps[0].value)
    else QuotedName(ps[1..])
  }

  /** A file name from its last dot on, or `.jpg`. */
  function Ending(name: string): string {
    if name == [] then ".jpg" else if name[0] == '.' && '.' !in name[1..] then name else Ending(name[1..])
  }

  /** The name a field's file is stored under when the field is the `n`-th part of the form. */
  function StoredName(f: Field, item: string, n: nat): string {
    match QuotedName(f.params)
    case None => "photo_" + item + "_" + Decimal(n) + ".jpg"
    case Some(name) => "item" + item + "_p" + Decimal(n) + Ending(name)
  }

  /** What the fields of a form from the `n`-th on add to an upload. */
  function Outcome(up: Upload, fs: seq<Field>, item: string, n: nat, opens: string -> bool): Upload
    decreases fs
  {
    if fs == [] then up
    else
      var f, name := fs[0], StoredName(fs[0], item, n);
      var next := if HasFileName(f) then
                    (if opens(name) then up.(files := up.files + [Saved(name, f.content)]) else up)
                  else if NamedCaption(f) then up.(caption := f.content) else up;
      Outcome(next, fs[1..], item, n + 1, opens)
  }

  /** The last dot cuts a name where the search for it does. */
  lemma {:induction false} EndingIs(name: string)
    ensures Ending(name) == if FindLast(name, '.') == NPOS then ".jpg" else name[FindLast(name, '.')..]
    decreases name
  {
    if name != [] {
      EndingIs(name[1..]);
      var dot, rest := FindLast(name, '.'), FindLast(name[1..], '.');
      if rest != NPOS {
        assert name[rest + 1] == name[1..][rest] == '.';
        assert forall k :: rest + 1 < k < |name| ==> name[k] == name[1..][k - 1];
        assert dot == rest + 1;
        assert name[dot..] == name[1..][rest..];
      }
    }
  }

  lemma FileNameEnds(name: string)
    requires Ends(name, "filename")
    ensures Ends(name, "name")
  {
    assert "filename"[4..] == "name";
    assert name[|name| - 4..] == name[|name| - 8..][4..];
  }

  lemma WholeEnds(name: string)
    ensures Ends(name, name)
  {
  }

  lemma FileNameOnly(f: Field, i: nat)
    requires Ordinary(f) && i < |f.params|
    ensures GoodParams(f.params) && !Contains(f.params[i].value, FILE_KEY)
    ensures Ends(f.params[i].name, "filename") <==> f.params[i].name == "filename"
  {
    hide Contains, Ends, GoodParam;
    WholeEnds("filename");
    NameAlone();
    if Ends(f.params[i].name, "filename") {
      FileNameEnds(f.params[i].name);
    }
  }

  lemma OrdinaryFile(f: Field)
    requires Ordinary(f)
    ensures IsFile(Joined(HeaderLines(f))) <==> HasFileName(f)
  {
    hide Contains, Ends, GoodParam, IsFile;
    FileIff(f);
    forall i: nat | i < |f.params|
      ensures Ends(f.params[i].name, "filename") <==> f.params[i].name == "filename"
    {
      FileNameOnly(f, i);
    }
  }

  lemma NameAlone()
    ensures !Ends("name", "filename") && Ends("name", "name")
  {
  }

  lemma OrdinaryCaption(f: Field)
    requires Ordinary(f) && !HasFileName(f)
    ensures IsCaption(Joined(HeaderLines(f))) <==> NamedCaption(f)
  {
    hide Contains, Ends, GoodParam, IsCaption;
    CaptionIff(f);
    NameAlone();
    forall i | 0 <= i < |f.params|
      ensures Ends(f.params[i].name, "name") <==> f.params[i].name == "name"
    {
    }
    if NamedCaption(f) {
      var i :| 0 <= i < |f.params| && f.params[i] == Param("name", "caption", true);
      assert f.params[i].name == "name";
    }
  }

  // ---- The client's file name ----

  lemma MarkHasKey(t: string)
    requires Contains(t, FILE_MARK)
    ensures Contains(t, FILE_KEY)
  {
    hide OccursAt;
    assert FILE_MARK == FILE_KEY + "\"";
    OccursSplit(t, FILE_KEY, "\"", Find(t, FILE_MARK, 0));
    ContainsOccurrence(t, FILE_KEY, Find(t, FILE_MARK, 0));
  }

  lemma {:induction false} QuotedFirst(ps: seq<Param>)
    requires GoodParams(ps)
    requires forall i :: 0 <= i < |ps| ==>
               (Ends(ps[i].name, "filename") <==> ps[i].name == "filename") && !Contains(ps[i].value, FILE_KEY)
    ensures match FirstWith(ps, FILE_MARK)
            case None => QuotedName(ps) == None
            case Some(i) => i < |ps| && QuotedName(ps) == Some(ps[i].value) &&
                            Behind(PrintParam(ps[i]), FILE_MARK) == Some(ps[i].value + "\"") && '"' !in ps[i].value
    decreases ps
  {
    hide Contains, Ends, GoodParam, PrintParam, Behind;
    if ps != [] {
      FileMarkBehind(ps[0]);
      BehindContains(PrintParam(ps[0]), FILE_MARK);
      TokenName(ps[0]);
      QuotedFirst(ps[1..]);
    }
  }

  lemma ClosingQuote(value: string, rest: string)
    requires '"' !in value
    ensures Find(value + "\"" + rest, "\"", 0) == |value|
  {
    var t := value + "\"" + rest;
    forall k | 0 <= k < |value| ensures !OccursAt(t, "\"", k) {
      assert t[k] == value[k];
      Mismatch(t, "\"", k, 0);
    }
    assert t[|value|..|value| + 1] == "\"";
    FindIs(t, "\"", 0, |value|);
  }

  /** The route reads up to the next quote. */
  lemma OriginalBehind(headers: string, value: string, rest: string)
    requires Behind(headers, FILE_MARK) == Some(value + "\"" + rest) && '"' !in value
    ensures OriginalName(headers) == Some(value)
  {
    hide OccursAt;
    var at := Find(headers, FILE_MARK, 0);
    InRange(headers, FILE_MARK, at);
    var front := headers[..at + 10];
    assert headers == front + headers[at + 10..];
    FindShift(front, headers[at + 10..], "\"", 0);
    ClosingQuote(value, rest);
    assert headers[at + 10..][..|value|] == value;
    assert headers[at + 10..at + 10 + |value|] == headers[at + 10..][..|value|];
  }

  lemma NothingOriginal(headers: string)
    requires Behind(headers, FILE_MARK) == None
    ensures OriginalName(headers) == None
  {
  }

  lemma NotInOthers(f: Field, i: nat)
    requires Ordinary(f) && i < |f.others|
    ensures !Contains(f.others[i], FILE_MARK)
  {
    hide Contains, GoodParams;
    if Contains(f.others[i], FILE_MARK) {
      MarkHasKey(f.others[i]);
    }
  }

  /** The quoted file name comes back from the printed header. */
  lemma OrdinaryName(f: Field)
    requires Ordinary(f)
    ensures OriginalName(Joined(HeaderLines(f))) == QuotedName(f.params)
  {
    hide Contains, Ends, GoodParam, Behind, OriginalName, HeaderLines, PrintParam, Ordinary, PrintParams, Joined;
    OrdinaryGood(f);
    forall i: nat | i < |f.params|
      ensures (Ends(f.params[i].name, "filename") <==> f.params[i].name == "filename")
              && !Contains(f.params[i].value, FILE_KEY)
    {
      FileNameOnly(f, i);
    }
    QuotedFirst(f.params);
    BehindHeaders(f, FILE_MARK);
    var text := Joined(HeaderLines(f));
    match FirstWith(f.params, FILE_MARK)
    case None =>
      forall i: nat | i < |f.others| ensures !Contains(f.others[i], FILE_MARK) {
        NotInOthers(f, i);
      }
      NothingOriginal(text);
    case Some(i) =>
      OriginalBehind(text, f.params[i].value, PrintParams(f.params[i + 1..], Following(f.others)));
  }

  lemma OrdinaryGood(f: Field)
    requires Ordinary(f)
    ensures GoodParams(f.params)
  {
  }

  lemma OrdinaryStored(f: Field, item: string, n: nat)
    requires Ordinary(f)
    ensures FileName(Joined(HeaderLines(f)), item, n) == StoredName(f, item, n)
  {
    hide OriginalName, Ordinary, HeaderLines, Decimal, FindLast, Ending;
    OrdinaryName(f);
    if QuotedName(f.params).Some? {
      EndingIs(QuotedName(f.params).value);
    }
  }

  // ---- Uploading a form of fields ----

  predicate AllOrdinary(fs: seq<Field>, boundary: string) {
    forall i :: 0 <= i < |fs| ==> Ordinary(fs[i]) && !Contains(fs[i].content, CRLF + boundary)
  }

  function Parts(fs: seq<Field>): (ps: seq<BodyPart>)
    ensures |ps| == |fs|
    ensures forall i :: 0 <= i < |ps| ==> ps[i] == BodyPart(HeaderLines(fs[i]), Some(fs[i].content))
  {
    seq(|fs|, i requires 0 <= i < |fs| => BodyPart(HeaderLines(fs[i]), Some(fs[i].content)))
  }

  lemma {:induction false} ParamsOneLine(ps: seq<Param>)
    requires GoodParams(ps)
    ensures '\r' !in PrintParams(ps, []) && '\n' !in PrintParams(ps, [])
    decreases ps
  {
    if ps != [] {
      ParamsOneLine(ps[1..]);
      assert GoodParam(ps[0]);
      assert '\r' !in PrintParam(ps[0]) && '\n' !in PrintParam(ps[0]);
    }
  }

  lemma FieldAllowed(f: Field, boundary: string)
    requires Ordinary(f) && !Contains(f.content, CRLF + boundary)
    ensures Allowed(BodyPart(HeaderLines(f), Some(f.content)), boundary)
    ensures Complete(BodyPart(HeaderLines(f), Some(f.content)))
  {
    hide Contains, PrintParams;
    ParamsOneLine(f.params);
    forall i | 0 <= i < |HeaderLines(f)| ensures HeaderLine(HeaderLines(f)[i]) {
      assert i > 0 ==> HeaderLines(f)[i] == f.others[i - 1];
    }
  }

  lemma {:induction false} ReceiveFields(up: Upload, fs: seq<Field>, texts: seq<FormPart>, item: string, n: nat,
                                         opens: string -> bool)
    requires |texts| == |fs|
    requires forall i :: 0 <= i < |fs| ==>
               Ordinary(fs[i]) && texts[i] == FormPart(Joined(HeaderLines(fs[i])), fs[i].content)
    ensures Receive(up, texts, item, n, opens) == Outcome(up, fs, item, n, opens)
    decreases fs
  {
    hide IsFile, IsCaption, FileName, Ordinary, HeaderLines, HasFileName, NamedCaption, StoredName;
    if fs != [] {
      var f := fs[0];
      OrdinaryFile(f);
      if !HasFileName(f) {
        OrdinaryCaption(f);
      }
      OrdinaryStored(f, item, n);
      var next := Take(up, texts[0].headers, texts[0].content, item, n, opens);
      ReceiveFields(next, fs[1..], texts[1..], item, n + 1, opens);
    }
  }

  /**
   * Uploading a form of such fields: what the loop finds and saves are the contents of the fields that
   * have a file name, each under its number and its own ending, and the caption is that of the last
   * other field of this name.
   */
  lemma UploadOfFields(preamble: string, fs: seq<Field>, boundary: string, epilogue: string, item: string,
                       opens: string -> bool, caption0: string)
    requires GoodBoundary(boundary) && WholeLines(preamble) && !Contains(preamble, boundary)
    requires AllOrdinary(fs, boundary)
    ensures var body := preamble + PrintForm(Parts(fs), boundary, epilogue);
            var found := Multipart.Parts(body, boundary, 0);
            && (forall p :: p in found ==> p.start <= p.end <= |body|)
            && TakeAll(Upload([], caption0), body, found, item, 1, opens) ==
               Outcome(Upload([], caption0), fs, item, 1, opens)
  {
    hide GoodBoundary, WholeLines, Contains, Allowed, Complete, Ordinary, HeaderLines, PrintForm, TakeAll, Receive;
    hide Multipart.Parts, Outcome;
    forall i | 0 <= i < |fs| ensures Allowed(Parts(fs)[i], boundary) && Complete(Parts(fs)[i]) {
      FieldAllowed(fs[i], boundary);
    }
    FormRoundTrip(preamble, Parts(fs), boundary, epilogue, item, opens, caption0);
    ReceiveFields(Upload([], caption0), fs, Texts(Parts(fs)), item, 1, opens);
  }

  // ---- Two forms ----

  function TextField(name: string, content: string): Field {
    Field([Param("name", name, true)], [], content)
  }

  function FileField(name: string, filename: string, content: string): Field {
    Field([Param("name", name, true), Param("filename", filename, true)], [], content)
  }

  lemma TextKind(name: string, content: string)
    ensures !HasFileName(TextField(name, content))
    ensures NamedCaption(TextField(name, content)) <==> name == "caption"
  {
    assert TextField(name, content).params[0] == Param("name", name, true);
  }

  lemma FileKind(name: string, filename: string, content: string)
    ensures HasFileName(FileField(name, filename, content))
    ensures QuotedName(FileField(name, filename, content).params) == Some(filename)
  {
    var ps := FileField(name, filename, content).params;
    assert ps[1].name == "filename" && ps[1..][0] == ps[1];
    assert QuotedName(ps) == QuotedName(ps[1..]);
  }

  /** A caption and a photo: one file, under the second number, and the caption kept. */
  lemma CaptionAndPhoto(text: string, filename: string, data: string, item: string, opens: string -> bool)
    requires forall name :: opens(name)
    ensures var fs := [TextField("caption", text), FileField("photo", filename, data)];
            Outcome(Upload([], ""), fs, item, 1, opens) ==
            Upload([Saved("item" + item + "_p" + Decimal(2) + Ending(filename), data)], text)
  {
    hide Decimal, Ending, HasFileName, NamedCaption, QuotedName;
    var a, b := TextField("caption", text), FileField("photo", filename, data);
    TextKind("caption", text);
    FileKind("photo", filename, data);
    assert [a, b][1..] == [b] && [b][1..] == [];
    assert Outcome(Upload([], ""), [a, b], item, 1, opens) == Outcome(Upload([], text), [b], item, 2, opens);
    var saved := Upload([Saved(StoredName(b, item, 2), data)], text);
    assert Outcome(Upload([], text), [b], item, 2, opens) == Outcome(saved, [], item, 3, opens);
  }

  /** For one: a text field that is called `filename=` is saved as a photo. */
  lemma TextTakenForPhoto(content: string)
    ensures !HasFileName(TextField("filename=", content))
    ensures IsFile(Joined(HeaderLines(TextField("filename=", content))))
  {
    hide IsFile, Find, Joined, HeaderLines, HasFileName, Contains, Ends;
    var f := TextField("filename=", content);
    TextKind("filename=", content);
    NameToken();
    assert f.params[0] == Param("name", "filename=", true);
    FoundWhole("filename=");
    FileIff(f);
  }

  lemma NameToken()
    ensures GoodParam(Param("name", "filename=", true))
  {
  }

  lemma FoundWhole(s: string)
    ensures Contains(s, s)
  {
    assert s[0..|s|] == s;
    ContainsOccurrence(s, s, 0);
  }
}
