// Percent-decoding and query parameters, against RFC 3986 section 2.1. Texts are
// byte strings: every character stands for one byte.

module Url {
  import opened Options
  import opened Sequences
  import opened Text

  // ---- Decoding ----

  predicate IsSpace(c: char) {
    c == ' ' || '\t' <= c <= '\r'
  }

  /**
   * What a stream reads from two characters as a hexadecimal number: leading space is skipped, one
   * sign is taken, and reading stops at the first character that is no digit. No digit reads as 0.
   */
  function ScanHex(a: char, b: char): int {
    match (HexValue(a), HexValue(b))
    case (Some(x), Some(y)) => 16 * x + y
    case (Some(x), None) => x
    case (None, Some(y)) =>
      var sign: int := if IsSpace(a) || a == '+' then 1 else if a == '-' then -1 else 0;
      sign * y
    case (None, None) => 0
  }

  /** A number stored in one byte. */
  function ToByte(n: int): char {
    (n % 256) as char
  }

  /** `%` and two more characters. */
  predicate Escaped(s: string) {
    |s| > 2 && s[0] == '%'
  }

  /** The byte that the first characters stand for. */
  function HeadByte(s: string): char
    requires s != []
  {
    if s[0] == '+' then ' ' else if Escaped(s) then ToByte(ScanHex(s[1], s[2])) else s[0]
  }

  function UrlDecode(s: string): string {
    if s == [] then [] else [HeadByte(s)] + UrlDecode(s[(if Escaped(s) then 3 else 1)..])
  }

  lemma DecodeStep(out: string, s: string, i: nat, c: char, next: nat)
    requires i < |s| && c == HeadByte(s[i..]) && next == i + (if Escaped(s[i..]) then 3 else 1)
    ensures out + UrlDecode(s[i..]) == (out + [c]) + UrlDecode(s[next..])
  {
    hide HeadByte;
    assert s[i..][next - i..] == s[next..];
    Regroup(out, [c], UrlDecode(s[next..]));
  }

  /** The decoding loop. */
  method DecodeLoop(s: string) returns (out: string)
    ensures out == UrlDecode(s)
  {
    hide ScanHex, ToByte, UrlDecode;
    out := [];
    var i := 0;
    assert s[0..] == s;
    while i < |s|
      invariant 0 <= i <= |s|
      invariant out + UrlDecode(s[i..]) == UrlDecode(s)
    {
      ghost var before, start := out, i;
      if s[i] == '+' {
        out := out + [' '];
      } else if s[i] == '%' && i + 2 < |s| {
        out := out + [ToByte(ScanHex(s[i + 1], s[i + 2]))];
        i := i + 2;
      } else {
        out := out + [s[i]];
      }
      i := i + 1;
      DecodeStep(before, s, start, out[|before|], i);
    }
    assert s[i..] == [];
    DecodeEmpty();
    assert out + [] == out;
  }

  lemma DecodeEmpty()
    ensures UrlDecode([]) == []
  {
  }

  /** `%` and two digits at the front, standing for the byte `c`. */
  predicate Triplet(e: string, c: char) {
    && |e| >= 3 && e[0] == '%' && HexValue(e[1]).Some? && HexValue(e[2]).Some?
    && c as int == 16 * HexValue(e[1]).value + HexValue(e[2]).value
  }

  /** `e` is a percent-encoding of `s` by RFC 3986 section 2.1: each byte as itself, or as `%` and two digits. */
  predicate PercentEncodes(e: string, s: string)
    decreases e
  {
    if s == [] then e == []
    else if e == [] then false
    else if e[0] == '%' then Triplet(e, s[0]) && PercentEncodes(e[3..], s[1..])
    else s[0] == e[0] && PercentEncodes(e[1..], s[1..])
  }

  /** `e` is a form encoding of `s`: a percent-encoding in which a `+` stands for a space. */
  predicate FormEncodes(e: string, s: string)
    decreases e
  {
    if s == [] then e == []
    else if e == [] then false
    else if e[0] == '%' then Triplet(e, s[0]) && FormEncodes(e[3..], s[1..])
    else (if e[0] == '+' then s[0] == ' ' else s[0] == e[0]) && FormEncodes(e[1..], s[1..])
  }

  lemma TripletByte(e: string, c: char)
    requires Triplet(e, c)
    ensures Escaped(e) && HeadByte(e) == c
  {
  }

  lemma TripletPlus(e: string, c: char)
    requires Triplet(e, c)
    ensures '+' in e <==> '+' in e[3..]
  {
    assert e[0] != '+' && e[1] != '+' && e[2] != '+';
    forall i | 0 <= i < |e| && e[i] == '+' ensures e[i] == e[3..][i - 3] {
    }
  }

  lemma TripletDecodes(e: string, c: char)
    requires Triplet(e, c)
    ensures |e| >= 3 && UrlDecode(e) == [c] + UrlDecode(e[3..])
  {
    hide HeadByte, HexValue;
    TripletByte(e, c);
  }

  lemma LiteralDecodes(e: string)
    requires e != [] && e[0] != '%'
    ensures UrlDecode(e) == [if e[0] == '+' then ' ' else e[0]] + UrlDecode(e[1..])
    ensures '+' in e <==> e[0] == '+' || '+' in e[1..]
  {
    assert e == [e[0]] + e[1..];
  }

  /** Decoding inverts every form encoding. */
  lemma {:induction false} DecodeInverts(e: string, s: string)
    requires FormEncodes(e, s)
    ensures UrlDecode(e) == s
    decreases e
  {
    hide UrlDecode, Triplet;
    if s == [] {
      DecodeEmpty();
    } else {
      assert s == [s[0]] + s[1..];
      if e[0] == '%' {
        TripletDecodes(e, s[0]);
        DecodeInverts(e[3..], s[1..]);
      } else {
        LiteralDecodes(e);
        DecodeInverts(e[1..], s[1..]);
      }
    }
  }

  /** A percent-encoding is decoded to what it encodes exactly when it keeps no plus sign as itself. */
  lemma {:induction false} PercentDecodesIff(e: string, s: string)
    requires PercentEncodes(e, s)
    ensures UrlDecode(e) == s <==> '+' !in e
    decreases e
  {
    hide UrlDecode, Triplet;
    if s == [] {
      DecodeEmpty();
    } else {
      assert s == [s[0]] + s[1..];
      if e[0] == '%' {
        TripletDecodes(e, s[0]);
        TripletPlus(e, s[0]);
        PercentDecodesIff(e[3..], s[1..]);
        SameRest(s[0], UrlDecode(e[3..]), s[1..]);
      } else {
        LiteralDecodes(e);
        PercentDecodesIff(e[1..], s[1..]);
        SameRest(s[0], UrlDecode(e[1..]), s[1..]);
        assert e[0] == '+' ==> UrlDecode(e)[0] == ' ' && s[0] == '+';
      }
    }
  }

  lemma SameRest(c: char, a: string, b: string)
    ensures [c] + a == [c] + b <==> a == b
  {
    assert ([c] + a)[1..] == a && ([c] + b)[1..] == b;
  }

  /** A plus sign may stand for itself in a percent-encoding, and is read as a space. */
  lemma PlusReadAsSpace()
    ensures PercentEncodes("a+b", "a+b") && UrlDecode("a+b") == "a b"
  {
    assert "a+b"[1..] == "+b" && "+b"[1..] == "b" && "b"[1..] == "";
  }

  /** How the stream reads what is no escape: no digits, a sign, one digit, leading space, and an escape cut off. */
  lemma MalformedEscapes()
    ensures UrlDecode("%zz") == [0 as char] && UrlDecode("%-1") == [255 as char] && UrlDecode("%4z") == [4 as char]
    ensures UrlDecode("% 5") == UrlDecode("%\t5") == UrlDecode("%+5") == [5 as char] && UrlDecode("%4") == "%4"
  {
    DecodeEmpty();
    OneEscape("%zz");
    OneEscape("%-1");
    OneEscape("%4z");
    OneEscape("% 5");
    OneEscape("%\t5");
    OneEscape("%+5");
    assert "%4"[1..] == "4" && "4"[1..] == "";
  }

  lemma OneEscape(s: string)
    requires |s| == 3 && s[0] == '%'
    ensures UrlDecode(s) == [ToByte(ScanHex(s[1], s[2]))]
  {
    assert s[3..] == "";
    DecodeEmpty();
  }

  // ---- Query parameters ----

  /** The value that starts at `start`, which ends before the next ampersand. */
  function UpToAmpersand(query: string, start: nat): string
    requires start <= |query|
  {
    var end := Find(query, "&", start);
    if end == NPOS then query[start..] else query[start..end]
  }

  /** The key is searched in the whole query, and what follows it is decoded. */
  function QueryParam(query: string, key: string): string {
    var pos := Find(query, key + "=", 0);
    if pos == NPOS then "" else UrlDecode(UpToAmpersand(query, pos + |key| + 1))
  }

  // ---- A query as texts between ampersands ----

  predicate Uncut(s: string) {
    '&' !in s
  }

  predicate AllUncut(ss: seq<string>) {
    forall i :: 0 <= i < |ss| ==> Uncut(ss[i])
  }

  /** Texts joined by ampersands. */
  function JoinTexts(ts: seq<string>): string {
    if ts == [] then [] else if |ts| == 1 then ts[0] else ts[0] + ("&" + JoinTexts(ts[1..]))
  }

  /** The texts between the ampersands of a query; every query consists of some. */
  function SplitTexts(q: string): (ts: seq<string>)
    ensures ts != [] && AllUncut(ts) && JoinTexts(ts) == q
  {
    if q == [] then [[]]
    else
      var rest := SplitTexts(q[1..]);
      if q[0] == '&' then
        assert ([[]] + rest)[1..] == rest;
        [[]] + rest
      else
        var ts := [[q[0]] + rest[0]] + rest[1..];
        assert ts[1..] == rest[1..];
        ts
  }

  /** What follows the first `key=` of a text. */
  function After(t: string, key: string): Option<string> {
    Behind(t, key + "=")
  }

  /** What follows the first `key=` of the first text that holds one. */
  function FirstAfter(ts: seq<string>, key: string): Option<string> {
    if ts == [] then None
    else if After(ts[0], key).Some? then After(ts[0], key)
    else FirstAfter(ts[1..], key)
  }

  function Answer(value: Option<string>): string {
    match value
    case None => ""
    case Some(v) => UrlDecode(v)
  }

  /** Nothing, or the next text. */
  predicate Follows(tail: string) {
    tail == [] || tail[0] == '&'
  }

  /** The rest of a text is read up to its end. */
  lemma RestRead(t: string, tail: string, start: nat)
    requires Uncut(t) && Follows(tail) && start <= |t|
    ensures UpToAmpersand(t + tail, start) == t[start..]
  {
    var q := t + tail;
    assert q[start..|t|] == t[start..];
    forall p | start <= p < |t| ensures !OccursAt(q, "&", p) {
      assert q[p] == t[p] && t[p] in t;
      Mismatch(q, "&", p, 0);
    }
    SearchFurther(q, "&", start, |t|);
    if tail != [] {
      assert q[|t|..|t| + 1] == [tail[0]];
    }
  }

  /** A key found in the first text is answered with what follows it there. */
  lemma FoundHere(t: string, tail: string, key: string)
    requires Uncut(t) && Uncut(key) && Follows(tail) && After(t, key).Some?
    ensures QueryParam(t + tail, key) == UrlDecode(After(t, key).value)
  {
    hide UrlDecode, UpToAmpersand, OccursAt;
    FindHere(t, tail, key + "=");
    InRange(t, key + "=", Find(t, key + "=", 0));
    RestRead(t, tail, Find(t, key + "=", 0) + |key| + 1);
  }

  lemma ReadShift(pre: string, s: string, start: nat)
    requires start <= |s|
    ensures UpToAmpersand(pre + s, |pre| + start) == UpToAmpersand(s, start)
  {
    var end, q := Find(s, "&", start), pre + s;
    FindShift(pre, s, "&", start);
    if end == NPOS {
      assert q[|pre| + start..] == s[start..];
    } else {
      assert q[|pre| + start..|pre| + end] == s[start..end];
    }
  }

  /** A text without the key is passed over. */
  lemma NotHere(t: string, rest: string, key: string)
    requires Uncut(key) && After(t, key) == None
    ensures QueryParam(t + ("&" + rest), key) == QueryParam(rest, key)
  {
    hide UrlDecode, OccursAt, UpToAmpersand;
    FindPassed(t, '&', rest, key + "=");
    var r := Find(rest, key + "=", 0);
    if r != NPOS {
      InRange(rest, key + "=", r);
      Regroup(t, "&", rest);
      ReadShift(t + "&", rest, r + |key| + 1);
    }
  }

  /** The answer is the decoded rest of the first text that holds the key, and empty when none does. */
  lemma {:induction false} ParamOfTexts(ts: seq<string>, key: string)
    requires AllUncut(ts) && Uncut(key)
    ensures QueryParam(JoinTexts(ts), key) == Answer(FirstAfter(ts, key))
    decreases ts
  {
    hide UrlDecode, After, Uncut, QueryParam;
    if ts == [] {
      NothingFound(key);
    } else {
      assert ts[0] + [] == ts[0];
      if After(ts[0], key).Some? {
        FoundHere(ts[0], if |ts| == 1 then [] else "&" + JoinTexts(ts[1..]), key);
      } else if |ts| == 1 {
        NothingHere(ts[0], key);
      } else {
        NotHere(ts[0], JoinTexts(ts[1..]), key);
        ParamOfTexts(ts[1..], key);
      }
    }
  }

  lemma NothingFound(key: string)
    ensures QueryParam([], key) == []
  {
  }

  lemma NothingHere(t: string, key: string)
    requires After(t, key) == None
    ensures QueryParam(t, key) == []
  {
  }

  /** Every query: the answer comes from the first text between ampersands that holds `key=`, wherever in it. */
  lemma ParamOfQuery(query: string, key: string)
    requires Uncut(key)
    ensures QueryParam(query, key) == Answer(FirstAfter(SplitTexts(query), key))
  {
    hide QueryParam, Answer, FirstAfter;
    ParamOfTexts(SplitTexts(query), key);
  }

  // ---- Pairs ----

  datatype Pair = Pair(name: string, value: string)

  function PairText(p: Pair): string {
    p.name + "=" + p.value
  }

  function Texts(ps: seq<Pair>): (ts: seq<string>)
    ensures |ts| == |ps| && forall i :: 0 <= i < |ps| ==> ts[i] == PairText(ps[i])
  {
    seq(|ps|, i requires 0 <= i < |ps| => PairText(ps[i]))
  }

  /** `name=value` pairs joined by ampersands. */
  function Join(ps: seq<Pair>): string {
    JoinTexts(Texts(ps))
  }

  /** No ampersand stands for itself. */
  predicate UncutPairs(ps: seq<Pair>) {
    forall i :: 0 <= i < |ps| ==> Uncut(ps[i].name) && Uncut(ps[i].value)
  }

  lemma UncutTexts(ps: seq<Pair>)
    requires UncutPairs(ps)
    ensures AllUncut(Texts(ps))
  {
    forall i | 0 <= i < |ps| ensures Uncut(PairText(ps[i])) {
      assert Uncut(ps[i].name) && Uncut(ps[i].value);
    }
  }

  /** Where a text starts among the joined ones. */
  function Offset(ts: seq<string>, i: nat): nat
    requires i < |ts|
  {
    if i == 0 then 0 else |ts[0]| + 1 + Offset(ts[1..], i - 1)
  }

  /** A pattern at the front of one text is found there exactly when no earlier text contains it. */
  lemma {:induction false} FoundAtOwnIff(ts: seq<string>, pat: string, i: nat)
    requires i < |ts| && Uncut(pat) && pat != [] && pat <= ts[i]
    ensures Find(JoinTexts(ts), pat, 0) == Offset(ts, i) <==> forall j :: 0 <= j < i ==> !Contains(ts[j], pat)
    decreases i
  {
    hide Find, OccursAt;
    var tail := if |ts| == 1 then [] else "&" + JoinTexts(ts[1..]);
    assert JoinTexts(ts) == ts[0] + tail by {
      assert ts[0] + [] == ts[0];
    }
    if i == 0 {
      FoundAtFront(ts[0], pat);
      FindHere(ts[0], tail, pat);
    } else if Contains(ts[0], pat) {
      FindHere(ts[0], tail, pat);
      InRange(ts[0], pat, Find(ts[0], pat, 0));
    } else {
      FindPassed(ts[0], '&', JoinTexts(ts[1..]), pat);
      FoundAtOwnIff(ts[1..], pat, i - 1);
      assert (forall j :: 0 <= j < i - 1 ==> !Contains(ts[1..][j], pat)) ==>
          forall j :: 0 <= j < i ==> !Contains(ts[j], pat) by {
        assert forall j :: 0 < j < i ==> ts[j] == ts[1..][j - 1];
      }
    }
  }

  lemma FoundAtFront(s: string, pat: string)
    requires pat <= s
    ensures Contains(s, pat) && Find(s, pat, 0) == 0
  {
    assert s[0..|pat|] == pat;
  }

  lemma NameInFront(p: Pair)
    ensures p.name + "=" <= PairText(p) && PairText(p)[|p.name| + 1..] == p.value
  {
  }

  /**
   * The search for the key of a pair stops at that pair exactly when no earlier pair contains the
   * key and an equals sign, in its name or in its value.
   */
  lemma OwnPairIff(ps: seq<Pair>, i: nat)
    requires UncutPairs(ps) && i < |ps|
    ensures Find(Join(ps), ps[i].name + "=", 0) == Offset(Texts(ps), i) <==>
            forall j :: 0 <= j < i ==> !Contains(PairText(ps[j]), ps[i].name + "=")
  {
    hide Find, Contains, JoinTexts;
    NameInFront(ps[i]);
    FoundAtOwnIff(Texts(ps), ps[i].name + "=", i);
  }

  lemma {:induction false} FirstAfterAt(ts: seq<string>, key: string, i: nat)
    requires i < |ts| && After(ts[i], key).Some?
    requires forall j :: 0 <= j < i ==> After(ts[j], key) == None
    ensures FirstAfter(ts, key) == After(ts[i], key)
  {
    hide After;
    if i > 0 {
      FirstAfterAt(ts[1..], key, i - 1);
    }
  }

  /** A pair that no earlier one forestalls is answered with its own value. */
  lemma OwnAnswer(ps: seq<Pair>, i: nat)
    requires UncutPairs(ps) && i < |ps|
    requires forall j :: 0 <= j < i ==> !Contains(PairText(ps[j]), ps[i].name + "=")
    ensures QueryParam(Join(ps), ps[i].name) == UrlDecode(ps[i].value)
  {
    hide UrlDecode, QueryParam, JoinTexts, FirstAfter, Find;
    var key := ps[i].name;
    UncutTexts(ps);
    ParamOfTexts(Texts(ps), key);
    NameInFront(ps[i]);
    FoundAtFront(PairText(ps[i]), key + "=");
    forall j | 0 <= j < i ensures After(Texts(ps)[j], key) == None {
      assert !Contains(PairText(ps[j]), key + "=");
    }
    FirstAfterAt(Texts(ps), key, i);
  }

  /** When no earlier pair contains the key and an equals sign, the text form-encoded under the key comes back. */
  lemma ParamRoundTrip(ps: seq<Pair>, i: nat, text: string)
    requires UncutPairs(ps) && i < |ps| && FormEncodes(ps[i].value, text)
    requires forall j :: 0 <= j < i ==> !Contains(PairText(ps[j]), ps[i].name + "=")
    ensures QueryParam(Join(ps), ps[i].name) == text
  {
    hide PairText, Contains;
    OwnAnswer(ps, i);
    DecodeInverts(ps[i].value, text);
  }

  /** With a value percent-encoded, the text comes back exactly when the value keeps no plus sign as itself. */
  lemma PercentParamIff(ps: seq<Pair>, i: nat, text: string)
    requires UncutPairs(ps) && i < |ps| && PercentEncodes(ps[i].value, text)
    requires forall j :: 0 <= j < i ==> !Contains(PairText(ps[j]), ps[i].name + "=")
    ensures QueryParam(Join(ps), ps[i].name) == text <==> '+' !in ps[i].value
  {
    hide PercentEncodes, UrlDecode, QueryParam, Join, PairText, Contains;
    OwnAnswer(ps, i);
    PercentDecodesIff(ps[i].value, text);
  }

  // ---- Where in a pair a key is found ----

  predicate EndsWith(name: string, key: string) {
    |key| <= |name| && name[|name| - |key|..] == key
  }

  lemma SameStart(s: string, key: string)
    ensures s + "=" == key + "=" <==> s == key
  {
    if s + "=" == key + "=" {
      assert s == (s + "=")[..|s|] == (key + "=")[..|key|] == key;
    }
  }

  lemma NotAcross(pair: Pair, key: string, p: nat)
    requires '=' !in pair.name && '=' !in key
    requires p <= |pair.name| && p + |key| != |pair.name|
    ensures !OccursAt(PairText(pair), key + "=", p)
  {
    var t, pat, sep := PairText(pair), key + "=", |pair.name|;
    if p + |key| < sep {
      assert t[p + |key|] == pair.name[p + |key|] && pat[|key|] == '=';
      Mismatch(t, pat, p, |key|);
    } else {
      assert t[sep] == '=' && pat[sep - p] == key[sep - p];
      Mismatch(t, pat, p, sep - p);
    }
  }

  lemma AtNameEnd(pair: Pair, key: string)
    requires |key| <= |pair.name|
    ensures OccursAt(PairText(pair), key + "=", |pair.name| - |key|) <==> EndsWith(pair.name, key)
  {
    var t, p := PairText(pair), |pair.name| - |key|;
    assert t[p..|pair.name| + 1] == pair.name[p..] + "=";
    SameStart(pair.name[p..], key);
  }

  lemma EndsInside(name: string, key: string)
    ensures EndsWith(name, key) ==> |key| <= |name|
  {
  }

  lemma KnownText(pair: Pair)
    ensures PairText(pair) == (pair.name + "=") + pair.value
  {
  }

  lemma NotBefore(s: string, pat: string, i: int)
    requires i < 0
    ensures !OccursAt(s, pat, i)
  {
  }

  /** A key is found at the end of the pair's name, and wherever the value holds it; nowhere else. */
  lemma KeyPlaces(pair: Pair, key: string, p: int)
    requires '=' !in pair.name && '=' !in key
    ensures var sep := |pair.name|;
            OccursAt(PairText(pair), key + "=", p) <==>
            (EndsWith(pair.name, key) && p == sep - |key|) ||
            (p > sep && OccursAt(pair.value, key + "=", p - sep - 1))
  {
    hide OccursAt, PairText;
    var pat, sep := key + "=", |pair.name|;
    if p < 0 {
      NotBefore(PairText(pair), pat, p);
      EndsInside(pair.name, key);
    } else if p > sep {
      KnownText(pair);
      OccursShift(pair.name + "=", pair.value, pat, p - sep - 1);
    } else if p + |key| == sep {
      AtNameEnd(pair, key);
    } else {
      NotAcross(pair, key, p);
    }
  }

  /** What a pair answers for a key: its value when the name ends with the key, else what follows it in the value. */
  function AfterInPair(pair: Pair, key: string): Option<string> {
    if EndsWith(pair.name, key) then Some(pair.value) else After(pair.value, key)
  }

  lemma PairAfter(pair: Pair, key: string)
    requires '=' !in pair.name && '=' !in key
    ensures After(PairText(pair), key) == AfterInPair(pair, key)
  {
    hide OccursAt, EndsWith, PairText;
    var t, pat, sep := PairText(pair), key + "=", |pair.name|;
    forall p: int
      ensures OccursAt(t, pat, p) <==> (EndsWith(pair.name, key) && p == sep - |key|) ||
                                       (p > sep && OccursAt(pair.value, pat, p - sep - 1))
    {
      KeyPlaces(pair, key, p);
    }
    NameInFront(pair);
    if EndsWith(pair.name, key) {
      EndsInside(pair.name, key);
      FindIs(t, pat, 0, sep - |key|);
    } else {
      assert t == (pair.name + "=") + pair.value by {
        KnownText(pair);
      }
      var r := Find(pair.value, pat, 0);
      if r == NPOS {
        assert Find(t, pat, 0) == NPOS;
      } else {
        forall k | 0 <= k < sep + 1 + r ensures !OccursAt(t, pat, k) {
          assert k > sep ==> !OccursAt(pair.value, pat, k - sep - 1);
        }
        assert OccursAt(t, pat, sep + 1 + r);
        FindIs(t, pat, 0, sep + 1 + r);
        InRange(pair.value, pat, r);
        assert t[sep + 1 + r + |pat|..] == pair.value[r + |pat|..];
      }
    }
  }

  /** What the first pair that holds the key answers. */
  function FirstInPairs(ps: seq<Pair>, key: string): Option<string> {
    if ps == [] then None
    else if AfterInPair(ps[0], key).Some? then AfterInPair(ps[0], key)
    else FirstInPairs(ps[1..], key)
  }

  predicate Plain(s: string) {
    '&' !in s && '=' !in s
  }

  /** Pairs as a query has them: an equals sign may stand for itself in a value. */
  predicate QueryPairs(ps: seq<Pair>) {
    forall i :: 0 <= i < |ps| ==> Plain(ps[i].name) && Uncut(ps[i].value)
  }

  lemma {:induction false} FirstInTexts(ps: seq<Pair>, key: string)
    requires QueryPairs(ps) && Plain(key)
    ensures FirstAfter(Texts(ps), key) == FirstInPairs(ps, key)
    decreases ps
  {
    hide After, AfterInPair, PairText;
    if ps != [] {
      assert Plain(ps[0].name);
      PairAfter(ps[0], key);
      assert Texts(ps)[1..] == Texts(ps[1..]);
      FirstInTexts(ps[1..], key);
    }
  }

  /**
   * The answer comes from the first pair whose name ends with the key or whose value contains the
   * key and an equals sign: the decoded value, or the decoded rest of the value.
   */
  lemma ParamOfPairs(ps: seq<Pair>, key: string)
    requires QueryPairs(ps) && Plain(key)
    ensures QueryParam(Join(ps), key) == Answer(FirstInPairs(ps, key))
  {
    hide QueryParam, Answer, FirstAfter, FirstInPairs;
    UncutTexts(ps);
    ParamOfTexts(Texts(ps), key);
    FirstInTexts(ps, key);
  }

  lemma FromInside()
    ensures After("from=1", "from") == Some("1")
  {
    assert "from=1"[0..5] == "from" + "=" && "from=1"[5..] == "1";
    FindIs("from=1", "from" + "=", 0, 0);
  }

  lemma {:induction false} LiteralsEncode(s: string)
    requires '%' !in s
    ensures PercentEncodes(s, s)
  {
    if s != [] {
      assert s[0] in s;
      LiteralsEncode(s[1..]);
    }
  }

  lemma FirstPairAnswers(p: Pair, ps: seq<Pair>, key: string)
    requires QueryPairs([p] + ps) && Plain(key) && AfterInPair(p, key).Some?
    ensures QueryParam(Join([p] + ps), key) == UrlDecode(AfterInPair(p, key).value)
  {
    hide QueryParam, AfterInPair, Join;
    ParamOfPairs([p] + ps, key);
  }

  lemma JoinTwo(p: Pair, q: Pair)
    ensures Join([p]) == PairText(p)
    ensures Join([p, q]) == PairText(p) + ("&" + PairText(q))
  {
    hide PairText;
    var ts := Texts([p, q]);
    assert Texts([p]) == [PairText(p)] && ts == [PairText(p), PairText(q)] && ts[1..] == [PairText(q)];
    assert JoinTexts(ts) == ts[0] + ("&" + JoinTexts(ts[1..])) && JoinTexts([PairText(q)]) == PairText(q);
  }

  lemma Spelled()
    ensures Join([Pair("q", "from=1")]) == "q=from=1"
    ensures Join([Pair("q", "from=1"), Pair("from", "2")]) == "q=from=1&from=2"
  {
    hide Join;
    JoinTwo(Pair("q", "from=1"), Pair("from", "2"));
    assert PairText(Pair("q", "from=1")) == "q=from=1" && PairText(Pair("from", "2")) == "from=2";
  }

  /** A value that contains the key and an equals sign takes the place of the pair, or of a key that is absent. */
  lemma ValueTakesPlace()
    ensures PercentEncodes("from=1", "from=1") && !EndsWith("q", "from")
    ensures QueryParam("q=from=1&from=2", "from") == "1" && QueryParam("q=from=1", "from") == "1"
  {
    hide QueryParam, Join, After, PercentEncodes, UrlDecode;
    var p, q := Pair("q", "from=1"), Pair("from", "2");
    LiteralsEncode("from=1");
    FromInside();
    Spelled();
    assert [p] + [q] == [p, q] && [p] + [] == [p];
    FirstPairAnswers(p, [q], "from");
    FirstPairAnswers(p, [], "from");
    LiteralDecodes("1");
    assert "1"[1..] == "";
    DecodeEmpty();
  }

  // ---- Values without an equals sign ----

  predicate PlainPairs(ps: seq<Pair>) {
    forall i :: 0 <= i < |ps| ==> Plain(ps[i].name) && Plain(ps[i].value)
  }

  /** The value of the first pair whose name ends with the key. */
  function FirstEnding(ps: seq<Pair>, key: string): Option<string> {
    if ps == [] then None
    else if EndsWith(ps[0].name, key) then Some(ps[0].value)
    else FirstEnding(ps[1..], key)
  }

  /** A key can only be found at the end of a name. */
  lemma OnlyAtNameEnd(pair: Pair, key: string, p: int)
    requires Plain(pair.name) && Plain(pair.value) && Plain(key)
    ensures OccursAt(PairText(pair), key + "=", p) <==>
            EndsWith(pair.name, key) && p == |pair.name| - |key|
  {
    KeyPlaces(pair, key, p);
    NoKeyInside(pair.value, key, p - |pair.name| - 1);
  }

  lemma NoKeyInside(value: string, key: string, p: int)
    requires '=' !in value
    ensures !OccursAt(value, key + "=", p)
  {
    if OccursAt(value, key + "=", p) {
      OccursChar(value, key + "=", p, |key|);
    }
  }

  lemma {:induction false} FirstIsEnding(ps: seq<Pair>, key: string)
    requires PlainPairs(ps)
    ensures FirstInPairs(ps, key) == FirstEnding(ps, key)
  {
    hide OccursAt, EndsWith;
    if ps != [] {
      assert Plain(ps[0].value);
      NoKeyInside(ps[0].value, key, Find(ps[0].value, key + "=", 0));
      FirstIsEnding(ps[1..], key);
    }
  }

  /**
   * When no value holds an equals sign, the answer is the decoded value of the first pair whose name
   * ends with the key, and the empty text when there is none.
   */
  lemma PlainParam(ps: seq<Pair>, key: string)
    requires PlainPairs(ps) && Plain(key)
    ensures QueryParam(Join(ps), key) == Answer(FirstEnding(ps, key))
  {
    hide QueryParam, Answer, FirstInPairs, FirstEnding, Join;
    assert QueryPairs(ps);
    ParamOfPairs(ps, key);
    FirstIsEnding(ps, key);
  }

  lemma {:induction false} FirstEndingAt(ps: seq<Pair>, key: string, i: nat)
    requires i < |ps| && EndsWith(ps[i].name, key)
    requires forall j :: 0 <= j < i ==> !EndsWith(ps[j].name, key)
    ensures FirstEnding(ps, key) == Some(ps[i].value)
  {
    if i > 0 {
      assert !EndsWith(ps[0].name, key);
      FirstEndingAt(ps[1..], key, i - 1);
    }
  }

  /** With such values the text form-encoded under a key comes back when no earlier name ends with the key. */
  lemma PlainRoundTrip(ps: seq<Pair>, i: nat, text: string)
    requires PlainPairs(ps) && i < |ps| && FormEncodes(ps[i].value, text)
    requires forall j :: 0 <= j < i ==> !EndsWith(ps[j].name, ps[i].name)
    ensures QueryParam(Join(ps), ps[i].name) == text
  {
    hide QueryParam, UrlDecode, Join;
    PlainParam(ps, ps[i].name);
    FirstEndingAt(ps, ps[i].name, i);
    DecodeInverts(ps[i].value, text);
  }

  /** And a text percent-encoded under it comes back exactly when the value keeps no plus sign as itself. */
  lemma PlainPercentIff(ps: seq<Pair>, i: nat, text: string)
    requires PlainPairs(ps) && i < |ps| && PercentEncodes(ps[i].value, text)
    requires forall j :: 0 <= j < i ==> !EndsWith(ps[j].name, ps[i].name)
    ensures QueryParam(Join(ps), ps[i].name) == text <==> '+' !in ps[i].value
  {
    hide PercentEncodes, UrlDecode, QueryParam, Join;
    PlainParam(ps, ps[i].name);
    FirstEndingAt(ps, ps[i].name, i);
    PercentDecodesIff(ps[i].value, text);
  }

  /** For one: an earlier name that only ends with the key takes its place. */
  lemma LongerNameWins(v: string, w: string)
    requires Plain(v) && Plain(w)
    ensures QueryParam(Join([Pair("surfrom", v), Pair("from", w)]), "from") == UrlDecode(v)
  {
    hide QueryParam, Join, UrlDecode;
    var ps := [Pair("surfrom", v), Pair("from", w)];
    assert "surfrom"[3..] == "from";
    PlainParam(ps, "from");
    FirstEndingAt(ps, "from", 0);
  }

  // ---- When a key can be trusted ----

  function Pairs(names: seq<string>, values: seq<string>): (ps: seq<Pair>)
    requires |names| == |values|
    ensures |ps| == |names|
  {
    seq(|names|, i requires 0 <= i < |names| => Pair(names[i], values[i]))
  }

  predicate AllPlain(ss: seq<string>) {
    forall i :: 0 <= i < |ss| ==> Plain(ss[i])
  }

  /** Whatever is sent under these names, the key of pair `i` is answered with its own value. */
  ghost predicate AlwaysRight(names: seq<string>, i: nat)
    requires i < |names|
  {
    forall values: seq<string> :: |values| == |names| && AllUncut(values) ==>
      QueryParam(Join(Pairs(names, values)), names[i]) == UrlDecode(values[i])
  }

  /** Whatever is sent under these names, the key is answered with the empty text. */
  ghost predicate AlwaysEmpty(names: seq<string>, key: string) {
    forall values: seq<string> :: |values| == |names| && AllUncut(values) ==>
      QueryParam(Join(Pairs(names, values)), key) == ""
  }

  /** The key inside the first value, and nothing under the other names. */
  function Planted(n: nat, key: string): (values: seq<string>)
    requires Uncut(key)
    ensures |values| == n && AllUncut(values)
  {
    seq(n, k => if k == 0 then key + "=x" else "")
  }

  /** A planted key is answered from the first value, or from what stands before it there. */
  lemma PlantedAnswers(names: seq<string>, key: string)
    requires names != [] && AllUncut(names) && Uncut(key)
    ensures QueryParam(Join(Pairs(names, Planted(|names|, key))), key) != ""
  {
    hide QueryParam, UrlDecode, OccursAt, JoinTexts, Uncut;
    var ps := Pairs(names, Planted(|names|, key));
    assert UncutPairs(ps);
    UncutTexts(ps);
    ParamOfTexts(Texts(ps), key);
    KeyPlanted(names[0], key);
    DecodeSome(After(PairText(ps[0]), key).value);
  }

  lemma KeyPlanted(name: string, key: string)
    ensures var rest := After(PairText(Pair(name, key + "=x")), key);
            rest.Some? && rest.value != ""
  {
    var t, pat := PairText(Pair(name, key + "=x")), key + "=";
    OccursMid(name + "=", pat, "x");
    assert t == name + "=" + pat + "x";
    assert OccursAt(t, pat, |name| + 1);
  }

  lemma DecodeSome(s: string)
    requires s != ""
    ensures UrlDecode(s) != ""
  {
  }

  /** A key is answered with its own value, whatever the values, exactly when its pair is the first. */
  lemma AlwaysRightIff(names: seq<string>, i: nat)
    requires i < |names| && AllUncut(names)
    ensures AlwaysRight(names, i) <==> i == 0
  {
    hide UrlDecode, QueryParam, Join, Uncut;
    if i == 0 {
      forall values: seq<string> | |values| == |names| && AllUncut(values)
        ensures QueryParam(Join(Pairs(names, values)), names[i]) == UrlDecode(values[i])
      {
        OwnAnswer(Pairs(names, values), 0);
      }
    } else {
      var values := Planted(|names|, names[i]);
      PlantedAnswers(names, names[i]);
      DecodeEmpty();
      assert values[i] == "";
    }
  }

  /** A key is taken to be absent, whatever the values, exactly when the query has no pairs. */
  lemma AlwaysEmptyIff(names: seq<string>, key: string)
    requires AllUncut(names) && Uncut(key)
    ensures AlwaysEmpty(names, key) <==> names == []
  {
    hide UrlDecode, QueryParam, Uncut;
    if names == [] {
      NothingFound(key);
    } else {
      PlantedAnswers(names, key);
    }
  }

  /** Whatever values without an equals sign are sent under these names, pair `i` gets its own value. */
  ghost predicate PlainRight(names: seq<string>, i: nat)
    requires i < |names|
  {
    forall values: seq<string> :: |values| == |names| && AllPlain(values) ==>
      QueryParam(Join(Pairs(names, values)), names[i]) == UrlDecode(values[i])
  }

  /** The first name that ends with a key. */
  lemma {:induction false} FirstOf(names: seq<string>, key: string, n: nat) returns (j: nat)
    requires n <= |names| && exists k :: 0 <= k < n && EndsWith(names[k], key)
    ensures j < n && EndsWith(names[j], key) && forall k :: 0 <= k < j ==> !EndsWith(names[k], key)
    decreases n
  {
    if exists k :: 0 <= k < n - 1 && EndsWith(names[k], key) {
      j := FirstOf(names, key, n - 1);
    } else {
      j := n - 1;
    }
  }

  lemma AnswerOfFirst(names: seq<string>, values: seq<string>, key: string, j: nat)
    requires |names| == |values| && AllPlain(names) && AllPlain(values) && Plain(key)
    requires j < |names| && EndsWith(names[j], key) && forall k :: 0 <= k < j ==> !EndsWith(names[k], key)
    ensures QueryParam(Join(Pairs(names, values)), key) == UrlDecode(values[j])
  {
    hide Plain, UrlDecode, QueryParam, EndsWith, Join;
    var ps := Pairs(names, values);
    PlainParam(ps, key);
    FirstEndingAt(ps, key, j);
  }

  /** An `x` under one name and nothing under the others. */
  function Marked(n: nat, j: nat): (values: seq<string>)
    ensures |values| == n && AllPlain(values)
  {
    seq(n, k => if k == j then "x" else "")
  }

  /** With such values, and only with them, it is enough that no earlier name ends with the key. */
  lemma PlainRightIff(names: seq<string>, i: nat)
    requires i < |names| && AllPlain(names)
    ensures PlainRight(names, i) <==> forall j :: 0 <= j < i ==> !EndsWith(names[j], names[i])
  {
    hide UrlDecode, QueryParam, Join, Pairs, Plain;
    assert EndsWith(names[i], names[i]);
    var j := FirstOf(names, names[i], i + 1);
    if j == i {
      forall values: seq<string> | |values| == |names| && AllPlain(values)
        ensures QueryParam(Join(Pairs(names, values)), names[i]) == UrlDecode(values[i])
      {
        AnswerOfFirst(names, values, names[i], i);
      }
    } else {
      var values := Marked(|names|, j);
      AnswerOfFirst(names, values, names[i], j);
      DecodeMarks();
      assert UrlDecode(values[j]) != UrlDecode(values[i]);
    }
  }

  lemma {:induction false} NoneEnding(ps: seq<Pair>, key: string)
    requires forall j :: 0 <= j < |ps| ==> !EndsWith(ps[j].name, key)
    ensures FirstEnding(ps, key) == None
  {
    if ps != [] {
      assert !EndsWith(ps[0].name, key);
      NoneEnding(ps[1..], key);
    }
  }

  /** Whatever values without an equals sign are sent under these names, the key is answered with the empty text. */
  ghost predicate PlainEmpty(names: seq<string>, key: string) {
    forall values: seq<string> :: |values| == |names| && AllPlain(values) ==>
      QueryParam(Join(Pairs(names, values)), key) == ""
  }

  /** With such values a key is taken to be absent exactly when no name ends with it. */
  lemma PlainEmptyIff(names: seq<string>, key: string)
    requires AllPlain(names) && Plain(key)
    ensures PlainEmpty(names, key) <==> forall j :: 0 <= j < |names| ==> !EndsWith(names[j], key)
  {
    hide UrlDecode, QueryParam, Join, Plain, EndsWith;
    if exists k :: 0 <= k < |names| && EndsWith(names[k], key) {
      var j := FirstOf(names, key, |names|);
      AnswerOfFirst(names, Marked(|names|, j), key, j);
      DecodeMarks();
    } else {
      forall values: seq<string> | |values| == |names| && AllPlain(values)
        ensures QueryParam(Join(Pairs(names, values)), key) == ""
      {
        PlainParam(Pairs(names, values), key);
        NoneEnding(Pairs(names, values), key);
      }
    }
  }

  lemma DecodeMarks()
    ensures UrlDecode("x") == "x" && UrlDecode("") == ""
  {
    assert "x"[1..] == "";
  }
}
