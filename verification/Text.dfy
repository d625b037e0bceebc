// Searching in strings, as std::string does it.

module Text {
  import opened Options
  import opened Sequences

  /** The result of a search that finds nothing. */
  const NPOS := -1

  predicate OccursAt(s: string, pat: string, i: int) {
    0 <= i && i + |pat| <= |s| && s[i..i + |pat|] == pat
  }

  /** The first occurrence of `pat` at or after `from`. */
  function Find(s: string, pat: string, from: nat): (r: int)
    ensures r == NPOS || (from <= r && OccursAt(s, pat, r))
    ensures forall i :: from <= i && (r == NPOS || i < r) ==> !OccursAt(s, pat, i)
    decreases |s| - from
  {
    if from + |pat| > |s| then NPOS
    else if s[from..from + |pat|] == pat then from
    else Find(s, pat, from + 1)
  }

  predicate Contains(s: string, pat: string) {
    Find(s, pat, 0) != NPOS
  }

  lemma ContainsOccurrence(s: string, pat: string, i: int)
    requires OccursAt(s, pat, i)
    ensures Contains(s, pat)
  {
  }

  /** An occurrence with none before it is the one found. */
  lemma FindIs(s: string, pat: string, from: nat, i: nat)
    requires from <= i && OccursAt(s, pat, i)
    requires forall k :: from <= k < i ==> !OccursAt(s, pat, k)
    ensures Find(s, pat, from) == i
  {
  }

  lemma OccursChar(s: string, pat: string, i: int, j: nat)
    requires OccursAt(s, pat, i) && j < |pat|
    ensures s[i + j] == pat[j]
  {
    assert s[i..i + |pat|][j] == pat[j];
  }

  /** A wrong character rules an occurrence out. */
  lemma Mismatch(s: string, pat: string, i: int, j: nat)
    requires j < |pat| && 0 <= i && i + j < |s| && s[i + j] != pat[j]
    ensures !OccursAt(s, pat, i)
  {
    if OccursAt(s, pat, i) {
      OccursChar(s, pat, i, j);
    }
  }

  /** An occurrence that lies inside the middle part of a text is an occurrence in that part. */
  lemma OccursInside(pre: string, mid: string, post: string, pat: string, i: int)
    requires OccursAt(pre + mid + post, pat, i)
    requires |pre| <= i && i + |pat| <= |pre| + |mid|
    ensures OccursAt(mid, pat, i - |pre|)
  {
    var s := pre + mid + post;
    assert mid[i - |pre|..i - |pre| + |pat|] == s[i..i + |pat|];
  }

  lemma OccursMid(pre: string, pat: string, post: string)
    ensures OccursAt(pre + pat + post, pat, |pre|)
  {
    assert (pre + pat + post)[|pre|..|pre| + |pat|] == pat;
  }

  /** A pattern that follows a middle part and does not occur in it earlier is found there. */
  lemma FindAfter(pre: string, mid: string, pat: string, post: string)
    requires forall i :: |pre| <= i < |pre| + |mid| ==> !OccursAt(pre + mid + (pat + post), pat, i)
    ensures Find(pre + mid + (pat + post), pat, |pre|) == |pre| + |mid|
  {
    hide OccursAt, Find;
    OccursMid(pre + mid, pat, post);
    Regroup(pre + mid, pat, post);
    FindIs(pre + mid + (pat + post), pat, |pre|, |pre| + |mid|);
  }

  lemma OccursShift(pre: string, s: string, pat: string, i: nat)
    ensures OccursAt(pre + s, pat, |pre| + i) <==> OccursAt(s, pat, i)
  {
    if i + |pat| <= |s| {
      assert (pre + s)[|pre| + i..|pre| + i + |pat|] == s[i..i + |pat|];
    }
  }

  lemma FindShift(pre: string, s: string, pat: string, from: nat)
    ensures var r := Find(s, pat, from);
            Find(pre + s, pat, |pre| + from) == if r == NPOS then NPOS else |pre| + r
  {
    hide OccursAt;
    forall i: nat ensures OccursAt(pre + s, pat, |pre| + i) <==> OccursAt(s, pat, i) {
      OccursShift(pre, s, pat, i);
    }
    var r, shifted := Find(s, pat, from), Find(pre + s, pat, |pre| + from);
    if shifted != NPOS {
      assert OccursAt(s, pat, shifted - |pre|);
    }
    if r != NPOS {
      forall k | |pre| + from <= k < |pre| + r ensures !OccursAt(pre + s, pat, k) {
        assert !OccursAt(s, pat, k - |pre|);
      }
      FindIs(pre + s, pat, |pre| + from, |pre| + r);
    }
  }

  lemma InRange(s: string, pat: string, i: int)
    requires OccursAt(s, pat, i)
    ensures 0 <= i && i + |pat| <= |s|
  {
  }

  /** A search may start anywhere before the first occurrence. */
  lemma {:induction false} SearchFurther(s: string, pat: string, from: nat, to: nat)
    requires from <= to <= |s| && pat != []
    requires forall p :: from <= p < to ==> !OccursAt(s, pat, p)
    ensures Find(s, pat, from) == Find(s, pat, to)
    decreases |s| - from
  {
    if from < to && from + |pat| <= |s| {
      assert !OccursAt(s, pat, from);
      SearchFurther(s, pat, from + 1, to);
    }
  }

  /** A pattern is found in a text, or at its end, only inside the text when what follows cannot go on with it. */
  lemma OccursWithin(t: string, tail: string, pat: string, p: nat)
    requires pat != [] && (tail == [] || tail[0] !in pat) && p <= |t|
    ensures OccursAt(t + tail, pat, p) <==> OccursAt(t, pat, p)
  {
    if p + |pat| <= |t| {
      assert (t + tail)[p..p + |pat|] == t[p..p + |pat|];
    } else if tail != [] {
      assert (t + tail)[|t|] == tail[0] && pat[|t| - p] in pat;
      Mismatch(t + tail, pat, p, |t| - p);
    }
  }

  lemma FindHere(t: string, tail: string, pat: string)
    requires pat != [] && (tail == [] || tail[0] !in pat) && Contains(t, pat)
    ensures Find(t + tail, pat, 0) == Find(t, pat, 0)
  {
    hide OccursAt;
    var pos := Find(t, pat, 0);
    InRange(t, pat, pos);
    forall p: nat | p <= pos ensures OccursAt(t + tail, pat, p) <==> p == pos {
      OccursWithin(t, tail, pat, p);
    }
    FindIs(t + tail, pat, 0, pos);
  }

  /** A search passes over a text without the pattern and over a character that is not in it. */
  lemma FindPassed(t: string, c: char, rest: string, pat: string)
    requires c !in pat && pat != [] && !Contains(t, pat)
    ensures var r := Find(rest, pat, 0);
            Find(t + ([c] + rest), pat, 0) == if r == NPOS then NPOS else |t| + 1 + r
  {
    hide OccursAt;
    var q := t + ([c] + rest);
    forall p | 0 <= p < |t| + 1 ensures !OccursAt(q, pat, p) {
      OccursWithin(t, [c] + rest, pat, p);
    }
    SearchFurther(q, pat, 0, |t| + 1);
    Regroup(t, [c], rest);
    FindShift(t + [c], rest, pat, 0);
  }

  /** What follows the first occurrence of a pattern. */
  function Behind(t: string, pat: string): Option<string> {
    var pos := Find(t, pat, 0);
    if pos == NPOS then None else Some(t[pos + |pat|..])
  }

  /** The position of the last `c`. */
  function FindLast(s: string, c: char): (r: int)
    ensures r == NPOS ==> c !in s
    ensures r != NPOS ==> 0 <= r < |s| && s[r] == c && forall k :: r < k < |s| ==> s[k] != c
  {
    if s == [] then NPOS
    else if s[|s| - 1] == c then |s| - 1
    else FindLast(s[..|s| - 1], c)
  }

  /** The value of a hexadecimal digit. */
  function HexValue(c: char): Option<nat> {
    if '0' <= c <= '9' then Some(c as int - '0' as int)
    else if 'a' <= c <= 'f' then Some(c as int - 'a' as int + 10)
    else if 'A' <= c <= 'F' then Some(c as int - 'A' as int + 10)
    else None
  }

  /** A number in decimal. */
  function Decimal(n: nat): (s: string)
    ensures s != []
    ensures forall c :: c in s ==> '0' <= c <= '9'
  {
    var digit := [('0' as int + n % 10) as char];
    if n < 10 then digit else Decimal(n / 10) + digit
  }

  lemma {:induction false} DecimalInjective(m: nat, n: nat)
    requires Decimal(m) == Decimal(n)
    ensures m == n
    decreases m
  {
    var s, t := Decimal(m), Decimal(n);
    assert s[|s| - 1] == t[|t| - 1];
    assert (m >= 10 <==> |s| > 1) && (n >= 10 <==> |t| > 1);
    if m >= 10 {
      assert s[..|s| - 1] == Decimal(m / 10) && t[..|t| - 1] == Decimal(n / 10);
      DecimalInjective(m / 10, n / 10);
    }
  }

  /** The number that decimal digits denote. */
  function ReadDecimal(s: string): int {
    if s == [] then 0 else 10 * ReadDecimal(s[..|s| - 1]) + (s[|s| - 1] as int - '0' as int)
  }

  lemma {:induction false} DecimalReads(n: nat)
    ensures ReadDecimal(Decimal(n)) == n
    decreases n
  {
    var s := Decimal(n);
    if n < 10 {
      assert s[..0] == [];
    } else {
      DecimalReads(n / 10);
      assert s[..|s| - 1] == Decimal(n / 10);
    }
  }

  const LOWER := "0123456789abcdef"
  const UPPER := "0123456789ABCDEF"

  /** The digits are these, and no other character has a value. */
  lemma HexDigits(c: char, k: nat)
    requires k < 16
    ensures HexValue(LOWER[k]) == HexValue(UPPER[k]) == Some(k)
    ensures HexValue(c).Some? <==> c in LOWER || c in UPPER
  {
    if HexValue(c).Some? {
      assert c == LOWER[HexValue(c).value] || c == UPPER[HexValue(c).value];
    }
  }

  // ---- Lines, as std::getline reads them ----

  /** The lines of a text; `started` is the line being read. A last line need not end in a break. */
  function Lines(s: string, started: string): seq<string>
    decreases s
  {
    if s == [] then (if started == [] then [] else [started])
    else if s[0] == '\n' then [started] + Lines(s[1..], [])
    else Lines(s[1..], started + [s[0]])
  }

  /** A printed line is read back as it was. */
  lemma {:induction false} LinesFirst(started: string, line: string, rest: string)
    requires '\n' !in line
    ensures Lines(line + "\n" + rest, started) == [started + line] + Lines(rest, [])
    decreases line
  {
    var s := line + "\n" + rest;
    if line == [] {
      assert s[0] == '\n' && s[1..] == rest && started + line == started;
    } else {
      assert s[0] == line[0] && s[1..] == line[1..] + "\n" + rest;
      LinesFirst(started + [line[0]], line[1..], rest);
      assert started + [line[0]] + line[1..] == started + line;
    }
  }

  /** Lines printed one after another, each with its break. */
  function PrintLines(lines: seq<string>): string {
    if lines == [] then [] else lines[0] + "\n" + PrintLines(lines[1..])
  }

  lemma {:induction false} LinesRoundTrip(lines: seq<string>)
    requires forall i :: 0 <= i < |lines| ==> '\n' !in lines[i]
    ensures Lines(PrintLines(lines), []) == lines
    decreases lines
  {
    if lines != [] {
      LinesRoundTrip(lines[1..]);
      LinesFirst([], lines[0], PrintLines(lines[1..]));
      assert [] + lines[0] == lines[0];
      assert lines == [lines[0]] + lines[1..];
    }
  }

  /** The line reader. */
  method ReadLines(s: string) returns (lines: seq<string>)
    ensures lines == Lines(s, [])
  {
    lines := [];
    var line: string := [];
    for i := 0 to |s|
      invariant lines + Lines(s[i..], line) == Lines(s, [])
    {
      assert s[i..][1..] == s[i + 1..];
      if s[i] == '\n' {
        lines := lines + [line];
        line := [];
      } else {
        line := line + [s[i]];
      }
    }
    if line != [] {
      lines := lines + [line];
    }
  }

  // ---- Trimming ----

  function TrimLeft(s: string, drop: string): (r: string)
    ensures r == [] || r[0] !in drop
  {
    if s != [] && s[0] in drop then TrimLeft(s[1..], drop) else s
  }

  function TrimRight(s: string, drop: string): (r: string)
    ensures r == [] || r[|r| - 1] !in drop
  {
    if s != [] && s[|s| - 1] in drop then TrimRight(s[..|s| - 1], drop) else s
  }

  predicate Trimmed(s: string, drop: string) {
    s == [] || (s[0] !in drop && s[|s| - 1] !in drop)
  }

  predicate AllIn(s: string, drop: string) {
    forall c :: c in s ==> c in drop
  }

  lemma {:induction false} TrimLeftOf(pad: string, s: string, drop: string)
    requires AllIn(pad, drop) && (s == [] || s[0] !in drop)
    ensures TrimLeft(pad + s, drop) == s
    decreases pad
  {
    if pad == [] {
      assert pad + s == s;
    } else {
      assert (pad + s)[1..] == pad[1..] + s && pad[0] in pad;
      TrimLeftOf(pad[1..], s, drop);
    }
  }

  lemma {:induction false} TrimRightOf(s: string, pad: string, drop: string)
    requires AllIn(pad, drop) && (s == [] || s[|s| - 1] !in drop)
    ensures TrimRight(s + pad, drop) == s
    decreases pad
  {
    if pad == [] {
      assert s + pad == s;
    } else {
      assert (s + pad)[..|s + pad| - 1] == s + pad[..|pad| - 1] && pad[|pad| - 1] in pad;
      TrimRightOf(s, pad[..|pad| - 1], drop);
    }
  }
}
