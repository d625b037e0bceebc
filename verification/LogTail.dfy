// The log file: how entries are written, how a line is parsed, and which
// entries the bounded tail returns.

module LogTail {
  import opened Text

  datatype LogLine = LogLine(timestamp: string, level: string, message: string)

  // ---- Writing and parsing a line ----

  function Render(e: LogLine): string {
    "[" + e.timestamp + "] [" + e.level + "] " + e.message
  }

  /** The three fields of a line; a line of another shape keeps what was found of them. */
  function ParseLine(line: string): LogLine {
    if line == [] || line[0] != '[' then LogLine("", "", line)
    else
      var tsEnd := Find(line, "]", 0);
      if tsEnd == NPOS then LogLine("", "", line)
      else
        var timestamp := line[1..tsEnd];
        var lvStart := Find(line, "[", tsEnd + 1);
        if lvStart == NPOS then LogLine(timestamp, "", line)
        else
          var lvEnd := Find(line, "]", lvStart + 1);
          if lvEnd == NPOS then LogLine(timestamp, "", line)
          else LogLine(timestamp, line[lvStart + 1..lvEnd], if lvEnd + 2 < |line| then line[lvEnd + 2..] else "")
  }

  /** Brackets are closed only by the format itself, and an entry takes one line. */
  predicate Good(e: LogLine) {
    && ']' !in e.timestamp && ']' !in e.level
    && '\n' !in e.timestamp && '\n' !in e.level && '\n' !in e.message
  }

  lemma FindChar(s: string, c: char, from: nat, n: nat)
    requires from <= n < |s| && s[n] == c && forall i :: from <= i < n ==> s[i] != c
    ensures Find(s, [c], from) == n
  {
    forall i | from <= i < n ensures !OccursAt(s, [c], i) {
      Mismatch(s, [c], i, 0);
    }
    assert s[n..n + 1] == [c];
    FindIs(s, [c], from, n);
  }

  /** Where the fields of a written line stand. */
  lemma RenderShape(e: LogLine)
    ensures var line, a := Render(e), |e.timestamp| + 1;
            var b := a + 3 + |e.level|;
            && |line| == b + 2 + |e.message| && line[0] == '[' && line[1..a] == e.timestamp
            && line[a] == ']' && line[a + 1] == ' ' && line[a + 2] == '['
            && line[a + 3..b] == e.level && line[b] == ']' && line[b + 1] == ' ' && line[b + 2..] == e.message
  {
  }

  /** Parsing recovers all three fields of a written entry. */
  lemma ParseRender(e: LogLine)
    requires Good(e)
    ensures ParseLine(Render(e)) == e
  {
    hide Find, Render;
    RenderShape(e);
    var line, a := Render(e), |e.timestamp| + 1;
    var b := a + 3 + |e.level|;
    forall i | 0 <= i < a ensures line[i] != ']' {
      assert i > 0 ==> line[i] == line[1..a][i - 1];
    }
    FindChar(line, ']', 0, a);
    FindChar(line, '[', a + 1, a + 2);
    forall i | a + 3 <= i < b ensures line[i] != ']' {
      assert line[i] == line[a + 3..b][i - a - 3];
    }
    FindChar(line, ']', a + 3, b);
  }

  // ---- The tail ----

  function NonEmpty(lines: seq<string>): (r: seq<string>)
    ensures |r| <= |lines|
  {
    if lines == [] then []
    else
      var rest, line := NonEmpty(lines[..|lines| - 1]), lines[|lines| - 1];
      if line == [] then rest else rest + [line]
  }

  /** The last `k` elements. */
  function Last<T>(xs: seq<T>, k: nat): seq<T> {
    if |xs| <= k then xs else xs[|xs| - k..]
  }

  predicate Wanted(e: LogLine, level: string) {
    level == [] || e.level == level
  }

  /** The parsed lines that pass the filter, newest first. */
  function Newest(lines: seq<string>, level: string): seq<LogLine> {
    if lines == [] then []
    else
      var e, rest := ParseLine(lines[|lines| - 1]), Newest(lines[..|lines| - 1], level);
      if Wanted(e, level) then [e] + rest else rest
  }

  function First<T>(xs: seq<T>, n: nat): seq<T> {
    if |xs| <= n then xs else xs[..n]
  }

  /** The last `8 * n` lines that are not empty, filtered, newest first, at most `n` of them. */
  function Tail(text: string, n: nat, level: string): seq<LogLine> {
    First(Newest(Last(NonEmpty(Lines(text, [])), 8 * n), level), n)
  }

  // ---- The loops ----

  lemma LastStep<T>(xs: seq<T>, x: T, k: nat)
    ensures Last(xs + [x], k) == if |Last(xs, k) + [x]| > k then (Last(xs, k) + [x])[1..] else Last(xs, k) + [x]
  {
    if |xs| > k {
      assert xs[|xs| - k..] + [x] == (xs + [x])[|xs| - k..];
    }
  }

  /** Fills the ring with the last lines. */
  method FillRing(lines: seq<string>, n: nat) returns (ring: seq<string>)
    ensures ring == Last(NonEmpty(lines), 8 * n)
  {
    hide Last;
    ring := [];
    LastNothing<string>(8 * n);
    for i := 0 to |lines|
      invariant ring == Last(NonEmpty(lines[..i]), 8 * n) && |ring| <= 8 * n
    {
      assert lines[..i + 1][..i] == lines[..i];
      if lines[i] != [] {
        LastStep(NonEmpty(lines[..i]), lines[i], 8 * n);
        ring := ring + [lines[i]];
      }
      if |ring| > 8 * n {
        ring := ring[1..];
      }
    }
    assert lines[..|lines|] == lines;
  }

  lemma LastNothing<T>(k: nat)
    ensures Last<T>([], k) == []
  {
  }

  /** The reading method: newest entries first. */
  method ReadTail(text: string, n: nat, level: string) returns (result: seq<LogLine>)
    ensures result == Tail(text, n, level)
  {
    hide ParseLine, Last, NonEmpty;
    var lines := ReadLines(text);
    var ring := FillRing(lines, n);
    RingBound(NonEmpty(lines), 8 * n);
    result := [];
    var k := |ring|;
    assert ring[..k] == ring;
    while k > 0
      invariant 0 <= k <= |ring| && (k > 0 ==> |result| < n) && |result| <= n
      invariant result + Newest(ring[..k], level) == Newest(ring, level)
    {
      k := k - 1;
      assert ring[..k + 1][..k] == ring[..k];
      var e := ParseLine(ring[k]);
      if level != [] && e.level != level {
        continue;
      }
      result := result + [e];
      if |result| >= n {
        break;
      }
    }
    FirstOfPrefix(result, Newest(ring[..k], level), n);
  }

  /** Cutting a concatenation down to what its front already has. */
  lemma FirstOfPrefix<T>(a: seq<T>, b: seq<T>, n: nat)
    ensures First(a, n) <= a + b
    ensures First(a + b, n) == First(a, n) <==> |a| >= n || b == []
    ensures |a| <= n ==> First(a, n) == a
  {
    if |a| >= n {
      assert (a + b)[..n] == a[..n];
    } else if b == [] {
      assert a + b == a;
    }
  }

  lemma RingBound<T>(xs: seq<T>, k: nat)
    ensures |Last(xs, k)| <= k
  {
  }

  // ---- What the tail returns of a written file ----

  function RenderAll(es: seq<LogLine>): (lines: seq<string>)
    ensures |lines| == |es| && forall i :: 0 <= i < |es| ==> lines[i] == Render(es[i])
  {
    seq(|es|, i requires 0 <= i < |es| => Render(es[i]))
  }

  /** The file after these entries have been written. */
  function FileOf(es: seq<LogLine>): string {
    PrintLines(RenderAll(es))
  }

  predicate AllGood(es: seq<LogLine>) {
    forall i :: 0 <= i < |es| ==> Good(es[i])
  }

  /** The wanted entries, newest first. */
  function Selected(es: seq<LogLine>, level: string): seq<LogLine> {
    if es == [] then []
    else
      var e, rest := es[|es| - 1], Selected(es[..|es| - 1], level);
      if Wanted(e, level) then [e] + rest else rest
  }

  lemma RenderOneLine(e: LogLine)
    requires Good(e)
    ensures '\n' !in Render(e) && Render(e) != []
  {
  }

  lemma {:induction false} AllKept(lines: seq<string>)
    requires forall i :: 0 <= i < |lines| ==> lines[i] != []
    ensures NonEmpty(lines) == lines
    decreases lines
  {
    if lines != [] {
      AllKept(lines[..|lines| - 1]);
    }
  }

  lemma {:induction false} NewestRendered(es: seq<LogLine>, level: string)
    requires AllGood(es)
    ensures Newest(RenderAll(es), level) == Selected(es, level)
    decreases es
  {
    hide ParseLine, Render;
    if es != [] {
      var front := es[..|es| - 1];
      NewestRendered(front, level);
      assert RenderAll(es)[..|es| - 1] == RenderAll(front);
      ParseRender(es[|es| - 1]);
    }
  }

  /** The tail of a written file: the newest `n` wanted entries among the last `8 * n` written. */
  lemma TailOfFile(es: seq<LogLine>, n: nat, level: string)
    requires AllGood(es)
    ensures Tail(FileOf(es), n, level) == First(Selected(Last(es, 8 * n), level), n)
  {
    hide Render, PrintLines, Lines, NonEmpty, First;
    var lines := RenderAll(es);
    forall i | 0 <= i < |es| ensures '\n' !in lines[i] && lines[i] != [] {
      RenderOneLine(es[i]);
    }
    LinesRoundTrip(lines);
    AllKept(lines);
    assert Last(lines, 8 * n) == RenderAll(Last(es, 8 * n));
    NewestRendered(Last(es, 8 * n), level);
  }

  /** Newest first, all fields as written. */
  lemma {:induction false} SelectedAll(es: seq<LogLine>)
    ensures |Selected(es, "")| == |es|
    ensures forall i :: 0 <= i < |es| ==> Selected(es, "")[i] == es[|es| - 1 - i]
    decreases es
  {
    if es != [] {
      SelectedAll(es[..|es| - 1]);
    }
  }

  lemma LastLength<T>(xs: seq<T>, k: nat)
    ensures |Last(xs, k)| == if |xs| < k then |xs| else k
  {
  }

  lemma LastAt<T>(xs: seq<T>, k: nat, i: nat)
    requires i < |Last(xs, k)| <= |xs|
    ensures Last(xs, k)[|Last(xs, k)| - 1 - i] == xs[|xs| - 1 - i]
  {
  }

  lemma FirstAt<T>(xs: seq<T>, n: nat)
    ensures |First(xs, n)| == if |xs| < n then |xs| else n
    ensures forall i :: 0 <= i < |First(xs, n)| ==> First(xs, n)[i] == xs[i]
  {
  }

  /** Without a filter the tail is the last min(n, count) entries, newest first. */
  lemma UnfilteredTail(es: seq<LogLine>, n: nat)
    requires AllGood(es)
    ensures var t := Tail(FileOf(es), n, "");
            && |t| == (if |es| < n then |es| else n)
            && forall i :: 0 <= i < |t| ==> t[i] == es[|es| - 1 - i]
  {
    hide Tail, FileOf, Last, First, Selected, AllGood;
    TailOfFile(es, n, "");
    var recent := Last(es, 8 * n);
    LastLength(es, 8 * n);
    SelectedAll(recent);
    FirstAt(Selected(recent, ""), n);
    var t := Tail(FileOf(es), n, "");
    forall i | 0 <= i < |t| ensures t[i] == es[|es| - 1 - i] {
      LastAt(es, 8 * n, i);
      assert t[i] == Selected(recent, "")[i] == recent[|recent| - 1 - i];
    }
  }

  lemma {:induction false} SelectedConcat(a: seq<LogLine>, b: seq<LogLine>, level: string)
    ensures Selected(a + b, level) == Selected(b, level) + Selected(a, level)
    decreases b
  {
    if b == [] {
      assert a + b == a;
    } else {
      assert (a + b)[..|a + b| - 1] == a + b[..|b| - 1];
      SelectedConcat(a, b[..|b| - 1], level);
    }
  }

  /**
   * With a filter the tail always agrees with the newest wanted entries of the whole file as far as
   * it goes, and it is complete exactly when the last `8 * n` entries hold `n` of them, or all there are.
   */
  lemma FilteredTail(es: seq<LogLine>, n: nat, level: string)
    requires AllGood(es)
    ensures var all, recent := Selected(es, level), Selected(Last(es, 8 * n), level);
            && Tail(FileOf(es), n, level) <= all
            && (Tail(FileOf(es), n, level) == First(all, n) <==> |recent| >= n || |recent| == |all|)
  {
    hide Tail, FileOf, Selected, First;
    TailOfFile(es, n, level);
    var recent := Last(es, 8 * n);
    var older := es[..|es| - |recent|];
    assert es == older + recent;
    SelectedConcat(older, recent, level);
    FirstOfPrefix(Selected(recent, level), Selected(older, level), n);
  }

  // ---- Which files read back exactly ----

  lemma {:induction false} LinesUnbroken(s: string, started: string)
    requires '\n' !in started
    ensures forall i :: 0 <= i < |Lines(s, started)| ==> '\n' !in Lines(s, started)[i]
    decreases s
  {
    if s != [] {
      if s[0] == '\n' {
        LinesUnbroken(s[1..], []);
      } else {
        LinesUnbroken(s[1..], started + [s[0]]);
      }
    }
  }

  lemma {:induction false} NonEmptyFrom(lines: seq<string>)
    ensures forall i :: 0 <= i < |NonEmpty(lines)| ==> NonEmpty(lines)[i] in lines
    decreases lines
  {
    if lines != [] {
      NonEmptyFrom(lines[..|lines| - 1]);
    }
  }

  lemma NoBracketBefore(line: string, from: nat, start: nat)
    requires from <= start <= Find(line, "]", from) < |line|
    ensures ']' !in line[start..Find(line, "]", from)]
  {
    var end := Find(line, "]", from);
    forall i | start <= i < end ensures line[i] != ']' {
      if line[i] == ']' {
        assert line[i..i + 1] == "]";
        assert OccursAt(line, "]", i);
      }
    }
  }

  lemma PartsUnbroken(line: string)
    requires '\n' !in line
    ensures forall i, j :: 0 <= i <= j <= |line| ==> '\n' !in line[i..j]
    ensures forall i :: 0 <= i <= |line| ==> '\n' !in line[i..]
  {
  }

  lemma FoundThere(s: string, c: char, from: nat)
    ensures var r := Find(s, [c], from);
            r != NPOS ==> from <= r < |s| && s[r] == c
  {
    var r := Find(s, [c], from);
    if r != NPOS {
      OccursChar(s, [c], r, 0);
    }
  }

  /** Whatever a line is, its parsed fields could have been written. */
  lemma ParsedGood(line: string)
    requires '\n' !in line
    ensures Good(ParseLine(line))
  {
    hide Find, OccursAt;
    PartsUnbroken(line);
    if line != [] && line[0] == '[' {
      var tsEnd := Find(line, "]", 0);
      FoundThere(line, ']', 0);
      if tsEnd != NPOS {
        NoBracketBefore(line, 0, 1);
        var lvStart := Find(line, "[", tsEnd + 1);
        FoundThere(line, '[', tsEnd + 1);
        if lvStart != NPOS {
          FoundThere(line, ']', lvStart + 1);
          if Find(line, "]", lvStart + 1) != NPOS {
            NoBracketBefore(line, lvStart + 1, lvStart + 1);
          }
        }
      }
    }
  }

  lemma {:induction false} NewestGood(lines: seq<string>, level: string)
    requires forall i :: 0 <= i < |lines| ==> '\n' !in lines[i]
    ensures AllGood(Newest(lines, level))
    decreases lines
  {
    hide ParseLine, Good;
    if lines != [] {
      ParsedGood(lines[|lines| - 1]);
      NewestGood(lines[..|lines| - 1], level);
    }
  }

  /** The tail of any file holds only entries whose fields and message are free of the format's own marks. */
  lemma TailGood(text: string, n: nat, level: string)
    ensures AllGood(Tail(text, n, level))
  {
    hide ParseLine, Good, Lines, NonEmpty;
    var lines := Lines(text, []);
    LinesUnbroken(text, []);
    NonEmptyFrom(lines);
    var recent := Last(NonEmpty(lines), 8 * n);
    forall i | 0 <= i < |recent| ensures '\n' !in recent[i] {
      assert recent[i] in lines;
    }
    NewestGood(recent, level);
  }

  /**
   * A file of any entries reads back exactly when no timestamp or level holds a closing bracket and
   * nothing in any entry breaks the line.
   */
  lemma ReadsBackIff(es: seq<LogLine>, n: nat)
    requires n >= |es|
    ensures Tail(FileOf(es), n, "") == Selected(es, "") <==> AllGood(es)
  {
    hide Tail, FileOf, Selected, Good;
    SelectedAll(es);
    if AllGood(es) {
      UnfilteredTail(es, n);
    }
    if Tail(FileOf(es), n, "") == Selected(es, "") {
      TailGood(FileOf(es), n, "");
      forall i | 0 <= i < |es| ensures Good(es[i]) {
        assert Selected(es, "")[|es| - 1 - i] == es[i];
      }
    }
  }

  /** For one: a message with a break comes back as two entries, of which the newer is a raw line. */
  lemma BrokenMessage()
    ensures var e := LogLine("t", "INFO", "a\nb");
            Tail(FileOf([e]), 5, "") == [LogLine("", "", "b"), LogLine("t", "INFO", "a")]
  {
    hide ParseLine, Render;
    var e, first := LogLine("t", "INFO", "a\nb"), LogLine("t", "INFO", "a");
    assert RenderAll([e]) == [Render(e)];
    var lines := [Render(first), "b"];
    assert FileOf([e]) == PrintLines(lines) by {
      BrokenFile(e, first);
    }
    RenderOneLine(first);
    LinesRoundTrip(lines);
    AllKept(lines);
    ParseRender(first);
    RawLine();
    NewestTwo(lines);
  }

  lemma RawLine()
    ensures ParseLine("b") == LogLine("", "", "b")
  {
  }

  lemma BrokenFile(e: LogLine, first: LogLine)
    requires e == LogLine("t", "INFO", "a\nb") && first == LogLine("t", "INFO", "a")
    ensures FileOf([e]) == PrintLines([Render(first), "b"])
  {
    assert Render(e) == Render(first) + "\n" + "b";
    assert RenderAll([e])[1..] == [] && [Render(first), "b"][1..] == ["b"] && ["b"][1..] == [];
  }

  lemma NewestTwo(lines: seq<string>)
    requires |lines| == 2
    ensures Newest(lines, "") == [ParseLine(lines[1]), ParseLine(lines[0])]
  {
    hide ParseLine;
    assert lines[..1] == [lines[0]] && [lines[0]][..0] == [];
    assert Newest([lines[0]], "") == [ParseLine(lines[0])] + Newest([], "");
  }

  // ---- The filter ----

  /** A level was asked for and the entry has another. */
  predicate Filtered(e: LogLine, level: string) {
    level != "" && e.level != level
  }

  lemma {:induction false} NewestOfLevel(lines: seq<string>, level: string)
    ensures forall i :: 0 <= i < |Newest(lines, level)| ==> !Filtered(Newest(lines, level)[i], level)
    decreases lines
  {
    hide ParseLine;
    if lines != [] {
      NewestOfLevel(lines[..|lines| - 1], level);
    }
  }

  /** Whatever the file holds, a tail with a level has entries of that level only. */
  lemma TailOfLevel(text: string, n: nat, level: string, i: nat)
    requires level != "" && i < |Tail(text, n, level)|
    ensures Tail(text, n, level)[i].level == level
  {
    hide Lines, NonEmpty, Newest;
    var recent := Last(NonEmpty(Lines(text, [])), 8 * n);
    NewestOfLevel(recent, level);
    FirstAt(Newest(recent, level), n);
  }

  /** How many entries are of a level, or of any when none is asked for. */
  function CountLevel(es: seq<LogLine>, level: string): nat {
    if es == [] then 0 else CountLevel(es[1..], level) + if level == "" || es[0].level == level then 1 else 0
  }

  lemma {:induction false} CountSnoc(es: seq<LogLine>, e: LogLine, level: string)
    ensures CountLevel(es + [e], level) == CountLevel(es, level) + if level == "" || e.level == level then 1 else 0
    decreases es
  {
    if es == [] {
      assert [] + [e] == [e] && [e][1..] == [];
    } else {
      assert (es + [e])[1..] == es[1..] + [e];
      CountSnoc(es[1..], e, level);
    }
  }

  /** An entry of the level comes after as many as are newer than it. */
  lemma {:induction false} SelectedPlace(es: seq<LogLine>, level: string, k: nat)
    requires k < |es| && (level == "" || es[k].level == level)
    ensures var newer := CountLevel(es[k + 1..], level);
            newer < |Selected(es, level)| && Selected(es, level)[newer] == es[k]
    decreases es
  {
    var n := |es| - 1;
    if k == n {
      assert es[k + 1..] == [];
    } else {
      SelectedPlace(es[..n], level, k);
      assert es[..n][k] == es[k];
      assert es[k + 1..] == es[..n][k + 1..] + [es[n]];
      CountSnoc(es[..n][k + 1..], es[n], level);
    }
  }

  lemma {:induction false} SelectedCount(es: seq<LogLine>, level: string)
    ensures |Selected(es, level)| == CountLevel(es, level)
    decreases es
  {
    if es != [] {
      var n := |es| - 1;
      SelectedCount(es[..n], level);
      CountSnoc(es[..n], es[n], level);
      assert es == es[..n] + [es[n]];
    }
  }

  /**
   * Of the last `8 * n` entries each of the level comes back, after those that are newer, until there are
   * `n`; nothing else does.
   */
  lemma TailPlaces(es: seq<LogLine>, n: nat, level: string, k: nat)
    requires AllGood(es) && |es| - 8 * n <= k < |es|
    ensures var t, newer := Tail(FileOf(es), n, level), CountLevel(es[k + 1..], level);
            var window := if |es| <= 8 * n then es else es[|es| - 8 * n..];
            && |t| == (if CountLevel(window, level) < n then CountLevel(window, level) else n)
            && ((level == "" || es[k].level == level) && newer < n ==> newer < |t| && t[newer] == es[k])
  {
    hide Tail, FileOf, Selected, First, AllGood;
    TailOfFile(es, n, level);
    var recent := Last(es, 8 * n);
    var shift := |es| - |recent|;
    SelectedCount(recent, level);
    FirstAt(Selected(recent, level), n);
    if level == "" || es[k].level == level {
      assert recent == es[shift..] && recent[k - shift] == es[k] && recent[k - shift + 1..] == es[k + 1..];
      SelectedPlace(recent, level, k - shift);
    }
  }
}
