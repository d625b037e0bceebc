// JSON string escaping, against a string lexer of RFC 8259 section 7. Texts are
// byte strings: every character stands for one byte.

module Escape {
  import opened Options
  import opened Text

  const QUOTE := '"'
  const BACKSLASH := '\\'

  /** Control characters without a short escape are replaced. */
  predicate Masked(c: char) {
    c < ' ' && c != '\n' && c != '\r' && c != '\t'
  }

  function EscapeChar(c: char): (e: string)
    ensures e != []
  {
    if c == QUOTE then [BACKSLASH, QUOTE]
    else if c == BACKSLASH then [BACKSLASH, BACKSLASH]
    else if c == '\n' then [BACKSLASH, 'n']
    else if c == '\r' then [BACKSLASH, 'r']
    else if c == '\t' then [BACKSLASH, 't']
    else if c < ' ' then "?"
    else [c]
  }

  function JsonEscape(s: string): string {
    if s == [] then [] else EscapeChar(s[0]) + JsonEscape(s[1..])
  }

  /** The escaping loop. */
  method EscapeLoop(s: string) returns (out: string)
    ensures out == JsonEscape(s)
  {
    hide EscapeChar;
    out := [];
    for i := 0 to |s|
      invariant out + JsonEscape(s[i..]) == JsonEscape(s)
    {
      assert s[i..][1..] == s[i + 1..];
      assert out + (EscapeChar(s[i]) + JsonEscape(s[i + 1..])) == (out + EscapeChar(s[i])) + JsonEscape(s[i + 1..]);
      out := out + EscapeChar(s[i]);
    }
  }

  // ---- The lexer ----

  /** The code unit of a four-digit escape. */
  function Hex4(s: string): Option<nat>
    requires |s| >= 4
  {
    match (HexValue(s[0]), HexValue(s[1]), HexValue(s[2]), HexValue(s[3]))
    case (Some(a), Some(b), Some(c), Some(d)) => Some(4096 * a + 256 * b + 16 * c + d)
    case _ => None
  }

  /** What a character after a backslash stands for, the four-digit form aside. */
  function ShortEscape(c: char): Option<char> {
    if c == QUOTE || c == BACKSLASH || c == '/' then Some(c)
    else if c == 'b' then Some(8 as char)
    else if c == 'f' then Some(12 as char)
    else if c == 'n' then Some('\n')
    else if c == 'r' then Some('\r')
    else if c == 't' then Some('\t')
    else None
  }

  function Cons(unit: nat, r: Option<(seq<nat>, string)>): Option<(seq<nat>, string)> {
    match r
    case None => None
    case Some((units, rest)) => Some(([unit] + units, rest))
  }

  /** Reads from after the opening quote: the code units up to the closing quote, and what follows it. */
  function Lex(s: string): Option<(seq<nat>, string)> {
    if s == [] then None
    else if s[0] == QUOTE then Some(([], s[1..]))
    else if s[0] == BACKSLASH then
      if |s| >= 6 && s[1] == 'u' then
        (match Hex4(s[2..]) case None => None case Some(unit) => Cons(unit, Lex(s[6..])))
      else if |s| >= 2 && ShortEscape(s[1]).Some? then Cons(ShortEscape(s[1]).value as nat, Lex(s[2..]))
      else None
    else if s[0] < ' ' then None
    else Cons(s[0] as nat, Lex(s[1..]))
  }

  /** The text with its unprintable control characters replaced. */
  function Shown(s: string): (units: seq<nat>)
    ensures |units| == |s|
  {
    seq(|s|, i requires 0 <= i < |s| => if Masked(s[i]) then '?' as nat else s[i] as nat)
  }

  function Units(s: string): (units: seq<nat>)
    ensures |units| == |s|
  {
    seq(|s|, i requires 0 <= i < |s| => s[i] as nat)
  }

  lemma LexOne(c: char, rest: string)
    ensures Lex(EscapeChar(c) + rest) == Cons(if Masked(c) then '?' as nat else c as nat, Lex(rest))
  {
    var s := EscapeChar(c) + rest;
    assert s[|EscapeChar(c)|..] == rest;
  }

  /** The lexer stops exactly at the closing quote, with every printable character recovered. */
  lemma {:induction false} EscapeRoundTrip(s: string, rest: string)
    ensures Lex(JsonEscape(s) + ([QUOTE] + rest)) == Some((Shown(s), rest))
    decreases s
  {
    hide Lex, EscapeChar;
    var tail := [QUOTE] + rest;
    if s == [] {
      assert JsonEscape(s) + tail == tail;
      LexEnd(rest);
    } else {
      EscapeRoundTrip(s[1..], rest);
      assert JsonEscape(s) + tail == EscapeChar(s[0]) + (JsonEscape(s[1..]) + tail);
      LexOne(s[0], JsonEscape(s[1..]) + tail);
      assert Shown(s) == [if Masked(s[0]) then '?' as nat else s[0] as nat] + Shown(s[1..]);
    }
  }

  lemma LexEnd(rest: string)
    ensures Lex([QUOTE] + rest) == Some(([], rest))
  {
    assert ([QUOTE] + rest)[1..] == rest;
  }

  /** Nothing is lost exactly when there is no control character without a short escape. */
  lemma EscapeLossless(s: string, rest: string)
    ensures Lex(JsonEscape(s) + ([QUOTE] + rest)) == Some((Units(s), rest)) <==>
            forall i :: 0 <= i < |s| ==> s[i] as int >= 32 || s[i] as int == 9 || s[i] as int == 10 || s[i] as int == 13
  {
    EscapeRoundTrip(s, rest);
    if i :| 0 <= i < |s| && Masked(s[i]) {
      assert Shown(s)[i] != Units(s)[i];
    } else {
      assert Shown(s) == Units(s);
    }
  }

  /** Nothing but quotes, backslashes and control characters is changed. */
  lemma {:induction false} PrintedAsIs(s: string)
    requires forall c :: c in s ==> c as int >= 32 && c as int != 34 && c as int != 92
    ensures JsonEscape(s) == s
    decreases s
  {
    if s != [] {
      assert s[0] in s && s == [s[0]] + s[1..];
      assert forall c :: c in s[1..] ==> c in s;
      PrintedAsIs(s[1..]);
    }
  }
}
