// Quoted-printable as the mail sender writes it, against the decoder and the
// line limit of RFC 2045 section 6.7.

module QuotedPrintable {
  import opened Options
  import opened Sequences
  import opened Bytes

  const CR: byte := 13
  const LF: byte := 10
  const EQUALS: byte := 61
  const TAB: byte := 9
  const SPACE: byte := 32

  predicate IsBreak(c: byte) {
    c == CR || c == LF
  }

  predicate IsBlank(c: byte) {
    c == TAB || c == SPACE
  }

  /** Printed as itself. */
  predicate IsPlain(c: byte) {
    33 <= c <= 126 && c != EQUALS
  }

  // ---- The encoder ----

  function HexDigit(d: nat): (c: byte)
    requires d < 16
    ensures IsPlain(c)
  {
    if d < 10 then 48 + d else 55 + d
  }

  /** A soft line break where the column has reached a limit. */
  function SoftBreak(col: nat, limit: nat): seq<byte> {
    if col >= limit then [EQUALS, CR, LF] else []
  }

  function Column(col: nat, limit: nat): (c: nat)
    ensures c <= col && (c < limit || c == 0)
  {
    if col >= limit then 0 else col
  }

  /** The encoding of `s` when `col` characters already stand on the line. */
  function EncodeFrom(s: seq<byte>, col: nat): seq<byte> {
    if s == [] then []
    else if IsBreak(s[0]) then [s[0]] + EncodeFrom(s[1..], 0)
    else if IsPlain(s[0]) then SoftBreak(col, 75) + ([s[0]] + EncodeFrom(s[1..], Column(col, 75) + 1))
    else
      SoftBreak(col, 73) +
      ([EQUALS, HexDigit(s[0] / 16), HexDigit(s[0] % 16)] + EncodeFrom(s[1..], Column(col, 73) + 3))
  }

  /** What one byte adds to the output, and the column it leaves. */
  function Piece(c: byte, col: nat): seq<byte> {
    if IsBreak(c) then [c]
    else if IsPlain(c) then SoftBreak(col, 75) + [c]
    else SoftBreak(col, 73) + [EQUALS, HexDigit(c / 16), HexDigit(c % 16)]
  }

  function NextColumn(c: byte, col: nat): nat {
    if IsBreak(c) then 0 else if IsPlain(c) then Column(col, 75) + 1 else Column(col, 73) + 3
  }

  lemma EncodeStep(out: seq<byte>, s: seq<byte>, i: nat, col: nat)
    requires i < |s|
    ensures out + EncodeFrom(s[i..], col) ==
            (out + Piece(s[i], col)) + EncodeFrom(s[i + 1..], NextColumn(s[i], col))
  {
    hide SoftBreak, HexDigit, Column;
    var c, rest := s[i], EncodeFrom(s[i + 1..], NextColumn(s[i], col));
    assert s[i..][1..] == s[i + 1..];
    if IsPlain(c) {
      Regroup(SoftBreak(col, 75), [c], rest);
    } else if !IsBreak(c) {
      Regroup(SoftBreak(col, 73), [EQUALS, HexDigit(c / 16), HexDigit(c % 16)], rest);
    }
    Regroup(out, Piece(c, col), rest);
  }

  /** The encoding loop. */
  method QpEncode(s: seq<byte>) returns (out: seq<byte>)
    ensures out == EncodeFrom(s, 0)
  {
    hide EncodeFrom, HexDigit;
    out := [];
    var col := 0;
    for i := 0 to |s|
      invariant out + EncodeFrom(s[i..], col) == EncodeFrom(s, 0)
    {
      var c := s[i];
      EncodeStep(out, s, i, col);
      ghost var goal := out + Piece(c, col);
      if IsBreak(c) {
        out := out + [c];
        col := 0;
        continue;
      }
      if IsPlain(c) {
        if col >= 75 {
          out := out + [EQUALS, CR, LF];
          col := 0;
        }
        out := out + [c];
        col := col + 1;
      } else {
        if col >= 73 {
          out := out + [EQUALS, CR, LF];
          col := 0;
        }
        out := out + [EQUALS, HexDigit(c / 16), HexDigit(c % 16)];
        col := col + 3;
      }
      assert out == goal;
    }
    EncodeNothing(s);
  }

  lemma EncodeNothing(s: seq<byte>)
    ensures forall col: nat :: EncodeFrom(s[|s|..], col) == []
  {
  }

  // ---- The decoder ----

  function HexValue(c: byte): Option<nat> {
    if 48 <= c <= 57 then Some(c - 48) else if 65 <= c <= 70 then Some(c - 55) else None
  }

  /** A line break of the standard: CR and LF, as a pair. */
  predicate AtBreak(s: seq<byte>) {
    |s| >= 2 && s[0] == CR && s[1] == LF
  }

  /** Only blanks up to a line break or the end: padding a decoder must drop. */
  predicate TrailingBlanks(s: seq<byte>) {
    s == [] || AtBreak(s) || (IsBlank(s[0]) && TrailingBlanks(s[1..]))
  }

  function Prepend(front: seq<byte>, r: Option<seq<byte>>): Option<seq<byte>> {
    match r
    case None => None
    case Some(rest) => Some(front + rest)
  }

  /** CR and LF mean a line break, and only as a pair; every other control octet is illegal. */
  function Decode(s: seq<byte>): Option<seq<byte>> {
    if s == [] then Some([])
    else if s[0] == EQUALS then
      if |s| < 3 then None
      else if AtBreak(s[1..]) then Decode(s[3..])
      else match (HexValue(s[1]), HexValue(s[2]))
        case (Some(h), Some(l)) => Prepend([16 * h + l], Decode(s[3..]))
        case _ => None
    else if AtBreak(s) then Prepend([CR, LF], Decode(s[2..]))
    else if IsBlank(s[0]) && TrailingBlanks(s) then Decode(s[1..])
    else if IsPlain(s[0]) || IsBlank(s[0]) then Prepend([s[0]], Decode(s[1..]))
    else None
  }

  /** Every CR is followed by LF and every LF preceded by CR. */
  predicate PairedBreaks(s: seq<byte>) {
    if s == [] then true
    else if AtBreak(s) then PairedBreaks(s[2..])
    else !IsBreak(s[0]) && PairedBreaks(s[1..])
  }

  lemma HexRoundTrip(d: nat)
    requires d < 16
    ensures HexValue(HexDigit(d)) == Some(d)
    ensures HexDigit(d) != CR
  {
  }

  lemma DecodeSoft(col: nat, limit: nat, rest: seq<byte>)
    ensures Decode(SoftBreak(col, limit) + rest) == Decode(rest)
  {
    var s := SoftBreak(col, limit) + rest;
    if col >= limit {
      assert s[1..][0] == CR && s[1..][1] == LF;
      assert s[3..] == rest;
    } else {
      assert s == rest;
    }
  }

  lemma DecodePlain(c: byte, rest: seq<byte>)
    requires IsPlain(c)
    ensures Decode([c] + rest) == Prepend([c], Decode(rest))
  {
    assert ([c] + rest)[1..] == rest;
  }

  lemma DecodeHex(c: byte, rest: seq<byte>)
    ensures Decode([EQUALS, HexDigit(c / 16), HexDigit(c % 16)] + rest) == Prepend([c], Decode(rest))
  {
    HexRoundTrip(c / 16);
    HexRoundTrip(c % 16);
    var s := [EQUALS, HexDigit(c / 16), HexDigit(c % 16)] + rest;
    assert s[1..][0] == HexDigit(c / 16);
    assert s[3..] == rest;
  }

  /** A break octet is read only with its partner. */
  lemma DecodeBreak(c: byte, rest: seq<byte>)
    requires IsBreak(c)
    ensures Decode([c] + rest) ==
            if c == CR && rest != [] && rest[0] == LF then Prepend([CR, LF], Decode(rest[1..])) else None
  {
    var s := [c] + rest;
    assert AtBreak(s) <==> c == CR && rest != [] && rest[0] == LF;
    if AtBreak(s) {
      assert s[2..] == rest[1..];
    }
  }

  /** After a break the encoding starts with an LF exactly when the text does. */
  lemma FirstLF(s: seq<byte>)
    ensures (EncodeFrom(s, 0) != [] && EncodeFrom(s, 0)[0] == LF) <==> s != [] && s[0] == LF
    ensures s != [] && s[0] == LF ==> EncodeFrom(s, 0)[1..] == EncodeFrom(s[1..], 0)
  {
    if s != [] && !IsBreak(s[0]) {
      assert SoftBreak(0, 75) == [] && SoftBreak(0, 73) == [];
    }
  }

  lemma EncodeBreak(s: seq<byte>, col: nat)
    requires s != [] && IsBreak(s[0])
    ensures EncodeFrom(s, col) == [s[0]] + EncodeFrom(s[1..], 0)
  {
  }

  /** Whatever the line wrapping, decoding gives back the text if its breaks are paired, and fails otherwise. */
  lemma {:induction false} QpRoundTrip(s: seq<byte>, col: nat)
    ensures Decode(EncodeFrom(s, col)) == if PairedBreaks(s) then Some(s) else None
    decreases |s|
  {
    hide Decode, HexDigit, SoftBreak;
    if s == [] {
      DecodeNothing();
    } else {
      var c := s[0];
      assert s == [c] + s[1..];
      if IsBreak(c) {
        EncodeBreak(s, col);
        DecodeBreak(c, EncodeFrom(s[1..], 0));
        FirstLF(s[1..]);
        if AtBreak(s) {
          assert s[1..][1..] == s[2..] && s == [CR, LF] + s[2..];
          QpRoundTrip(s[2..], 0);
        }
      } else if IsPlain(c) {
        var rest := EncodeFrom(s[1..], Column(col, 75) + 1);
        QpRoundTrip(s[1..], Column(col, 75) + 1);
        DecodePlain(c, rest);
        DecodeSoft(col, 75, [c] + rest);
      } else {
        var rest := EncodeFrom(s[1..], Column(col, 73) + 3);
        QpRoundTrip(s[1..], Column(col, 73) + 3);
        DecodeHex(c, rest);
        DecodeSoft(col, 73, [EQUALS, HexDigit(c / 16), HexDigit(c % 16)] + rest);
      }
    }
  }

  lemma DecodeNothing()
    ensures Decode([]) == Some([])
  {
  }

  /** A lone line feed is passed through as it is, and no conforming decoder takes it back. */
  lemma LoneLineFeed()
    ensures EncodeFrom([LF], 0) == [LF] && Decode([LF]) == None
  {
    assert EncodeFrom([LF][1..], 0) == [];
  }

  // ---- The line limit ----

  /** Every stretch of `out` without CR or LF fits in 76 characters when `col` stand before it. */
  predicate LinesFit(out: seq<byte>, col: nat) {
    col <= 76 && (out == [] || LinesFit(out[1..], if IsBreak(out[0]) then 0 else col + 1))
  }

  lemma FitSoft(col: nat, limit: nat, rest: seq<byte>)
    requires col <= 75 && LinesFit(rest, Column(col, limit))
    ensures LinesFit(SoftBreak(col, limit) + rest, col)
  {
    var s := SoftBreak(col, limit) + rest;
    if col >= limit {
      assert s[1..][1..][1..] == rest;
      assert s[1..][0] == CR && s[1..][1..][0] == LF;
      assert LinesFit(s[1..][1..], 0);
      assert LinesFit(s[1..], col + 1);
    } else {
      assert s == rest;
    }
  }

  lemma FitTriple(a: byte, b: byte, c: byte, rest: seq<byte>, col: nat)
    requires !IsBreak(a) && !IsBreak(b) && !IsBreak(c) && LinesFit(rest, col + 3)
    ensures LinesFit([a, b, c] + rest, col)
  {
    var s := [a, b, c] + rest;
    assert s[1..][1..][1..] == rest;
    assert s[1..][0] == b && s[1..][1..][0] == c;
    assert LinesFit(s[1..][1..], col + 2);
    assert LinesFit(s[1..], col + 1);
  }

  lemma FitLiteral(c: byte, rest: seq<byte>, col: nat)
    requires col <= 76 && LinesFit(rest, if IsBreak(c) then 0 else col + 1)
    ensures LinesFit([c] + rest, col)
  {
    assert ([c] + rest)[1..] == rest;
  }

  lemma {:induction false} EncodedLinesFit(s: seq<byte>, col: nat)
    requires col <= 75
    ensures LinesFit(EncodeFrom(s, col), col)
    decreases s
  {
    hide LinesFit, SoftBreak, HexDigit;
    if s == [] {
      EmptyFits(col);
    } else if IsBreak(s[0]) {
      EncodedLinesFit(s[1..], 0);
      FitLiteral(s[0], EncodeFrom(s[1..], 0), col);
    } else if IsPlain(s[0]) {
      var rest := EncodeFrom(s[1..], Column(col, 75) + 1);
      EncodedLinesFit(s[1..], Column(col, 75) + 1);
      FitLiteral(s[0], rest, Column(col, 75));
      FitSoft(col, 75, [s[0]] + rest);
    } else {
      var rest := EncodeFrom(s[1..], Column(col, 73) + 3);
      EncodedLinesFit(s[1..], Column(col, 73) + 3);
      FitTriple(EQUALS, HexDigit(s[0] / 16), HexDigit(s[0] % 16), rest, Column(col, 73));
      FitSoft(col, 73, [EQUALS, HexDigit(s[0] / 16), HexDigit(s[0] % 16)] + rest);
    }
  }

  lemma EmptyFits(col: nat)
    requires col <= 76
    ensures LinesFit([], col)
  {
  }

  lemma {:induction false} FitBoundsRuns(out: seq<byte>, col: nat, i: nat, j: nat)
    requires LinesFit(out, col) && i <= j <= |out|
    requires forall k :: i <= k < j ==> !IsBreak(out[k])
    ensures j - i <= 76 && (i == 0 ==> col + j <= 76)
    decreases out
  {
    if j > 0 {
      FitBoundsRuns(out[1..], if IsBreak(out[0]) then 0 else col + 1, if i == 0 then 0 else i - 1, j - 1);
    }
  }

  /** No stretch of output without CR and LF is longer than 76, its soft-break sign included. */
  lemma StretchLimit(s: seq<byte>, i: nat, j: nat)
    requires i <= j <= |EncodeFrom(s, 0)|
    requires forall k :: i <= k < j ==> !IsBreak(EncodeFrom(s, 0)[k])
    ensures j - i <= 76
  {
    EncodedLinesFit(s, 0);
    FitBoundsRuns(EncodeFrom(s, 0), 0, i, j);
  }

  /** Every line of `out` between CRLF breaks fits in 76 characters when `col` stand before it. */
  predicate CrlfLinesFit(out: seq<byte>, col: nat) {
    && col <= 76
    && if out == [] then true
       else if AtBreak(out) then CrlfLinesFit(out[2..], 0)
       else CrlfLinesFit(out[1..], col + 1)
  }

  /** What the decoder accepts has its breaks in pairs. */
  lemma {:induction false} DecodedPaired(out: seq<byte>)
    requires Decode(out).Some?
    ensures PairedBreaks(out)
    decreases |out|
  {
    if out != [] {
      if out[0] == EQUALS {
        DecodedPaired(out[3..]);
        assert out[1..][1..] == out[2..] && out[1..][2..] == out[3..] && out[2..][1..] == out[3..];
      } else if AtBreak(out) {
        DecodedPaired(out[2..]);
      } else {
        DecodedPaired(out[1..]);
      }
    }
  }

  lemma {:induction false} PairedLinesFit(out: seq<byte>, col: nat)
    requires PairedBreaks(out) && LinesFit(out, col)
    ensures CrlfLinesFit(out, col)
    decreases |out|
  {
    if out != [] {
      if AtBreak(out) {
        assert out[1..][1..] == out[2..] && LinesFit(out[1..], 0);
        PairedLinesFit(out[2..], 0);
      } else {
        PairedLinesFit(out[1..], col + 1);
      }
    }
  }

  /** What the standard asks of an encoded body: a decoder accepts it and its lines fit. */
  predicate Conforms(out: seq<byte>) {
    Decode(out).Some? && CrlfLinesFit(out, 0)
  }

  /** The output conforms to the standard exactly when the breaks of the text are paired. */
  lemma ConformsIffPaired(s: seq<byte>)
    ensures Conforms(EncodeFrom(s, 0)) <==> PairedBreaks(s)
  {
    hide Decode, EncodeFrom, LinesFit, CrlfLinesFit, PairedBreaks;
    QpRoundTrip(s, 0);
    if PairedBreaks(s) {
      EncodedLinesFit(s, 0);
      DecodedPaired(EncodeFrom(s, 0));
      PairedLinesFit(EncodeFrom(s, 0), 0);
    }
  }

  lemma {:induction false} CrlfBoundsLines(out: seq<byte>, col: nat, i: nat, j: nat)
    requires CrlfLinesFit(out, col) && i <= j <= |out|
    requires i == 0 || (i >= 2 && AtBreak(out[i - 2..]) && PairedBreaks(out))
    requires forall k :: i <= k < j ==> !AtBreak(out[k..])
    ensures j - i <= 76 && (i == 0 ==> col + j <= 76)
    decreases |out|
  {
    if j > 0 {
      var step := if AtBreak(out) then 2 else 1;
      if i == 0 {
        assert out[0..] == out;
        forall k | 0 <= k < j - 1 ensures !AtBreak(out[1..][k..]) {
          assert out[1..][k..] == out[k + 1..];
        }
        CrlfBoundsLines(out[1..], col + 1, 0, j - 1);
      } else {
        assert i == 2 ==> out[i - 2..] == out;
        assert out[i - 2..][0] == out[i - 2];
        assert i - step >= 2 ==> out[step..][i - step - 2..] == out[i - 2..];
        forall k | i - step <= k < j - step ensures !AtBreak(out[step..][k..]) {
          assert out[step..][k..] == out[k + step..];
        }
        CrlfBoundsLines(out[step..], if step == 2 then 0 else col + 1, i - step, j - step);
      }
    }
  }

  /** Where breaks are paired, a line that starts after a CRLF, or at the start, runs for at most 76 octets. */
  lemma LineLimit(s: seq<byte>, i: nat, j: nat)
    requires PairedBreaks(s) && i <= j <= |EncodeFrom(s, 0)|
    requires i == 0 || (i >= 2 && AtBreak(EncodeFrom(s, 0)[i - 2..]))
    requires forall k :: i <= k < j ==> !AtBreak(EncodeFrom(s, 0)[k..])
    ensures j - i <= 76
  {
    hide EncodeFrom, CrlfLinesFit, Decode;
    ConformsIffPaired(s);
    DecodedPaired(EncodeFrom(s, 0));
    CrlfBoundsLines(EncodeFrom(s, 0), 0, i, j);
  }

  /** Blanks are always escaped, so no mail relay can strip them. */
  lemma {:induction false} NoBareBlanks(s: seq<byte>, col: nat)
    ensures forall k :: 0 <= k < |EncodeFrom(s, col)| ==> !IsBlank(EncodeFrom(s, col)[k])
    decreases s
  {
    if s != [] {
      NoBareBlanks(s[1..], NextColumn(s[0], col));
    }
  }

  // ---- Where soft breaks stand ----

  const HEX: seq<byte> := [48, 49, 50, 51, 52, 53, 54, 55, 56, 57, 65, 66, 67, 68, 69, 70]

  /** How an octet is shown: as itself if it is printable and no equals sign, or a break, else in hexadecimal. */
  function Unit(c: byte): seq<byte> {
    if c == 13 || c == 10 || (33 <= c <= 126 && c != 61) then [c] else [61, HEX[c / 16], HEX[c % 16]]
  }

  /** Lines filled one unit after another: a soft break only where a unit and the sign after it make more than 76. */
  function Filled(s: seq<byte>, col: nat): seq<byte> {
    if s == [] then []
    else
      var unit := Unit(s[0]);
      if s[0] == 13 || s[0] == 10 then unit + Filled(s[1..], 0)
      else if col + |unit| + 1 > 76 then [61, 13, 10] + (unit + Filled(s[1..], |unit|))
      else unit + Filled(s[1..], col + |unit|)
  }

  lemma HexIs(d: nat)
    requires d < 16
    ensures HexDigit(d) == HEX[d]
  {
  }

  /** The encoder fills every line as far as the standard allows. */
  lemma {:induction false} FilledLines(s: seq<byte>, col: nat)
    ensures EncodeFrom(s, col) == Filled(s, col)
    decreases s
  {
    hide HexDigit;
    if s != [] {
      var c := s[0];
      HexIs(c / 16);
      HexIs(c % 16);
      FilledLines(s[1..], NextColumn(c, col));
      var rest := EncodeFrom(s[1..], NextColumn(c, col));
      assert [] + (Unit(c) + rest) == Unit(c) + rest;
    }
  }

  /** A text of at most 75 printable octets is written as it is. */
  lemma {:induction false} ShortAsIs(s: seq<byte>, col: nat)
    requires col + |s| <= 75 && forall c :: c in s ==> 33 <= c <= 126 && c != 61
    ensures EncodeFrom(s, col) == s
    decreases s
  {
    if s != [] {
      assert s[0] in s && s == [s[0]] + s[1..];
      assert forall c :: c in s[1..] ==> c in s;
      ShortAsIs(s[1..], col + 1);
    }
  }
}
