// Geometry of the 21 x 21 symbol: which modules carry function patterns, what
// those show, and the zigzag order in which the others carry data bits.

module QrLayout {

  const SIZE: nat := 21

  /** A module before and after it is drawn. */
  datatype Cell = Unfilled | Light | Dark

  function Module(b: bool): Cell {
    if b then Dark else Light
  }

  ghost predicate IsSquare<T>(m: array2<T>) {
    m.Length0 == SIZE && m.Length1 == SIZE
  }

  // ---- Function patterns ----

  /** Finder blocks with separators and format strips, and the two timing lines. */
  predicate IsFunctional(r: nat, c: nat) {
    (r <= 8 && (c <= 8 || c >= 13)) || (r >= 13 && c <= 8) || r == 6 || c == 6
  }

  /** A finder block: dark ring, light ring, dark 3 x 3 centre. */
  predicate FinderDark(dr: nat, dc: nat) {
    dr == 0 || dr == 6 || dc == 0 || dc == 6 || (2 <= dr <= 4 && 2 <= dc <= 4)
  }

  predicate InFinder(r: nat, c: nat) {
    (r < 7 && (c < 7 || c >= 14)) || (r >= 14 && c < 7)
  }

  predicate IsSeparator(r: nat, c: nat) {
    || (r == 7 && (c <= 7 || c >= 13)) || (r == 13 && c <= 7)
    || (c == 7 && (r <= 7 || r >= 13)) || (c == 13 && r <= 7)
  }

  predicate IsTiming(r: nat, c: nat) {
    (r == 6 && 8 <= c < 13) || (c == 6 && 8 <= r < 13)
  }

  /** Where bit `i` of the format word stands around the top left finder. */
  function FirstCopy(i: nat): (p: (nat, nat))
    requires i < 15
    ensures p.0 < SIZE && p.1 < SIZE
  {
    if i < 6 then (8, i) else if i == 6 then (8, 7) else if i == 7 then (8, 8)
    else if i == 8 then (7, 8) else (14 - i, 8)
  }

  /** Where bit `i` of the format word stands along the other two finders. */
  function SecondCopy(i: nat): (p: (nat, nat))
    requires i < 15
    ensures p.0 < SIZE && p.1 < SIZE
  {
    if i < 7 then (20 - i, 8) else (8, 6 + i)
  }

  predicate IsFormat(r: nat, c: nat) {
    || (r == 8 && c != 6 && (c <= 8 || 13 <= c < SIZE))
    || (c == 8 && r != 6 && (r <= 8 || 14 <= r < SIZE))
  }

  /** Which bit of the format word a format module shows. */
  function FormatIndex(r: nat, c: nat): (i: nat)
    requires IsFormat(r, c)
    ensures i < 15
  {
    if r == 8 then
      if c < 6 then c else if c <= 8 then c - 1 else c - 6
    else
      if r < 6 then 14 - r else if r == 7 then 8 else 20 - r
  }

  /** ECC level L, mask 0, with its check bits. */
  const FORMAT: bv16 := 0x77C4

  predicate FormatBit(i: nat)
    requires i < 15
  {
    (FORMAT >> (14 - i)) & 1 == 1
  }

  /** The finished look of a function module. */
  predicate PatternDark(r: nat, c: nat)
    requires IsFunctional(r, c) && r < SIZE && c < SIZE
  {
    if InFinder(r, c) then FinderDark(r % 14, c % 14)
    else if IsSeparator(r, c) then false
    else if IsTiming(r, c) then (if r == 6 then c else r) % 2 == 0
    else if IsFormat(r, c) then FormatBit(FormatIndex(r, c))
    else true
  }

  /** The five regions cover the function modules, but for the one dark module at (13, 8). */
  lemma FunctionalRegions(r: nat, c: nat)
    requires r < SIZE && c < SIZE
    ensures IsFunctional(r, c) <==>
            InFinder(r, c) || IsSeparator(r, c) || IsTiming(r, c) || IsFormat(r, c) || (r == 13 && c == 8)
    ensures IsFormat(r, c) ==> !InFinder(r, c) && !IsSeparator(r, c) && !IsTiming(r, c)
    ensures IsTiming(r, c) ==> !InFinder(r, c) && !IsSeparator(r, c)
    ensures IsSeparator(r, c) ==> !InFinder(r, c)
  {
  }

  /** The distance of a module from the third row or column of a finder block. */
  function FromCentre(k: nat): nat {
    if k < 3 then 3 - k else k - 3
  }

  /** A finder block consists of square rings: all dark but the one two steps from the centre. */
  lemma FinderRings(dr: nat, dc: nat)
    requires dr < 7 && dc < 7
    ensures var ring := if FromCentre(dr) > FromCentre(dc) then FromCentre(dr) else FromCentre(dc);
            FinderDark(dr, dc) <==> ring != 2
  {
  }

  /** The run a scanner looks for: dark 1, light 1, dark 3, light 1, dark 1. */
  predicate ScanRun(k: nat) {
    k != 1 && k != 5
  }

  predicate FinderCorner(r: nat, c: nat) {
    (r == 0 && c == 0) || (r == 0 && c == 14) || (r == 14 && c == 0)
  }

  /** Through the centre of each finder block the scanner's run shows both across and down, between light separators. */
  lemma FinderRun(r: nat, c: nat, k: nat)
    requires FinderCorner(r, c) && k < 7
    ensures PatternDark(r + 3, c + k) == ScanRun(k) && PatternDark(r + k, c + 3) == ScanRun(k)
    ensures !PatternDark(r + 3, if c == 0 then 7 else 13) && !PatternDark(if r == 0 then 7 else 13, c + 3)
  {
  }

  /** Each copy of the format word shows every one of its bits once. */
  lemma FormatPositions(i: nat)
    requires i < 15
    ensures var (r, c) := FirstCopy(i); IsFormat(r, c) && FormatIndex(r, c) == i
    ensures var (r, c) := SecondCopy(i); IsFormat(r, c) && FormatIndex(r, c) == i
  {
  }

  lemma FormatCovered(r: nat, c: nat)
    requires IsFormat(r, c)
    ensures (r, c) == FirstCopy(FormatIndex(r, c)) || (r, c) == SecondCopy(FormatIndex(r, c))
  {
  }

  /** Carryless multiples of the format code's generator polynomial 0x537. */
  lemma FormatWordValid()
    ensures (FORMAT ^ 0x5412) >> 10 == 0x8
    ensures FORMAT ^ 0x5412 == (0x537 << 3) ^ (0x537 << 1)
  {
  }

  // ---- The zigzag ----

  /** The right-hand column of the n-th column pair; the timing column is skipped. */
  function Column(pair: nat): (c: nat)
    requires pair < 10
    ensures 1 <= c < SIZE
  {
    if pair < 7 then 20 - 2 * pair else 19 - 2 * pair
  }

  /** The row visited after `off` others: pairs run up and down in turn. */
  function Row(pair: nat, off: nat): (r: nat)
    requires off < SIZE
    ensures r < SIZE
  {
    if pair % 2 == 0 then 20 - off else off
  }

  function PairOf(c: nat): (pair: nat)
    requires c < SIZE && c != 6
    ensures pair < 10 && Column(pair) - 1 <= c <= Column(pair)
  {
    if c > 6 then (20 - c) / 2 else (5 - c) / 2 + 7
  }

  lemma PairOfColumn(pair: nat, side: nat)
    requires pair < 10 && side < 2
    ensures Column(pair) - side != 6
    ensures PairOf(Column(pair) - side) == pair
  {
  }

  /** How many of the first `off` rows of a column pair carry data. */
  function DataRows(pair: nat, off: nat): nat
    requires pair < 10
  {
    if off == 0 then 0
    else DataRows(pair, off - 1) + (if off <= SIZE && !IsFunctional(Row(pair, off - 1), Column(pair)) then 1 else 0)
  }

  /** Both modules of a row of a pair carry data, or neither does. */
  lemma RowUniform(pair: nat, off: nat)
    requires pair < 10 && off < SIZE
    ensures IsFunctional(Row(pair, off), Column(pair)) == IsFunctional(Row(pair, off), Column(pair) - 1)
  {
  }

  function Clamp(n: int, high: nat): nat {
    if n < 0 then 0 else if n > high then high else n
  }

  lemma {:induction false} DataRowsClosed(pair: nat, off: nat)
    requires pair < 10 && off <= SIZE
    ensures DataRows(pair, off) ==
            if pair < 4 then (if pair % 2 == 0 then Clamp(off, 12) else Clamp(off - 9, 12))
            else if pair == 4 then (if off > 14 then off - 1 else off)
            else if pair == 5 then (if off > 6 then off - 1 else off)
            else (if pair % 2 == 0 then Clamp(off - 8, 4) else Clamp(off - 9, 4))
  {
    if off > 0 {
      DataRowsClosed(pair, off - 1);
    }
  }

  /** Data bits carried by the first `pairs` column pairs. */
  function BitsBefore(pairs: nat): nat
    requires pairs <= 10
  {
    if pairs == 0 then 0 else BitsBefore(pairs - 1) + 2 * DataRows(pairs - 1, SIZE)
  }

  /** Exactly the 208 bits of 26 codewords fit. */
  lemma Capacity()
    ensures BitsBefore(10) == 26 * 8
  {
    DataRowsClosed(0, SIZE);
    DataRowsClosed(1, SIZE);
    DataRowsClosed(2, SIZE);
    DataRowsClosed(3, SIZE);
    DataRowsClosed(4, SIZE);
    DataRowsClosed(5, SIZE);
    DataRowsClosed(6, SIZE);
    DataRowsClosed(7, SIZE);
    DataRowsClosed(8, SIZE);
    DataRowsClosed(9, SIZE);
    assert BitsBefore(5) == 136;
  }

  /** Which data bit a data module carries. */
  function DataIndex(r: nat, c: nat): nat
    requires r < SIZE && c < SIZE && !IsFunctional(r, c)
  {
    var pair := PairOf(c);
    BitsBefore(pair) + 2 * DataRows(pair, Row(pair, r)) + (Column(pair) - c)
  }
}
