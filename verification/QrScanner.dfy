// A reader of finished symbols, written from ISO/IEC 18004: it takes the mask number
// from the format modules and undoes that mask along the zigzag.

module QrScanner {
  import opened Options
  import opened QrBits
  import opened QrLayout

  // ---- Format information, section 7.9 ----

  /** Around the top left finder, most significant bit first. */
  const FIRST_CELLS: seq<(nat, nat)> :=
    [(8, 0), (8, 1), (8, 2), (8, 3), (8, 4), (8, 5), (8, 7), (8, 8),
     (7, 8), (5, 8), (4, 8), (3, 8), (2, 8), (1, 8), (0, 8)]

  /** Up beside the bottom left finder, then on below the top right one. */
  const SECOND_CELLS: seq<(nat, nat)> :=
    [(20, 8), (19, 8), (18, 8), (17, 8), (16, 8), (15, 8), (14, 8),
     (8, 13), (8, 14), (8, 15), (8, 16), (8, 17), (8, 18), (8, 19), (8, 20)]

  /** The fixed pattern 101010000010010 that the format information is combined with. */
  const FORMAT_MASK: seq<bool> :=
    [true, false, true, false, true, false, false, false, false, false, true, false, false, true, false]

  /** The generator of the format code, 10100110111, below its leading bit. */
  const GENERATOR_TAIL: seq<bool> :=
    [false, true, false, false, true, true, false, true, true, true]

  predicate InSymbol(cells: seq<(nat, nat)>) {
    |cells| == 15 && forall i :: 0 <= i < 15 ==> cells[i].0 < SIZE && cells[i].1 < SIZE
  }

  /** The modules of one copy, with the fixed pattern taken off. */
  function FormatBits(m: array2<Cell>, cells: seq<(nat, nat)>): (bits: seq<bool>)
    requires IsSquare(m) && InSymbol(cells)
    reads m
    ensures |bits| == 15
  {
    seq(15, i requires IsSquare(m) && InSymbol(cells) && 0 <= i < 15 reads m =>
      (m[cells[i].0, cells[i].1] == Dark) != FORMAT_MASK[i])
  }

  /** The remainder of a bit string divided by the generator, without carries. */
  function Remainder(bits: seq<bool>): seq<bool>
    decreases |bits|
  {
    if |bits| <= 10 then bits
    else if bits[0] then Remainder(seq(10, i requires 0 <= i < 10 => bits[1 + i] != GENERATOR_TAIL[i]) + bits[11..])
    else Remainder(bits[1..])
  }

  function Number(bits: seq<bool>): nat {
    if bits == [] then 0 else 2 * Number(bits[..|bits| - 1]) + if bits[|bits| - 1] then 1 else 0
  }

  /** Error correction level as its two bits, and mask number. */
  datatype Format = Format(level: nat, mask: nat)

  /** Both copies must agree and be words of the format code. */
  function ReadFormat(m: array2<Cell>): Option<Format>
    requires IsSquare(m)
    reads m
  {
    var bits := FormatBits(m, FIRST_CELLS);
    if bits == FormatBits(m, SECOND_CELLS) && Remainder(bits) == seq(10, _ => false)
    then Some(Format(Number(bits[..2]), Number(bits[2..5]))) else None
  }

  // ---- Data, sections 7.7 and 7.8 ----

  /** Whether a mask pattern inverts the module in row `i` and column `j`. */
  predicate Inverts(mask: nat, i: nat, j: nat) {
    match mask
    case 0 => (i + j) % 2 == 0
    case 1 => i % 2 == 0
    case 2 => j % 3 == 0
    case 3 => (i + j) % 3 == 0
    case 4 => (i / 2 + j / 3) % 2 == 0
    case 5 => i * j % 2 + i * j % 3 == 0
    case 6 => (i * j % 2 + i * j % 3) % 2 == 0
    case 7 => ((i + j) % 2 + i * j % 3) % 2 == 0
    case _ => false
  }

  /** The bit of one module with the mask taken off, if it is a data module. */
  function ReadModule(m: array2<Cell>, mask: nat, r: nat, c: nat): seq<bool>
    requires IsSquare(m) && r < SIZE && c < SIZE
    reads m
  {
    if IsFunctional(r, c) then [] else [(m[r, c] == Dark) != Inverts(mask, r, c)]
  }

  function ReadColumn(m: array2<Cell>, mask: nat, pair: nat, rows: nat): seq<bool>
    requires IsSquare(m) && pair < 10 && rows <= SIZE
    reads m
  {
    if rows == 0 then []
    else
      var r := Row(pair, rows - 1);
      ReadColumn(m, mask, pair, rows - 1) + ReadModule(m, mask, r, Column(pair)) +
      ReadModule(m, mask, r, Column(pair) - 1)
  }

  /** All data modules in zigzag order. */
  function ReadBits(m: array2<Cell>, mask: nat, pairs: nat): seq<bool>
    requires IsSquare(m) && pairs <= 10
    reads m
  {
    if pairs == 0 then [] else ReadBits(m, mask, pairs - 1) + ReadColumn(m, mask, pairs - 1, SIZE)
  }

  /** The codewords of a symbol, if its format can be read. */
  function ReadCodewords(m: array2<Cell>): Option<seq<bv8>>
    requires IsSquare(m)
    reads m
  {
    match ReadFormat(m)
    case None => None
    case Some(format) => Some(Pack(ReadBits(m, format.mask, 10)))
  }

  // ---- The format word of level L and mask 0 ----

  /** Level 01, mask 000 and ten check bits. */
  const LOW_ZERO: seq<bool> :=
    [false, true, false, false, false, true, true, true, true, false, true, false, true, true, false]

  lemma {:induction false} RemainderStep(bits: seq<bool>, next: seq<bool>)
    requires |bits| > 10 && |next| == |bits| - 1
    requires forall i :: 0 <= i < |next| ==>
               next[i] == if bits[0] && i < 10 then bits[1 + i] != GENERATOR_TAIL[i] else bits[1 + i]
    ensures Remainder(bits) == Remainder(next)
  {
    if bits[0] {
      assert next == seq(10, i requires 0 <= i < 10 => bits[1 + i] != GENERATOR_TAIL[i]) + bits[11..];
    } else {
      assert next == bits[1..];
    }
  }

  lemma LowZeroHalf()
    ensures Remainder(LOW_ZERO) ==
            Remainder([false, true, false, true, false, false, true, true, false, true, true, true, false])
  {
    hide Remainder;
    var a := [true, false, false, false, true, true, true, true, false, true, false, true, true, false];
    RemainderStep(LOW_ZERO, a);
    var b := [false, true, false, true, false, false, true, true, false, true, true, true, false];
    RemainderStep(a, b);
  }

  /** It is a word of the format code. */
  lemma LowZeroValid()
    ensures Remainder(LOW_ZERO) == seq(10, _ => false)
  {
    hide Remainder;
    LowZeroHalf();
    var b := [false, true, false, true, false, false, true, true, false, true, true, true, false];
    var c := [true, false, true, false, false, true, true, false, true, true, true, false];
    RemainderStep(b, c);
    var d := [false, false, false, false, false, false, false, false, false, false, false];
    RemainderStep(c, d);
    LowZeroRest(d);
  }

  lemma LowZeroRest(d: seq<bool>)
    requires d == seq(11, _ => false)
    ensures Remainder(d) == seq(10, _ => false)
  {
    assert d[1..] == seq(10, _ => false);
  }

  lemma LowZeroSays()
    ensures Number(LOW_ZERO[..2]) == 1 && Number(LOW_ZERO[2..5]) == 0
  {
    NumberTwo(LOW_ZERO[..2]);
    NumberThree(LOW_ZERO[2..5]);
  }

  lemma NumberTwo(b: seq<bool>)
    requires |b| == 2
    ensures Number(b) == (if b[0] then 2 else 0) + if b[1] then 1 else 0
  {
    var first := b[..1];
    assert first[..0] == [] && Number(first[..0]) == 0;
    assert Number(first) == 2 * Number(first[..0]) + if first[0] then 1 else 0;
  }

  lemma NumberThree(b: seq<bool>)
    requires |b| == 3
    ensures Number(b) == (if b[0] then 4 else 0) + (if b[1] then 2 else 0) + if b[2] then 1 else 0
  {
    NumberTwo(b[..2]);
  }
}
