// Drawing the symbol: function patterns first, then the codeword bits along the
// zigzag, each exclusive-ored with mask 0.

module QrMatrix {
  import opened Options
  import opened GaloisField
  import opened ReedSolomon
  import opened QrBits
  import opened QrLayout
  import opened QrScanner
  import opened Sequences

  /** The bit a data module shows once mask 0 has inverted every other module. */
  predicate Masked(r: nat, c: nat, b: bool) {
    if (r + c) % 2 == 0 then !b else b
  }

  predicate BitAt(bits: seq<bool>, i: nat) {
    i < |bits| && bits[i]
  }

  // ---- Function patterns ----

  /** Draws one module and marks it as taken, if it lies inside the symbol. */
  method Mark(m: array2<Cell>, f: array2<bool>, r: int, c: int, v: Cell)
    requires IsSquare(m) && IsSquare(f)
    modifies m, f
    ensures forall i, j :: 0 <= i < SIZE && 0 <= j < SIZE ==>
              m[i, j] == (if i == r && j == c then v else old(m[i, j]))
              && f[i, j] == ((i == r && j == c) || old(f[i, j]))
  {
    if 0 <= r < SIZE && 0 <= c < SIZE {
      m[r, c] := v;
      f[r, c] := true;
    }
  }

  method DrawFinder(m: array2<Cell>, f: array2<bool>, r: nat, c: nat)
    requires IsSquare(m) && IsSquare(f)
    modifies m, f
    ensures forall i: nat, j: nat :: i < SIZE && j < SIZE ==>
              var hit := r <= i < r + 7 && c <= j < c + 7;
              m[i, j] == (if hit then Module(FinderDark(i - r, j - c)) else old(m[i, j]))
              && f[i, j] == (hit || old(f[i, j]))
  {
    for dr := 0 to 7
      invariant forall i: nat, j: nat :: i < SIZE && j < SIZE ==>
                  var hit := r <= i < r + dr && c <= j < c + 7;
                  m[i, j] == (if hit then Module(FinderDark(i - r, j - c)) else old(m[i, j]))
                  && f[i, j] == (hit || old(f[i, j]))
    {
      for dc := 0 to 7
        invariant forall i: nat, j: nat :: i < SIZE && j < SIZE ==>
                    var hit := (r <= i < r + dr && c <= j < c + 7) || (i == r + dr && c <= j < c + dc);
                    m[i, j] == (if hit then Module(FinderDark(i - r, j - c)) else old(m[i, j]))
                    && f[i, j] == (hit || old(f[i, j]))
      {
        if r + dr < SIZE && c + dc < SIZE {
          m[r + dr, c + dc] := Module(FinderDark(dr, dc));
          f[r + dr, c + dc] := true;
        }
      }
    }
  }

  method DrawSeparators(m: array2<Cell>, f: array2<bool>)
    requires IsSquare(m) && IsSquare(f)
    modifies m, f
    ensures forall r: nat, c: nat :: r < SIZE && c < SIZE ==>
              m[r, c] == (if IsSeparator(r, c) then Light else old(m[r, c]))
              && f[r, c] == (IsSeparator(r, c) || old(f[r, c]))
  {
    for i := 0 to 8
      invariant forall r: nat, c: nat :: r < SIZE && c < SIZE ==>
                  var hit := SeparatorBefore(r, c, i);
                  m[r, c] == (if hit then Light else old(m[r, c])) && f[r, c] == (hit || old(f[r, c]))
    {
      Mark(m, f, 7, i, Light);
      Mark(m, f, i, 7, Light);
      Mark(m, f, 7, SIZE - 1 - i, Light);
      Mark(m, f, i, SIZE - 8, Light);
      Mark(m, f, SIZE - 8, i, Light);
      Mark(m, f, SIZE - 1 - i, 7, Light);
    }
  }

  /** The separator modules drawn in the first `n` turns of the loop. */
  predicate SeparatorBefore(r: nat, c: nat, n: nat) {
    || (r == 7 && (c < n || 20 < c + n)) || (r == 13 && c < n)
    || (c == 7 && (r < n || 20 < r + n)) || (c == 13 && r < n)
  }

  method DrawTiming(m: array2<Cell>, f: array2<bool>)
    requires IsSquare(m) && IsSquare(f)
    modifies m, f
    ensures forall r: nat, c: nat :: r < SIZE && c < SIZE ==>
              m[r, c] == (if IsTiming(r, c) then Module((if r == 6 then c else r) % 2 == 0) else old(m[r, c]))
              && f[r, c] == (IsTiming(r, c) || old(f[r, c]))
  {
    for i := 8 to SIZE - 8
      invariant forall r: nat, c: nat :: r < SIZE && c < SIZE ==>
                  var hit := (r == 6 && 8 <= c < i) || (c == 6 && 8 <= r < i);
                  m[r, c] == (if hit then Module((if r == 6 then c else r) % 2 == 0) else old(m[r, c]))
                  && f[r, c] == (hit || old(f[r, c]))
    {
      m[6, i], m[i, 6] := Module(i % 2 == 0), Module(i % 2 == 0);
      f[6, i], f[i, 6] := true, true;
    }
  }

  method DrawFormat(m: array2<Cell>, f: array2<bool>)
    requires IsSquare(m) && IsSquare(f)
    modifies m, f
    ensures forall r: nat, c: nat :: r < SIZE && c < SIZE ==>
              m[r, c] == (if IsFormat(r, c) then Module(FormatBit(FormatIndex(r, c))) else old(m[r, c]))
              && f[r, c] == (IsFormat(r, c) || old(f[r, c]))
  {
    hide FormatBit;
    for i := 0 to 15
      invariant forall r: nat, c: nat :: r < SIZE && c < SIZE ==>
                  var hit := IsFormat(r, c) && FormatIndex(r, c) < i;
                  m[r, c] == (if hit then Module(FormatBit(FormatIndex(r, c))) else old(m[r, c]))
                  && f[r, c] == (hit || old(f[r, c]))
    {
      var p, q := FirstCopy(i), SecondCopy(i);
      FormatPositions(i);
      Mark(m, f, p.0, p.1, Module(FormatBit(i)));
      Mark(m, f, q.0, q.1, Module(FormatBit(i)));
      forall r: nat, c: nat | r < SIZE && c < SIZE && IsFormat(r, c) && FormatIndex(r, c) == i
        ensures (r, c) == p || (r, c) == q
      {
        FormatCovered(r, c);
      }
    }
  }

  /** All function patterns on a blank symbol. */
  method DrawPatterns() returns (m: array2<Cell>, f: array2<bool>)
    ensures IsSquare(m) && IsSquare(f) && fresh(m) && fresh(f)
    ensures forall r: nat, c: nat :: r < SIZE && c < SIZE ==>
              f[r, c] == IsFunctional(r, c)
              && m[r, c] == if IsFunctional(r, c) then Module(PatternDark(r, c)) else Unfilled
  {
    hide FinderDark, FormatBit;
    m := new Cell[SIZE, SIZE]((_, _) => Unfilled);
    f := new bool[SIZE, SIZE]((_, _) => false);
    DrawFinder(m, f, 0, 0);
    DrawFinder(m, f, 0, 14);
    DrawFinder(m, f, 14, 0);
    DrawSeparators(m, f);
    DrawTiming(m, f);
    DrawFormat(m, f);
    Mark(m, f, SIZE - 8, 8, Dark);
    forall r: nat, c: nat | r < SIZE && c < SIZE
      ensures f[r, c] == IsFunctional(r, c)
      ensures m[r, c] == if IsFunctional(r, c) then Module(PatternDark(r, c)) else Unfilled
    {
      FunctionalRegions(r, c);
    }
  }

  // ---- Data ----

  /** The module at (r, c) comes before step (pair, off, side) of the zigzag. */
  predicate Visited(r: nat, c: nat, pair: nat, off: nat, side: nat)
    requires r < SIZE && c < SIZE && c != 6
  {
    var p := PairOf(c);
    p < pair || (p == pair && (Row(p, r) < off || (Row(p, r) == off && Column(p) - c < side)))
  }

  /** The symbol once the zigzag has come to step (pair, off, side). */
  ghost function Drawn(bits: seq<bool>, pair: nat, off: nat, side: nat, r: nat, c: nat): Cell
    requires r < SIZE && c < SIZE
  {
    if IsFunctional(r, c) then Module(PatternDark(r, c))
    else if Visited(r, c, pair, off, side) then Module(Masked(r, c, BitAt(bits, DataIndex(r, c))))
    else Unfilled
  }

  ghost predicate Holds(m: array2<Cell>, bits: seq<bool>, pair: nat, off: nat, side: nat)
    requires IsSquare(m)
    reads m
  {
    forall r: nat, c: nat :: r < SIZE && c < SIZE ==> m[r, c] == Drawn(bits, pair, off, side, r, c)
  }

  /** The bit index a step of the zigzag has reached. */
  ghost function BitIndex(pair: nat, off: nat, side: nat): nat
    requires pair < 10 && off < SIZE && side <= 2
  {
    BitsBefore(pair) + 2 * DataRows(pair, off) + if IsFunctional(Row(pair, off), Column(pair)) then 0 else side
  }

  lemma StepCell(pair: nat, off: nat, side: nat)
    requires pair < 10 && off < SIZE && side < 2
    ensures var r, c := Row(pair, off), Column(pair) - side;
            && c != 6 && IsFunctional(r, c) == IsFunctional(r, Column(pair))
            && Row(pair, r) == off && PairOf(c) == pair
            && (!IsFunctional(r, c) ==> DataIndex(r, c) == BitIndex(pair, off, side))
  {
    PairOfColumn(pair, side);
    RowUniform(pair, off);
  }

  /** Only the cell of a step itself changes its visited state in that step. */
  lemma StepVisits(pair: nat, off: nat, side: nat, r: nat, c: nat)
    requires pair < 10 && off < SIZE && side < 2 && r < SIZE && c < SIZE && c != 6
    ensures Visited(r, c, pair, off, side + 1) ==
            (Visited(r, c, pair, off, side) || (r == Row(pair, off) && c == Column(pair) - side))
    ensures !(Visited(Row(pair, off), Column(pair) - side, pair, off, side))
  {
    PairOfColumn(pair, side);
  }

  lemma RowVisits(pair: nat, off: nat, r: nat, c: nat)
    requires pair < 10 && off < SIZE && r < SIZE && c < SIZE && c != 6
    ensures Visited(r, c, pair, off, 2) == Visited(r, c, pair, off + 1, 0)
    ensures Visited(r, c, pair, SIZE, 0) == Visited(r, c, pair + 1, 0, 0)
  {
  }

  lemma StepHolds(bits: seq<bool>, pair: nat, off: nat, side: nat)
    requires pair < 10 && off < SIZE && side < 2
    ensures forall r: nat, c: nat :: r < SIZE && c < SIZE ==>
              Drawn(bits, pair, off, side + 1, r, c) ==
              if !IsFunctional(r, c) && r == Row(pair, off) && c == Column(pair) - side
              then Module(Masked(r, c, BitAt(bits, BitIndex(pair, off, side))))
              else Drawn(bits, pair, off, side, r, c)
  {
    hide DataIndex, BitIndex, Masked, BitAt, PatternDark, Visited;
    StepCell(pair, off, side);
    forall r: nat, c: nat | r < SIZE && c < SIZE && !IsFunctional(r, c)
      ensures Drawn(bits, pair, off, side + 1, r, c) ==
              if r == Row(pair, off) && c == Column(pair) - side
              then Module(Masked(r, c, BitAt(bits, BitIndex(pair, off, side))))
              else Drawn(bits, pair, off, side, r, c)
    {
      StepVisits(pair, off, side, r, c);
    }
  }

  lemma RowHolds(bits: seq<bool>, pair: nat, off: nat)
    requires pair < 10 && off < SIZE
    ensures forall r: nat, c: nat :: r < SIZE && c < SIZE ==>
              Drawn(bits, pair, off, 2, r, c) == Drawn(bits, pair, off + 1, 0, r, c)
    ensures forall r: nat, c: nat :: r < SIZE && c < SIZE ==>
              Drawn(bits, pair, SIZE, 0, r, c) == Drawn(bits, pair + 1, 0, 0, r, c)
  {
    hide DataIndex, Masked, BitAt, PatternDark, Visited;
    forall r: nat, c: nat | r < SIZE && c < SIZE && !IsFunctional(r, c)
      ensures Drawn(bits, pair, off, 2, r, c) == Drawn(bits, pair, off + 1, 0, r, c)
      ensures Drawn(bits, pair, SIZE, 0, r, c) == Drawn(bits, pair + 1, 0, 0, r, c)
    {
      RowVisits(pair, off, r, c);
    }
  }

  lemma {:induction false} DataRowsMonotone(pair: nat, off: nat, high: nat)
    requires pair < 10 && off <= high
    ensures DataRows(pair, off) <= DataRows(pair, high)
    decreases high
  {
    if off < high {
      DataRowsMonotone(pair, off, high - 1);
    }
  }

  lemma {:induction false} BitsBeforeMonotone(low: nat, high: nat)
    requires low <= high <= 10
    ensures BitsBefore(low) <= BitsBefore(high)
    decreases high
  {
    if low < high {
      BitsBeforeMonotone(low, high - 1);
    }
  }

  /** There is a codeword bit for every data module. */
  lemma BitIndexInRange(pair: nat, off: nat, side: nat)
    requires pair < 10 && off < SIZE && side < 2 && !IsFunctional(Row(pair, off), Column(pair))
    ensures BitIndex(pair, off, side) < 208
  {
    hide IsFunctional;
    assert DataRows(pair, off + 1) == DataRows(pair, off) + 1;
    DataRowsMonotone(pair, off + 1, SIZE);
    assert BitsBefore(pair + 1) == BitsBefore(pair) + 2 * DataRows(pair, SIZE);
    BitsBeforeMonotone(pair + 1, 10);
    Capacity();
  }

  /** The two modules of one row of a column pair. */
  method PlaceRow(m: array2<Cell>, f: array2<bool>, bits: seq<bool>, ghost pair: nat, ghost off: nat,
                  row: nat, col: nat, start: nat) returns (bitIdx: nat)
    requires IsSquare(m) && IsSquare(f)
    requires forall r: nat, c: nat :: r < SIZE && c < SIZE ==> f[r, c] == IsFunctional(r, c)
    requires pair < 10 && off < SIZE && row == Row(pair, off) && col == Column(pair)
    requires Holds(m, bits, pair, off, 0) && |bits| == 208 && start == BitIndex(pair, off, 0)
    modifies m
    ensures Holds(m, bits, pair, off + 1, 0)
    ensures bitIdx == BitsBefore(pair) + 2 * DataRows(pair, off + 1)
  {
    hide Drawn, Masked, PatternDark, IsFunctional, Row, Column, BitsBefore;
    bitIdx := start;
    for c2 := 0 to 2
      invariant bitIdx == BitIndex(pair, off, c2)
      invariant Holds(m, bits, pair, off, c2)
    {
      StepCell(pair, off, c2);
      StepHolds(bits, pair, off, c2);
      var r, c := row, col - c2;
      if !f[r, c] {
        BitIndexInRange(pair, off, c2);
        var bit := false;
        if bitIdx < |bits| {
          bit := bits[bitIdx];
          bitIdx := bitIdx + 1;
        }
        m[r, c] := Module(Masked(r, c, bit));
      }
    }
    RowHolds(bits, pair, off);
  }

  /** The placement loops: columns from the right, skipping the timing column, up and down in turn. */
  method PlaceData(m: array2<Cell>, f: array2<bool>, bits: seq<bool>)
    requires IsSquare(m) && IsSquare(f)
    requires forall r: nat, c: nat :: r < SIZE && c < SIZE ==> f[r, c] == IsFunctional(r, c)
    requires Holds(m, bits, 0, 0, 0) && |bits| == 208
    modifies m
    ensures Holds(m, bits, 10, 0, 0)
  {
    hide Drawn, PatternDark, IsFunctional, DataRows;
    NothingBefore();
    var bitIdx, up, col := 0, true, SIZE - 1;
    ghost var pair := 0;
    while col >= 0
      invariant 0 <= pair <= 10 && col == (if pair < 8 then 20 - 2 * pair else 19 - 2 * pair)
      invariant up == (pair % 2 == 0) && bitIdx == BitsBefore(pair)
      invariant Holds(m, bits, pair, 0, 0)
      decreases col
    {
      if col == 6 {
        col := 5;
      }
      EmptyColumn(pair);
      for rowOff := 0 to SIZE
        invariant bitIdx == BitsBefore(pair) + 2 * DataRows(pair, rowOff)
        invariant Holds(m, bits, pair, rowOff, 0)
      {
        var row := if up then SIZE - 1 - rowOff else rowOff;
        bitIdx := PlaceRow(m, f, bits, pair, rowOff, row, col, bitIdx);
      }
      RowHolds(bits, pair, 0);
      up := !up;
      pair := pair + 1;
      col := col - 2;
    }
  }

  lemma NothingBefore()
    ensures BitsBefore(0) == 0
  {
  }

  lemma EmptyColumn(pair: nat)
    requires pair < 10
    ensures DataRows(pair, 0) == 0
  {
  }

  // ---- A reader ----

  /** Mask 0 taken off again. */
  lemma MaskTwice(r: nat, c: nat, b: bool)
    ensures (Masked(r, c, b) != Inverts(0, r, c)) == b
  {
  }

  lemma ReadModuleBit(m: array2<Cell>, bits: seq<bool>, pair: nat, off: nat, side: nat)
    requires IsSquare(m) && Holds(m, bits, 10, 0, 0) && |bits| == 208
    requires pair < 10 && off < SIZE && side < 2
    ensures ReadModule(m, 0, Row(pair, off), Column(pair) - side) ==
            if IsFunctional(Row(pair, off), Column(pair)) then [] else [BitAt(bits, BitIndex(pair, off, side))]
    ensures !IsFunctional(Row(pair, off), Column(pair)) ==> BitIndex(pair, off, side) < 208
  {
    hide PatternDark, DataIndex, Masked, Inverts;
    StepCell(pair, off, side);
    if !IsFunctional(Row(pair, off), Column(pair)) {
      BitIndexInRange(pair, off, side);
      MaskTwice(Row(pair, off), Column(pair) - side, BitAt(bits, BitIndex(pair, off, side)));
      assert Visited(Row(pair, off), Column(pair) - side, 10, 0, 0);
    }
  }

  /** The data index at which a row of a column pair begins. */
  ghost function RowStart(pair: nat, rows: nat): nat
    requires pair < 10
  {
    BitsBefore(pair) + 2 * DataRows(pair, rows)
  }

  lemma RowStartInRange(pair: nat, rows: nat)
    requires pair < 10 && rows <= SIZE
    ensures RowStart(pair, rows) <= 208
  {
    hide IsFunctional;
    DataRowsMonotone(pair, rows, SIZE);
    BitsBeforeMonotone(pair + 1, 10);
    assert BitsBefore(pair + 1) == BitsBefore(pair) + 2 * DataRows(pair, SIZE);
    Capacity();
  }

  lemma ReadRowBits(m: array2<Cell>, bits: seq<bool>, pair: nat, off: nat)
    requires IsSquare(m) && Holds(m, bits, 10, 0, 0) && |bits| == 208
    requires pair < 10 && off < SIZE
    ensures RowStart(pair, off) <= RowStart(pair, off + 1) <= 208
    ensures ReadModule(m, 0, Row(pair, off), Column(pair)) + ReadModule(m, 0, Row(pair, off), Column(pair) - 1) ==
            bits[RowStart(pair, off)..RowStart(pair, off + 1)]
  {
    hide IsFunctional, Row, Column, Holds, ReadModule;
    RowStartInRange(pair, off + 1);
    ReadModuleBit(m, bits, pair, off, 0);
    ReadModuleBit(m, bits, pair, off, 1);
  }

  lemma ReadColumnStep(m: array2<Cell>, pair: nat, rows: nat)
    requires IsSquare(m) && pair < 10 && 0 < rows <= SIZE
    ensures var r := Row(pair, rows - 1);
            ReadColumn(m, 0, pair, rows) ==
            ReadColumn(m, 0, pair, rows - 1) +
            (ReadModule(m, 0, r, Column(pair)) + ReadModule(m, 0, r, Column(pair) - 1))
  {
    hide ReadModule, Row, Column;
    var r := Row(pair, rows - 1);
    Regroup(ReadColumn(m, 0, pair, rows - 1), ReadModule(m, 0, r, Column(pair)), ReadModule(m, 0, r, Column(pair) - 1));
  }

  lemma NoRows(pair: nat)
    requires pair < 10
    ensures RowStart(pair, 0) == BitsBefore(pair)
  {
  }

  lemma {:induction false} ReadColumnBits(m: array2<Cell>, bits: seq<bool>, pair: nat, rows: nat)
    requires IsSquare(m) && Holds(m, bits, 10, 0, 0) && |bits| == 208
    requires pair < 10 && rows <= SIZE
    ensures BitsBefore(pair) <= RowStart(pair, rows) <= 208
    ensures ReadColumn(m, 0, pair, rows) == bits[BitsBefore(pair)..RowStart(pair, rows)]
    decreases rows
  {
    hide IsFunctional, Row, Column, Holds, ReadModule, RowStart, BitsBefore;
    RowStartInRange(pair, rows);
    if rows > 0 {
      ReadColumnBits(m, bits, pair, rows - 1);
      ReadRowBits(m, bits, pair, rows - 1);
      JoinSlices(bits, BitsBefore(pair), RowStart(pair, rows - 1), RowStart(pair, rows));
      ReadColumnStep(m, pair, rows);
    } else {
      NoRows(pair);
    }
  }

  /** Reading the finished symbol in zigzag order gives back exactly the placed bits. */
  lemma {:induction false} ReadPlaced(m: array2<Cell>, bits: seq<bool>, pairs: nat)
    requires IsSquare(m) && Holds(m, bits, 10, 0, 0) && |bits| == 208 && pairs <= 10
    ensures BitsBefore(pairs) <= 208 && ReadBits(m, 0, pairs) == bits[..BitsBefore(pairs)]
    decreases pairs
  {
    hide Holds, ReadColumn;
    if pairs > 0 {
      ReadPlaced(m, bits, pairs - 1);
      ReadColumnBits(m, bits, pairs - 1, SIZE);
    }
  }

  // ---- The whole encoder ----

  /** The low byte of each UTF-16 code unit. */
  function LowBytes(text: seq<bv16>): (bytes: seq<bv8>)
    ensures |bytes| == |text|
  {
    seq(|text|, i requires 0 <= i < |text| => Narrow(text[i]))
  }

  lemma FormatWord(i: nat)
    requires i < 15
    ensures FormatBit(i) != FORMAT_MASK[i] <==> LOW_ZERO[i]
  {
  }

  /** The copies hold the format word from its first bit to its last. */
  lemma FormatCells(i: nat)
    requires i < 15
    ensures FIRST_CELLS[i] == FirstCopy(i) && SECOND_CELLS[i] == SecondCopy(i)
  {
  }

  /** Both copies of a drawn format word are read as level L and mask 0. */
  lemma FormatDrawn(m: array2<Cell>, bits: seq<bool>)
    requires IsSquare(m) && Holds(m, bits, 10, 0, 0)
    ensures ReadFormat(m) == Some(Format(1, 0))
  {
    hide FormatBit, FormatIndex, IsFormat, Drawn, Remainder, Number;
    forall i: nat | i < 15
      ensures FormatBits(m, FIRST_CELLS)[i] == LOW_ZERO[i] && FormatBits(m, SECOND_CELLS)[i] == LOW_ZERO[i]
    {
      FormatCells(i);
      FormatWord(i);
      FormatPositions(i);
      FormatShown(m, bits, FirstCopy(i).0, FirstCopy(i).1);
      FormatShown(m, bits, SecondCopy(i).0, SecondCopy(i).1);
    }
    assert FormatBits(m, FIRST_CELLS) == LOW_ZERO == FormatBits(m, SECOND_CELLS);
    LowZeroValid();
    LowZeroSays();
  }

  lemma FormatShown(m: array2<Cell>, bits: seq<bool>, r: nat, c: nat)
    requires IsSquare(m) && Holds(m, bits, 10, 0, 0) && r < SIZE && c < SIZE && IsFormat(r, c)
    ensures m[r, c] == Module(FormatBit(FormatIndex(r, c)))
  {
    hide FormatBit, FormatIndex;
    FunctionalRegions(r, c);
  }

  /** The codewords are read under the mask that the symbol itself announces. */
  lemma ReadSymbol(m: array2<Cell>, full: seq<bv8>)
    requires IsSquare(m) && |full| == 26 && Holds(m, Unpack(full), 10, 0, 0)
    ensures ReadFormat(m) == Some(Format(1, 0)) && ReadCodewords(m) == Some(full)
    ensures |ReadBits(m, 0, 10)| == 208
  {
    hide Holds, ReadBits, Pack, Unpack, BitsBefore, ReadFormat;
    FormatDrawn(m, Unpack(full));
    ReadPlaced(m, Unpack(full), 10);
    Capacity();
    PackUnpack(full);
    assert Unpack(full)[..208] == Unpack(full);
  }

  lemma AllVisited(m: array2<Cell>, bits: seq<bool>)
    requires IsSquare(m) && Holds(m, bits, 10, 0, 0)
    ensures forall r: nat, c: nat :: r < SIZE && c < SIZE ==> m[r, c] != Unfilled
    ensures forall r: nat, c: nat :: r < SIZE && c < SIZE && IsFunctional(r, c) ==> m[r, c] == Module(PatternDark(r, c))
  {
    hide PatternDark;
    forall r: nat, c: nat | r < SIZE && c < SIZE && !IsFunctional(r, c) ensures Visited(r, c, 10, 0, 0) {
      assert PairOf(c) < 10;
    }
  }

  /** The symbol for some text bytes: patterns in place, and all modules set from one completed codeword. */
  ghost predicate IsLabel(m: array2<Cell>, bytes: seq<bv8>)
    reads m
  {
    && IsSquare(m)
    && exists full :: IsFull(full, bytes) && Holds(m, Unpack(full), 10, 0, 0)
  }

  /** The data codewords of some bytes, completed to a Reed-Solomon codeword. */
  ghost predicate IsFull(full: seq<bv8>, bytes: seq<bv8>) {
    |full| == 26 && full[..19] == DataCodewords(bytes) && IsCodeword(full, 7)
  }

  /** The codewords as one run of bits. */
  method CodewordBits(full: seq<bv8>) returns (allBits: seq<bool>)
    ensures allBits == Unpack(full)
  {
    hide Unpack;
    allBits := [];
    NothingUnpacked();
    for k := 0 to |full|
      invariant allBits == Unpack(full[..k])
    {
      allBits := AddBits(allBits, full[k], 8);
      UnpackSnoc(full[..k], full[k]);
      assert full[..k + 1] == full[..k] + [full[k]];
    }
    assert full[..|full|] == full;
  }

  /**
   * A label symbol. Every module is drawn, the function patterns are in place, and a reader that takes
   * the mask from the format modules finds a codeword whose data part says the first 17 bytes of the text.
   */
  method Encode(t: Tables, text: seq<bv16>) returns (m: array2<Cell>)
    requires t.Valid()
    ensures IsSquare(m)
    ensures forall r: nat, c: nat :: r < SIZE && c < SIZE ==> m[r, c] != Unfilled
    ensures forall r: nat, c: nat :: r < SIZE && c < SIZE && IsFunctional(r, c) ==> m[r, c] == Module(PatternDark(r, c))
    ensures ReadFormat(m) == Some(Format(1, 0))
    ensures var full := ReadCodewords(m);
            && full.Some? && |full.value| == 26 && IsCodeword(full.value, 7)
            && full.value[..19] == DataCodewords(LowBytes(text))
            && ReadText(full.value) == Some(LowBytes(text)[..Carried(LowBytes(text))])
    ensures IsLabel(m, LowBytes(text))
  {
    hide PatternDark, IsCodeword, DataCodewords, ReadText, Pack, Unpack, Holds, Drawn, ReadBits, IsFunctional;
    hide ReadFormat;
    var bytes := LowBytes(text);
    var codewords := BuildCodewords(bytes);
    var ecc := RsEcc(t, codewords[..MAX_DATA], 7);
    assert codewords[..MAX_DATA] == codewords;
    var full := codewords + ecc;
    ReadBack(bytes, ecc);
    assert full[..19] == codewords;
    var allBits := CodewordBits(full);
    var f;
    m, f := DrawPatterns();
    BlankHolds(m, allBits);
    PlaceData(m, f, allBits);
    ReadSymbol(m, full);
    AllVisited(m, allBits);
    assert IsFull(full, bytes);
  }

  lemma BlankHolds(m: array2<Cell>, bits: seq<bool>)
    requires IsSquare(m)
    requires forall r: nat, c: nat :: r < SIZE && c < SIZE ==>
               m[r, c] == if IsFunctional(r, c) then Module(PatternDark(r, c)) else Unfilled
    ensures Holds(m, bits, 0, 0, 0)
  {
    hide PatternDark, IsFunctional;
  }
}
