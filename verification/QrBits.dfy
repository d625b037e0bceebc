// The bit stream of a QR label: byte-mode header, text bytes, terminator and
// padding, packed into the 19 data codewords of a version 1-L symbol.

module QrBits {
  import opened Options
  import opened Sequences

  const MAX_DATA: nat := 19

  /** Bit `i` of a byte, counted from the least significant. */
  predicate Bit(v: bv8, i: nat)
    requires i < 8
  {
    (v >> i) & 1 == 1
  }

  /** The low `n` bits of a byte, most significant first. */
  function LowBits(v: bv8, n: nat): (bits: seq<bool>)
    requires n <= 8
    ensures |bits| == n
  {
    if n == 0 then [] else [Bit(v, n - 1)] + LowBits(v, n - 1)
  }

  function Join(v: bv8, b: bool): bv8 {
    (v << 1) | (if b then 1 else 0)
  }

  /** The number a bit string denotes, modulo 256. */
  function FromBits(bits: seq<bool>): bv8 {
    if bits == [] then 0 else Join(FromBits(bits[..|bits| - 1]), bits[|bits| - 1])
  }

  /** Codewords from a bit string, eight bits each. */
  function Pack(bits: seq<bool>): (cw: seq<bv8>)
    ensures 8 * |cw| <= |bits| < 8 * |cw| + 8
  {
    if |bits| < 8 then [] else [FromBits(bits[..8])] + Pack(bits[8..])
  }

  function Unpack(cw: seq<bv8>): (bits: seq<bool>)
    ensures |bits| == 8 * |cw|
  {
    if cw == [] then [] else LowBits(cw[0], 8) + Unpack(cw[1..])
  }

  // ---- A byte and its eight bits ----

  lemma {:induction false} LowBitsAt(v: bv8, n: nat, k: nat)
    requires k < n <= 8
    ensures LowBits(v, n)[k] == Bit(v, n - 1 - k)
  {
    hide Bit;
    if k > 0 {
      LowBitsAt(v, n - 1, k - 1);
    }
  }

  lemma FromBitsStep(b: seq<bool>, n: nat)
    requires n < |b|
    ensures FromBits(b[..n + 1]) == Join(FromBits(b[..n]), b[n])
  {
    assert b[..n + 1][..n] == b[..n];
  }

  lemma FromBits8(b: seq<bool>)
    requires |b| == 8
    ensures FromBits(b) ==
            Join(Join(Join(Join(Join(Join(Join(Join(0, b[0]), b[1]), b[2]), b[3]), b[4]), b[5]), b[6]), b[7])
  {
    hide Join, FromBits;
    FromBitsStep(b, 0);
    FromBitsStep(b, 1);
    FromBitsStep(b, 2);
    FromBitsStep(b, 3);
    FromBitsStep(b, 4);
    FromBitsStep(b, 5);
    FromBitsStep(b, 6);
    FromBitsStep(b, 7);
    assert b[..0] == [] && b[..8] == b;
    FromNoBits();
  }

  lemma FromNoBits()
    ensures FromBits([]) == 0
  {
  }

  lemma JoinBits(v: bv8)
    ensures Join(Join(Join(Join(Join(Join(Join(Join(0, Bit(v, 7)), Bit(v, 6)), Bit(v, 5)), Bit(v, 4)),
              Bit(v, 3)), Bit(v, 2)), Bit(v, 1)), Bit(v, 0)) == v
  {
  }

  lemma BitsOfJoin(b0: bool, b1: bool, b2: bool, b3: bool, b4: bool, b5: bool, b6: bool, b7: bool)
    ensures var v := Join(Join(Join(Join(Join(Join(Join(Join(0, b0), b1), b2), b3), b4), b5), b6), b7);
            && Bit(v, 7) == b0 && Bit(v, 6) == b1 && Bit(v, 5) == b2 && Bit(v, 4) == b3
            && Bit(v, 3) == b4 && Bit(v, 2) == b5 && Bit(v, 1) == b6 && Bit(v, 0) == b7
  {
  }

  lemma LowBits8(v: bv8)
    ensures var b := LowBits(v, 8);
            && b[0] == Bit(v, 7) && b[1] == Bit(v, 6) && b[2] == Bit(v, 5) && b[3] == Bit(v, 4)
            && b[4] == Bit(v, 3) && b[5] == Bit(v, 2) && b[6] == Bit(v, 1) && b[7] == Bit(v, 0)
  {
    hide Bit, LowBits;
    LowBitsAt(v, 8, 0);
    LowBitsAt(v, 8, 1);
    LowBitsAt(v, 8, 2);
    LowBitsAt(v, 8, 3);
    LowBitsAt(v, 8, 4);
    LowBitsAt(v, 8, 5);
    LowBitsAt(v, 8, 6);
    LowBitsAt(v, 8, 7);
  }

  lemma ByteRoundTrip(v: bv8)
    ensures FromBits(LowBits(v, 8)) == v
  {
    hide Join, Bit, FromBits, LowBits;
    LowBits8(v);
    FromBits8(LowBits(v, 8));
    JoinBits(v);
  }

  lemma BitsRoundTrip(b: seq<bool>)
    requires |b| == 8
    ensures LowBits(FromBits(b), 8) == b
  {
    hide Join, Bit, FromBits, LowBits;
    FromBits8(b);
    LowBits8(FromBits(b));
    BitsOfJoin(b[0], b[1], b[2], b[3], b[4], b[5], b[6], b[7]);
  }

  // ---- Packing loses nothing ----

  lemma {:induction false} UnpackPack(bits: seq<bool>)
    requires |bits| % 8 == 0
    ensures Unpack(Pack(bits)) == bits
  {
    if bits != [] {
      UnpackPack(bits[8..]);
      BitsRoundTrip(bits[..8]);
    }
  }

  lemma {:induction false} PackUnpack(cw: seq<bv8>)
    ensures Pack(Unpack(cw)) == cw
  {
    if cw != [] {
      PackUnpack(cw[1..]);
      ByteRoundTrip(cw[0]);
      assert Unpack(cw)[..8] == LowBits(cw[0], 8) && Unpack(cw)[8..] == Unpack(cw[1..]);
    }
  }

  lemma {:induction false} UnpackConcat(a: seq<bv8>, b: seq<bv8>)
    ensures Unpack(a + b) == Unpack(a) + Unpack(b)
  {
    hide LowBits;
    if a == [] {
      assert a + b == b;
    } else {
      UnpackConcat(a[1..], b);
      assert (a + b)[1..] == a[1..] + b;
      var first := LowBits(a[0], 8);
      Regroup(first, Unpack(a[1..]), Unpack(b));
    }
  }

  // ---- The data codewords ----

  /** How many text bytes a symbol carries. */
  function Carried(bytes: seq<bv8>): (n: nat)
    ensures n <= |bytes| && n <= 17
  {
    if |bytes| < MAX_DATA - 2 then |bytes| else MAX_DATA - 2
  }

  /** Mode, count, text and terminator. */
  function MessageBits(text: seq<bv8>): (bits: seq<bool>)
    ensures |bits| == 16 + 8 * Carried(text)
  {
    LowBits(4, 4) + LowBits(Carried(text) as bv8, 8) + Unpack(text[..Carried(text)]) + LowBits(0, 4)
  }

  /** Padding up to the symbol's capacity; the pad byte goes by the parity of its index. */
  function Padded(cw: seq<bv8>): (full: seq<bv8>)
    ensures |cw| <= MAX_DATA ==> |full| == MAX_DATA
    ensures cw <= full
    decreases MAX_DATA - |cw|
  {
    if |cw| >= MAX_DATA then cw
    else Padded(cw + [if |cw| % 2 == 0 then 0xEC else 0x11])
  }

  function DataCodewords(text: seq<bv8>): (cw: seq<bv8>)
    ensures |cw| == MAX_DATA
  {
    Padded(Pack(MessageBits(text)))
  }

  /** A reader of byte-mode symbols: mode nibble, count byte, then that many bytes. */
  function ReadText(data: seq<bv8>): Option<seq<bv8>> {
    var bits := Unpack(data);
    if |bits| < 12 || bits[..4] != [false, true, false, false] then None
    else
      var n := FromBits(bits[4..12]) as int;
      if |bits| < 12 + 8 * n then None else Some(Pack(bits[12..12 + 8 * n]))
  }

  lemma SmallByte(n: nat)
    requires n <= 17
    ensures (n as bv8) as int == n
  {
  }

  lemma ModeNibble()
    ensures LowBits(4, 4) == [false, true, false, false]
  {
    LowBitsAt(4, 4, 0);
    LowBitsAt(4, 4, 1);
    LowBitsAt(4, 4, 2);
    LowBitsAt(4, 4, 3);
  }

  /** The reader finds the four fields of a message whatever follows it. */
  lemma ReadFields(text: seq<bv8>, tail: seq<bool>)
    ensures var n := Carried(text);
            var bits := MessageBits(text) + tail;
            && bits[..4] == [false, true, false, false]
            && FromBits(bits[4..12]) as int == n
            && Pack(bits[12..12 + 8 * n]) == text[..n]
  {
    hide LowBits, FromBits, Pack, Unpack;
    var n := Carried(text);
    var bits := MessageBits(text) + tail;
    ModeNibble();
    assert bits[..4] == LowBits(4, 4);
    assert bits[4..12] == LowBits(n as bv8, 8);
    ByteRoundTrip(n as bv8);
    SmallByte(n);
    assert bits[12..12 + 8 * n] == Unpack(text[..n]);
    PackUnpack(text[..n]);
  }

  /** What is read from the data codewords, whatever follows them, is the text cut to 17 bytes. */
  lemma ReadBack(text: seq<bv8>, rest: seq<bv8>)
    ensures ReadText(DataCodewords(text) + rest) == Some(text[..Carried(text)])
  {
    hide LowBits, FromBits, Pack, Unpack, MessageBits, Carried;
    var packed := Pack(MessageBits(text));
    UnpackPack(MessageBits(text));
    var tail := DataCodewords(text)[|packed|..] + rest;
    assert DataCodewords(text) + rest == packed + tail;
    UnpackConcat(packed, tail);
    ReadFields(text, Unpack(tail));
  }

  /** The whole text comes back exactly when it has at most 17 bytes; a longer one is cut. */
  lemma ReadsWholeText(text: seq<bv8>, rest: seq<bv8>)
    ensures ReadText(DataCodewords(text) + rest) == Some(text) <==> |text| <= 17
  {
    hide ReadText, DataCodewords;
    ReadBack(text, rest);
    assert |text| <= 17 ==> text[..Carried(text)] == text;
  }

  /** The data codewords depend on the carried bytes and tell them apart. */
  lemma CodewordsTellCarried(s: seq<bv8>, t: seq<bv8>)
    ensures DataCodewords(s) == DataCodewords(t) <==> s[..Carried(s)] == t[..Carried(t)]
  {
    hide ReadText, LowBits, Unpack, Pack, Padded;
    ReadBack(s, []);
    ReadBack(t, []);
    assert DataCodewords(s) + [] == DataCodewords(s) && DataCodewords(t) + [] == DataCodewords(t);
    if s[..Carried(s)] == t[..Carried(t)] {
      assert Carried(s) == |s[..Carried(s)]| == |t[..Carried(t)]| == Carried(t);
      assert MessageBits(s) == MessageBits(t);
    }
  }

  // ---- The loops that build them ----

  /** Appends the low `n` bits of `v`. */
  method AddBits(bitBuf: seq<bool>, v: bv8, n: nat) returns (r: seq<bool>)
    requires n <= 8
    ensures r == bitBuf + LowBits(v, n)
  {
    r := bitBuf;
    var i := n;
    while i > 0
      invariant 0 <= i <= n
      invariant r + LowBits(v, i) == bitBuf + LowBits(v, n)
    {
      i := i - 1;
      r := r + [Bit(v, i)];
    }
  }

  lemma UnpackSnoc(bytes: seq<bv8>, b: bv8)
    ensures Unpack(bytes + [b]) == Unpack(bytes) + LowBits(b, 8)
  {
    UnpackConcat(bytes, [b]);
    assert Unpack([b]) == LowBits(b, 8) + Unpack([]);
  }

  lemma PackSnoc(bits: seq<bool>, i: nat)
    requires i + 8 <= |bits| && i % 8 == 0
    ensures Pack(bits[..i + 8]) == Pack(bits[..i]) + [FromBits(bits[i..i + 8])]
    decreases i
  {
    if i == 0 {
      assert bits[..8][..8] == bits[0..8];
    } else {
      PackSnoc(bits[8..], i - 8);
      assert bits[8..][..i] == bits[..i + 8][8..] && bits[8..][..i - 8] == bits[..i][8..];
      assert bits[8..][i - 8..i] == bits[i..i + 8];
      assert bits[..i + 8][..8] == bits[..i][..8];
    }
  }

  /** The inner packing loop: eight bits shifted into one codeword. */
  method PackByte(bits: seq<bool>, i: nat) returns (v: bv8)
    requires i + 8 <= |bits|
    ensures v == FromBits(bits[i..i + 8])
  {
    hide FromBits, Join;
    ghost var b := bits[i..i + 8];
    v := 0;
    FromNoBits();
    assert b[..0] == [];
    for j := 0 to 8
      invariant v == FromBits(b[..j])
    {
      FromBitsStep(b, j);
      v := Join(v, bits[i + j]);
    }
    assert b[..8] == b;
  }

  /** Groups a whole number of bytes of bits into codewords. */
  method PackLoop(bits: seq<bool>) returns (codewords: seq<bv8>)
    requires |bits| % 8 == 0
    ensures codewords == Pack(bits)
  {
    hide Pack, FromBits;
    codewords := [];
    PackedNothing();
    var i := 0;
    while i < |bits|
      invariant 0 <= i <= |bits| && i % 8 == 0
      invariant codewords == Pack(bits[..i])
    {
      var v := PackByte(bits, i);
      PackSnoc(bits, i);
      codewords := codewords + [v];
      i := i + 8;
    }
    assert bits[..i] == bits;
  }

  lemma PackedNothing()
    ensures Pack([]) == []
  {
  }

  /** Mode, count, text bytes and terminator, bit by bit. */
  method BuildStream(text: seq<bv8>) returns (bitBuf: seq<bool>)
    ensures bitBuf == MessageBits(text)
  {
    hide LowBits, Unpack;
    bitBuf := AddBits([], 4, 4);
    var len := Carried(text);
    bitBuf := AddBits(bitBuf, len as bv8, 8);
    ghost var header := bitBuf;
    NothingUnpacked();
    for i := 0 to len
      invariant bitBuf == header + Unpack(text[..i])
    {
      bitBuf := AddBits(bitBuf, text[i], 8);
      assert text[..i + 1] == text[..i] + [text[i]];
      UnpackSnoc(text[..i], text[i]);
    }
    bitBuf := AddBits(bitBuf, 0, 4);
  }

  lemma NothingUnpacked()
    ensures Unpack([]) == []
  {
  }

  /** How many bits are missing to a whole byte. */
  function Gap(n: nat): (z: nat)
    ensures z < 8 && (n + z) % 8 == 0
  {
    (8 - n % 8) % 8
  }

  /** No shorter run of zeros reaches a byte boundary. */
  lemma FewestBits(n: nat, z: nat)
    requires (n + z) % 8 == 0
    ensures Gap(n) <= z
  {
  }

  lemma OneMoreZero(bits: seq<bool>, z: nat)
    ensures bits + seq(z, _ => false) + [false] == bits + seq(z + 1, _ => false)
  {
  }

  /** Zero bits up to the next byte boundary. */
  method Align(bitBuf: seq<bool>) returns (r: seq<bool>)
    ensures r == bitBuf + seq(Gap(|bitBuf|), _ => false)
  {
    hide Gap;
    r := bitBuf;
    ghost var z := 0;
    while |r| % 8 != 0
      invariant z <= Gap(|bitBuf|) && r == bitBuf + seq(z, _ => false)
      decreases Gap(|bitBuf|) - z
    {
      OneMoreZero(bitBuf, z);
      r := r + [false];
      z := z + 1;
    }
    FewestBits(|bitBuf|, z);
  }

  /**
   * The data codewords: stream, packing and pad codewords. A message is a whole number of bytes
   * long, so aligning adds nothing to it.
   */
  method BuildCodewords(text: seq<bv8>) returns (codewords: seq<bv8>)
    ensures codewords == DataCodewords(text)
  {
    hide Pack;
    var bitBuf := BuildStream(text);
    bitBuf := Align(bitBuf);
    assert bitBuf == MessageBits(text);
    codewords := PackLoop(bitBuf);
    while |codewords| < MAX_DATA
      invariant |codewords| <= MAX_DATA
      invariant Padded(codewords) == DataCodewords(text)
    {
      codewords := codewords + [if |codewords| % 2 == 0 then 0xEC else 0x11];
    }
  }
}
