// The SHA-1 of the WebSocket handshake: its in-place loops against the digest of
// RFC 3174, and what the padding guarantees.

module Sha1 {
  import opened Options
  import opened Bytes

  /** The five words carried from block to block. */
  datatype State = State(a: bv32, b: bv32, c: bv32, d: bv32, e: bv32)

  const INITIAL := State(0x67452301, 0xEFCDAB89, 0x98BADCFE, 0x10325476, 0xC3D2E1F0)

  function RotL1(x: bv32): bv32 { (x << 1) | (x >> 31) }
  function RotL5(x: bv32): bv32 { (x << 5) | (x >> 27) }
  function RotL30(x: bv32): bv32 { (x << 30) | (x >> 2) }

  // ---- Padding, RFC 3174 section 4 ----

  /** The message length in bits, as the 64-bit counter holds it. */
  function BitCount(n: nat): nat {
    8 * n % Pow256(8)
  }

  function ZeroCount(n: nat): (z: nat)
    ensures z < 64 && (n + 1 + z) % 64 == 56
  {
    (55 - n) % 64
  }

  function Padded(msg: seq<byte>): (p: seq<byte>)
    ensures |p| == |msg| + 9 + ZeroCount(|msg|)
  {
    msg + [0x80] + seq(ZeroCount(|msg|), _ => 0) + BigEndian(BitCount(|msg|), 8)
  }

  /** Reads the length field at the end and cuts the message out. */
  function Unpad(p: seq<byte>): Option<seq<byte>> {
    if |p| < 8 then None
    else
      var n := FromBigEndian(p[|p| - 8..]) / 8;
      if n > |p| then None else Some(p[..n])
  }

  lemma WholeBlocks(msg: seq<byte>)
    ensures |Padded(msg)| % 64 == 0
  {
    hide Padded;
    LengthFieldFills(|msg| + 1 + ZeroCount(|msg|));
  }

  lemma LengthFieldFills(n: nat)
    requires n % 64 == 56
    ensures (n + 8) % 64 == 0
  {
  }

  /** No shorter run of zeros reaches a block boundary. */
  lemma FewestZeros(n: nat, z: nat)
    requires (n + 1 + z + 8) % 64 == 0
    ensures ZeroCount(n) <= z
  {
  }

  lemma LengthWraps(n: nat)
    ensures BitCount(n) < Pow256(8)
    ensures BitCount(n) / 8 <= n
    ensures BitCount(n) / 8 == n <==> n < 0x2000_0000_0000_0000
  {
    assert Pow256(4) == 0x1_0000_0000;
    assert Pow256(8) == 0x1_0000_0000_0000_0000 by {
      assert Pow256(6) == 65536 * Pow256(4);
    }
  }

  lemma PaddedEnds(msg: seq<byte>)
    ensures var p := Padded(msg);
            && |p| >= |msg| + 8 && p[|p| - 8..] == BigEndian(BitCount(|msg|), 8) && p[..|msg|] == msg
  {
    hide BitCount, ZeroCount;
  }

  /**
   * Padding can be undone, so different messages never pad to the same blocks, as long as the length
   * field does not wrap: exactly for messages below 2^61 bytes.
   */
  lemma PaddingReversible(msg: seq<byte>)
    ensures Unpad(Padded(msg)) == Some(msg) <==> |msg| < 0x2000_0000_0000_0000
  {
    hide Pow256, BitCount, Padded, FromBigEndian;
    var p, count := Padded(msg), BitCount(|msg|);
    PaddedEnds(msg);
    LengthWraps(|msg|);
    BigEndianRoundTrip(count, 8);
    assert |p[..count / 8]| == count / 8;
  }

  // ---- The digest, RFC 3174 section 6.1 ----

  /** The big-endian word at an offset. */
  function WordAt(p: seq<byte>, i: nat): bv32
    requires i + 4 <= |p|
  {
    (p[i] as bv32 << 24) | (p[i + 1] as bv32 << 16) | (p[i + 2] as bv32 << 8) | p[i + 3] as bv32
  }

  function Mix(w3: bv32, w8: bv32, w14: bv32, w16: bv32): bv32 {
    RotL1(w3 ^ w8 ^ w14 ^ w16)
  }

  /** Word `t` of the message schedule of the block at offset `i`. */
  function Schedule(p: seq<byte>, i: nat, t: nat): bv32
    requires i + 64 <= |p|
  {
    if t < 16 then WordAt(p, i + 4 * t)
    else Mix(Schedule(p, i, t - 3), Schedule(p, i, t - 8), Schedule(p, i, t - 14), Schedule(p, i, t - 16))
  }

  function F(t: nat, b: bv32, c: bv32, d: bv32): bv32 {
    if t < 20 then (b & c) | (!b & d)
    else if t < 40 then b ^ c ^ d
    else if t < 60 then (b & c) | (b & d) | (c & d)
    else b ^ c ^ d
  }

  function K(t: nat): bv32 {
    if t < 20 then 0x5A827999 else if t < 40 then 0x6ED9EBA1 else if t < 60 then 0x8F1BBCDC else 0xCA62C1D6
  }

  /** Addition of words drops the carry. */
  function Plus(x: bv32, y: bv32): bv32 {
    x + y
  }

  function Temp(t: nat, s: State, w: bv32): bv32 {
    Plus(Plus(Plus(Plus(RotL5(s.a), F(t, s.b, s.c, s.d)), s.e), K(t)), w)
  }

  function Round(s: State, t: nat, w: bv32): State {
    State(Temp(t, s, w), s.a, RotL30(s.b), s.c, s.d)
  }

  /** The state after the first `t` rounds on the block at offset `i`. */
  function Rounds(s: State, p: seq<byte>, i: nat, t: nat): State
    requires i + 64 <= |p|
  {
    if t == 0 then s else Round(Rounds(s, p, i, t - 1), t - 1, Schedule(p, i, t - 1))
  }

  function AddState(s: State, r: State): State {
    State(s.a + r.a, s.b + r.b, s.c + r.c, s.d + r.d, s.e + r.e)
  }

  /** The state after the first `n` blocks. */
  function Blocks(p: seq<byte>, n: nat): State
    requires 64 * n <= |p|
  {
    if n == 0 then INITIAL
    else AddState(Blocks(p, n - 1), Rounds(Blocks(p, n - 1), p, 64 * (n - 1), 80))
  }

  /** Octet `j` of a word, counted from the least significant. */
  function Octet(x: bv32, j: nat): byte
    requires j < 4
  {
    ((x >> (8 * j)) & 0xFF) as int
  }

  function WordOctets(x: bv32): (s: seq<byte>)
    ensures |s| == 4
  {
    [Octet(x, 3), Octet(x, 2), Octet(x, 1), Octet(x, 0)]
  }

  function WordsOctets(ws: seq<bv32>): (s: seq<byte>)
    ensures |s| == 4 * |ws|
  {
    if ws == [] then [] else WordsOctets(ws[..|ws| - 1]) + WordOctets(ws[|ws| - 1])
  }

  function Digest(msg: seq<byte>): (d: seq<byte>)
    ensures |d| == 20
  {
    var p := Padded(msg);
    var s := Blocks(p, |p| / 64);
    WordsOctets([s.a, s.b, s.c, s.d, s.e])
  }

  // ---- The alternate method, RFC 3174 section 6.2 ----

  /** The place of word `t` in a circular queue of sixteen. */
  function Slot(t: nat): (k: nat)
    ensures k < 16
  {
    t % 16
  }

  /** The queue once the words below `t` of the schedule have been made. */
  function Queue(p: seq<byte>, i: nat, t: nat): (q: seq<bv32>)
    requires i + 64 <= |p| && t >= 16
    ensures |q| == 16
    decreases t
  {
    if t == 16 then seq(16, k requires 0 <= k < 16 => WordAt(p, i + 4 * k))
    else
      var q, s := Queue(p, i, t - 1), Slot(t - 1);
      q[s := Mix(q[Slot(s + 13)], q[Slot(s + 8)], q[Slot(s + 2)], q[s])]
  }

  lemma SlotBack(t: nat, back: nat)
    requires back <= 16 <= t
    ensures Slot(Slot(t) + (16 - back)) == Slot(t - back)
    ensures Slot(t - 16) == Slot(t)
  {
  }

  /** Of two words that share a slot, sixteen or more lie between. */
  lemma SlotShared(n: nat, t: nat)
    requires n < t && Slot(n) == Slot(t)
    ensures n + 16 <= t
  {
  }

  lemma SlotOfFirst(k: nat)
    requires k < 16
    ensures Slot(k) == k
  {
  }

  lemma QueueNext(p: seq<byte>, i: nat, t: nat)
    requires i + 64 <= |p| && t >= 16
    ensures var q := Queue(p, i, t);
            Queue(p, i, t + 1) == q[Slot(t) := Mix(q[Slot(t - 3)], q[Slot(t - 8)], q[Slot(t - 14)], q[Slot(t - 16)])]
  {
    hide Mix, Slot, WordAt;
    SlotBack(t, 3);
    SlotBack(t, 8);
    SlotBack(t, 14);
  }

  lemma ScheduleNext(p: seq<byte>, i: nat, t: nat)
    requires i + 64 <= |p|
    ensures Schedule(p, i, t) ==
            if t < 16 then WordAt(p, i + 4 * t)
            else Mix(Schedule(p, i, t - 3), Schedule(p, i, t - 8), Schedule(p, i, t - 14), Schedule(p, i, t - 16))
  {
    hide Mix, WordAt;
  }

  lemma QueueFirst(p: seq<byte>, i: nat, n: nat)
    requires i + 64 <= |p| && n < 16
    ensures Queue(p, i, 16)[Slot(n)] == WordAt(p, i + 4 * n)
  {
    hide WordAt, Slot;
    SlotOfFirst(n);
  }

  /** Sixteen words are enough: the queue always holds the last sixteen of the schedule. */
  lemma {:induction false} QueueHolds(p: seq<byte>, i: nat, t: nat, n: nat)
    requires i + 64 <= |p| && t >= 16 && t - 16 <= n < t
    ensures Queue(p, i, t)[Slot(n)] == Schedule(p, i, n)
    decreases t
  {
    hide WordAt, Mix, Slot, Queue, Schedule;
    ScheduleNext(p, i, n);
    if t == 16 {
      QueueFirst(p, i, n);
    } else {
      var last := t - 1;
      QueueNext(p, i, last);
      if n == last {
        QueueHolds(p, i, last, last - 3);
        QueueHolds(p, i, last, last - 8);
        QueueHolds(p, i, last, last - 14);
        QueueHolds(p, i, last, last - 16);
      } else {
        QueueHolds(p, i, last, n);
        if Slot(n) == Slot(last) {
          SlotShared(n, last);
        }
      }
    }
  }

  /** The rounds of the alternate method, each on the queue slot of its own number. */
  function QueueRounds(s: State, p: seq<byte>, i: nat, t: nat): State
    requires i + 64 <= |p|
  {
    if t == 0 then s
    else Round(QueueRounds(s, p, i, t - 1), t - 1, Queue(p, i, if t <= 16 then 16 else t)[Slot(t - 1)])
  }

  /** Both methods of the standard run the same rounds: a queue of 16 words does for the array of 80. */
  lemma {:induction false} MethodsAgree(s: State, p: seq<byte>, i: nat, t: nat)
    requires i + 64 <= |p|
    ensures QueueRounds(s, p, i, t) == Rounds(s, p, i, t)
    decreases t
  {
    hide Queue, Schedule, Round, Slot;
    if t > 0 {
      MethodsAgree(s, p, i, t - 1);
      QueueHolds(p, i, if t <= 16 then 16 else t, t - 1);
    }
  }

  /** The round constants are 2^30 times the square roots of 2, 3, 5 and 10, rounded down. */
  lemma RoundConstants(t: nat)
    ensures var n := if t < 20 then 2 else if t < 40 then 3 else if t < 60 then 5 else 10;
            var k := K(t) as int;
            k * k <= n * 0x1000_0000_0000_0000 < (k + 1) * (k + 1)
  {
  }

  // ---- No round loses anything ----

  function RotL2(x: bv32): bv32 { (x << 2) | (x >> 30) }

  function Minus(x: bv32, y: bv32): bv32 {
    x - y
  }

  /** The fifth word before a round, from the first word after it and the other four before it. */
  function Untemp(t: nat, x: bv32, a: bv32, b: bv32, c: bv32, d: bv32, w: bv32): bv32 {
    Minus(Minus(Minus(x, w), K(t)), Plus(RotL5(a), F(t, b, c, d)))
  }

  /** The state before a round, from the state after it. */
  function Unround(s: State, t: nat, w: bv32): State {
    var a, b := s.b, RotL2(s.c);
    State(a, b, s.d, s.e, Untemp(t, s.a, a, b, s.d, s.e, w))
  }

  lemma RotateBack(x: bv32)
    ensures RotL2(RotL30(x)) == x
  {
  }

  lemma PlusBack(x: bv32, y: bv32)
    ensures Minus(Plus(x, y), y) == x && Minus(Plus(x, y), x) == y
  {
  }

  lemma TempBack(t: nat, s: State, w: bv32)
    ensures Untemp(t, Temp(t, s, w), s.a, s.b, s.c, s.d, w) == s.e
  {
    hide RotL5, F, K, Plus, Minus;
    var front := Plus(RotL5(s.a), F(t, s.b, s.c, s.d));
    PlusBack(front, s.e);
    PlusBack(Plus(front, s.e), K(t));
    PlusBack(Plus(Plus(front, s.e), K(t)), w);
  }

  lemma RoundReversible(s: State, t: nat, w: bv32)
    ensures Unround(Round(s, t, w), t, w) == s
  {
    hide Temp, Untemp, RotL30, RotL2;
    RotateBack(s.b);
    TempBack(t, s, w);
  }

  /** On one block, different states stay different through every round. */
  lemma {:induction false} RoundsInjective(r: State, s: State, p: seq<byte>, i: nat, t: nat)
    requires i + 64 <= |p| && Rounds(r, p, i, t) == Rounds(s, p, i, t)
    ensures r == s
    decreases t
  {
    hide Schedule, Round, Unround;
    if t > 0 {
      var w := Schedule(p, i, t - 1);
      RoundReversible(Rounds(r, p, i, t - 1), t - 1, w);
      RoundReversible(Rounds(s, p, i, t - 1), t - 1, w);
      RoundsInjective(r, s, p, i, t - 1);
    }
  }

  // ---- The loops ----

  /** The padding loop. */
  method Pad(msg: seq<byte>) returns (padded: seq<byte>)
    ensures padded == Padded(msg)
  {
    padded := msg + [0x80];
    while |padded| % 64 != 56
      invariant |msg| + 1 <= |padded| <= |msg| + 1 + ZeroCount(|msg|)
      invariant padded == msg + [0x80] + seq(|padded| - |msg| - 1, _ => 0)
      decreases |msg| + 1 + ZeroCount(|msg|) - |padded|
    {
      ghost var z := |padded| - |msg| - 1;
      OneMoreZero(msg + [0x80], z);
      padded := padded + [0x00];
    }
    LengthFieldFills(|padded|);
    FewestZeros(|msg|, |padded| - |msg| - 1);
    BitCountFits(|msg|);
    padded := AppendBigEndian(padded, 8 * |msg| % Pow256(8), 8);
  }

  lemma OneMoreZero(front: seq<byte>, z: nat)
    ensures front + seq(z, _ => 0) + [0] == front + seq(z + 1, _ => 0)
  {
  }

  lemma BitCountFits(n: nat)
    ensures BitCount(n) < Pow256(8)
  {
  }

  /** The message schedule of one block, filled into the work array. */
  method FillSchedule(p: seq<byte>, i: nat, w: array<bv32>)
    requires i + 64 <= |p| && w.Length == 80
    modifies w
    ensures forall t :: 0 <= t < 80 ==> w[t] == Schedule(p, i, t)
  {
    hide WordAt, Mix;
    for j := 0 to 16
      invariant forall t :: 0 <= t < j ==> w[t] == Schedule(p, i, t)
    {
      w[j] := WordAt(p, i + 4 * j);
    }
    for j := 16 to 80
      invariant forall t :: 0 <= t < j ==> w[t] == Schedule(p, i, t)
    {
      w[j] := Mix(w[j - 3], w[j - 8], w[j - 14], w[j - 16]);
    }
  }

  /** The eighty rounds on one block. */
  method RunRounds(h: State, p: seq<byte>, i: nat, w: array<bv32>) returns (r: State)
    requires i + 64 <= |p| && w.Length == 80
    requires forall t :: 0 <= t < 80 ==> w[t] == Schedule(p, i, t)
    ensures r == Rounds(h, p, i, 80)
  {
    hide Schedule, Temp, RotL30;
    var a, b, c, d, e := h.a, h.b, h.c, h.d, h.e;
    for j := 0 to 80
      invariant State(a, b, c, d, e) == Rounds(h, p, i, j)
    {
      var tmp := Temp(j, State(a, b, c, d, e), w[j]);
      e := d;
      d := c;
      c := RotL30(b);
      b := a;
      a := tmp;
    }
    r := State(a, b, c, d, e);
  }

  /** Padding, then every block in turn, then the octets of the five words. */
  method Hash(msg: seq<byte>, out: array<byte>)
    requires out.Length == 20
    modifies out
    ensures out[..] == Digest(msg)
  {
    hide Padded, Rounds, AddState, Octet;
    var padded := Pad(msg);
    WholeBlocks(msg);
    var h := INITIAL;
    var w := new bv32[80](_ => 0);
    var i := 0;
    while i < |padded|
      invariant 0 <= i <= |padded| && i % 64 == 0
      invariant h == Blocks(padded, i / 64)
    {
      FillSchedule(padded, i, w);
      var r := RunRounds(h, padded, i, w);
      h := AddState(h, r);
      i := i + 64;
    }
    WriteDigest(h, out);
  }

  method WriteDigest(h: State, out: array<byte>)
    requires out.Length == 20
    modifies out
    ensures out[..] == WordsOctets([h.a, h.b, h.c, h.d, h.e])
  {
    hide WordOctets;
    var hh := [h.a, h.b, h.c, h.d, h.e];
    for i := 0 to 5
      invariant out[..4 * i] == WordsOctets(hh[..i])
    {
      ghost var before := out[..4 * i];
      WriteWord(hh[i], out, 4 * i);
      assert out[..4 * i] == before;
      assert out[..4 * i + 4] == out[..4 * i] + out[4 * i..4 * i + 4];
      assert hh[..i + 1][..i] == hh[..i];
    }
    assert hh[..5] == hh;
  }

  /** The octets of one word, most significant first. */
  method WriteWord(x: bv32, out: array<byte>, at: nat)
    requires at + 4 <= out.Length
    modifies out
    ensures out[at..at + 4] == WordOctets(x)
    ensures forall k :: 0 <= k < at || at + 4 <= k < out.Length ==> out[k] == old(out[k])
  {
    hide Octet;
    var j := 4;
    while j > 0
      invariant 0 <= j <= 4
      invariant forall k :: 0 <= k < 4 - j ==> out[at + k] == WordOctets(x)[k]
      invariant forall k :: 0 <= k < at || at + 4 <= k < out.Length ==> out[k] == old(out[k])
    {
      j := j - 1;
      OctetOf(x, 3 - j);
      out[at + (3 - j)] := Octet(x, j);
    }
  }

  lemma OctetOf(x: bv32, k: nat)
    requires k < 4
    ensures WordOctets(x)[k] == Octet(x, 3 - k)
  {
  }
}
