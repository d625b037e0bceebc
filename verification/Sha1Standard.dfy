// The functions of RFC 3174 bit by bit, the words its rounds start from, and the
// standard's own example.

module Sha1Standard {
  import opened Bytes
  import opened Sha1

  // ---- Bit by bit ----

  /** Bit `k` of a word, counted from the least significant; bit numbers wrap at 32. */
  predicate Bit(x: bv32, k: bv5) {
    (x >> k) & 1 == 1
  }

  /** Rotating to the left moves every bit up and the top bits to the bottom. */
  lemma RotationBits(x: bv32, k: bv5)
    ensures Bit(RotL1(x), k + 1) == Bit(x, k)
    ensures Bit(RotL5(x), k + 5) == Bit(x, k)
    ensures Bit(RotL30(x), k + 30) == Bit(x, k)
  {
  }

  lemma XorBits(a: bv32, b: bv32, c: bv32, d: bv32, k: bv5)
    ensures Bit(a ^ b ^ c ^ d, k) == (((Bit(a, k) != Bit(b, k)) != Bit(c, k)) != Bit(d, k))
  {
  }

  lemma MixBits(a: bv32, b: bv32, c: bv32, d: bv32, k: bv5)
    ensures Bit(Mix(a, b, c, d), k + 1) == (((Bit(a, k) != Bit(b, k)) != Bit(c, k)) != Bit(d, k))
  {
    hide Bit, RotL1;
    RotationBits(a ^ b ^ c ^ d, k);
    XorBits(a, b, c, d, k);
  }

  /** Bit k + 1 of a later word is the exclusive or of bits k of four earlier ones. */
  lemma ScheduleBits(p: seq<byte>, i: nat, t: nat, k: bv5)
    requires i + 64 <= |p| && t >= 16
    ensures Bit(Schedule(p, i, t), k + 1) ==
            (((Bit(Schedule(p, i, t - 3), k) != Bit(Schedule(p, i, t - 8), k))
              != Bit(Schedule(p, i, t - 14), k)) != Bit(Schedule(p, i, t - 16), k))
  {
    hide Bit, Mix, WordAt, Schedule;
    ScheduleNext(p, i, t);
    MixBits(Schedule(p, i, t - 3), Schedule(p, i, t - 8), Schedule(p, i, t - 14), Schedule(p, i, t - 16), k);
  }

  lemma ChoiceBits(b: bv32, c: bv32, d: bv32, k: bv5)
    ensures Bit((b & c) | (!b & d), k) == if Bit(b, k) then Bit(c, k) else Bit(d, k)
  {
  }

  lemma ParityBits(b: bv32, c: bv32, d: bv32, k: bv5)
    ensures Bit(b ^ c ^ d, k) == ((Bit(b, k) != Bit(c, k)) != Bit(d, k))
  {
  }

  lemma MajorityBits(b: bv32, c: bv32, d: bv32, k: bv5)
    ensures Bit((b & c) | (b & d) | (c & d), k) ==
            ((Bit(b, k) && Bit(c, k)) || (Bit(c, k) && Bit(d, k)) || (Bit(b, k) && Bit(d, k)))
  {
  }

  /** Choice, parity and majority of RFC 3174 section 5. */
  lemma FunctionBits(t: nat, b: bv32, c: bv32, d: bv32, k: bv5)
    ensures var x, y, z := Bit(b, k), Bit(c, k), Bit(d, k);
            Bit(F(t, b, c, d), k) ==
            if t < 20 then (if x then y else z)
            else if 40 <= t < 60 then (x && y) || (y && z) || (x && z)
            else (x != y) != z
  {
    hide Bit;
    if t < 20 {
      ChoiceBits(b, c, d, k);
    } else if 40 <= t < 60 {
      MajorityBits(b, c, d, k);
    } else {
      ParityBits(b, c, d, k);
    }
  }

  // ---- The words the rounds start from ----

  /** The hexadecimal digits of a word whose octets are taken from the least significant on. */
  function Digits(x: bv32): seq<bv32> {
    [(x >> 4) & 0xF, x & 0xF, (x >> 12) & 0xF, (x >> 8) & 0xF,
     (x >> 20) & 0xF, (x >> 16) & 0xF, x >> 28, (x >> 24) & 0xF]
  }

  /**
   * The digits of the first four words count up from 0 to F and down again; the octets of the last
   * have a first digit that falls from F and a second that rises from 0.
   */
  lemma InitialDigits()
    ensures Digits(INITIAL.a) == [0, 1, 2, 3, 4, 5, 6, 7] && Digits(INITIAL.b) == [8, 9, 10, 11, 12, 13, 14, 15]
    ensures Digits(INITIAL.c) == [15, 14, 13, 12, 11, 10, 9, 8] && Digits(INITIAL.d) == [7, 6, 5, 4, 3, 2, 1, 0]
    ensures Digits(INITIAL.e) == [15, 0, 14, 1, 13, 2, 12, 3]
  {
  }

  // ---- RFC 3174 section 7.3, the first example ----

  /** The text "abc". */
  const ABC: seq<byte> := [97, 98, 99]

  /** Its one block: the text, a one bit, zeros, and the length of 24 bits. */
  predicate AbcBlock(p: seq<byte>) {
    && |p| == 64 && p[0] == 97 && p[1] == 98 && p[2] == 99 && p[3] == 0x80 && p[63] == 24
    && forall i :: 4 <= i < 63 ==> p[i] == 0
  }

  function W(p: seq<byte>, t: nat): bv32
    requires |p| == 64
  {
    Schedule(p, 0, t)
  }

  lemma Word(p: seq<byte>, t: nat)
    requires |p| == 64 && t >= 16
    ensures W(p, t) == Mix(W(p, t - 3), W(p, t - 8), W(p, t - 14), W(p, t - 16))
  {
    ScheduleNext(p, 0, t);
  }

  lemma BlockLength(p: seq<byte>)
    requires AbcBlock(p)
    ensures |p| == 64
  {
  }

  lemma OctetWords()
    ensures 97 as bv32 == 97 && 98 as bv32 == 98 && 99 as bv32 == 99 && 128 as bv32 == 128
    ensures 0 as bv32 == 0 && 24 as bv32 == 24
  {
  }

  lemma WordOf(p: seq<byte>, i: nat, a: bv32, b: bv32, c: bv32, d: bv32)
    requires i + 4 <= |p|
    requires p[i] as bv32 == a && p[i + 1] as bv32 == b && p[i + 2] as bv32 == c && p[i + 3] as bv32 == d
    ensures WordAt(p, i) == (a << 24) | (b << 16) | (c << 8) | d
  {
  }

  lemma WordText(p: seq<byte>)
    requires AbcBlock(p)
    ensures |p| == 64 && W(p, 0) == 0x61626380
  {
    hide WordAt;
    OctetWords();
    ScheduleNext(p, 0, 0);
    WordOf(p, 0, 97, 98, 99, 128);
  }

  lemma WordZero(p: seq<byte>, t: nat)
    requires AbcBlock(p) && 0 < t < 15
    ensures |p| == 64 && W(p, t) == 0
  {
    hide WordAt;
    OctetWords();
    ScheduleNext(p, 0, t);
    WordOf(p, 4 * t, 0, 0, 0, 0);
  }

  lemma WordLength(p: seq<byte>)
    requires AbcBlock(p)
    ensures |p| == 64 && W(p, 15) == 24
  {
    hide WordAt;
    OctetWords();
    ScheduleNext(p, 0, 15);
    WordOf(p, 60, 0, 0, 0, 24);
  }

  lemma Next(p: seq<byte>, t: nat)
    requires |p| == 64
    ensures Rounds(INITIAL, p, 0, t + 1) == Round(Rounds(INITIAL, p, 0, t), t, W(p, t))
  {
  }

  lemma AbcSecond(p: seq<byte>)
    requires AbcBlock(p)
    ensures W(p, 16) == 0xC2C4C700 && W(p, 17) == 0x00000000 && W(p, 18) == 0x00000030 && W(p, 19) == 0x85898E01
    ensures W(p, 20) == 0x00000000 && W(p, 21) == 0x00000060 && W(p, 22) == 0x0B131C03 && W(p, 23) == 0x00000030
    ensures W(p, 24) == 0x85898EC1 && W(p, 25) == 0x16263806 && W(p, 26) == 0x00000000 && W(p, 27) == 0x00000180
    ensures W(p, 28) == 0x2C4C700C && W(p, 29) == 0x000000F0 && W(p, 30) == 0x93AFB507 && W(p, 31) == 0x5898E048
  {
    hide W, AbcBlock;
    BlockLength(p);
    WordText(p);
    WordZero(p, 1); WordZero(p, 2); WordZero(p, 3); WordZero(p, 4); WordZero(p, 5);
    WordZero(p, 6); WordZero(p, 7); WordZero(p, 8); WordZero(p, 9); WordZero(p, 10);
    WordZero(p, 11); WordZero(p, 12); WordZero(p, 13); WordZero(p, 14);
    WordLength(p);
    Word(p, 16); Word(p, 17); Word(p, 18); Word(p, 19); Word(p, 20);
    Word(p, 21); Word(p, 22); Word(p, 23); Word(p, 24); Word(p, 25);
    Word(p, 26); Word(p, 27); Word(p, 28); Word(p, 29); Word(p, 30);
    Word(p, 31);
  }

  lemma AbcThird(p: seq<byte>)
    requires |p| == 64
    requires W(p, 16) == 0xC2C4C700 && W(p, 17) == 0x00000000 && W(p, 18) == 0x00000030 && W(p, 19) == 0x85898E01
    requires W(p, 20) == 0x00000000 && W(p, 21) == 0x00000060 && W(p, 22) == 0x0B131C03 && W(p, 23) == 0x00000030
    requires W(p, 24) == 0x85898EC1 && W(p, 25) == 0x16263806 && W(p, 26) == 0x00000000 && W(p, 27) == 0x00000180
    requires W(p, 28) == 0x2C4C700C && W(p, 29) == 0x000000F0 && W(p, 30) == 0x93AFB507 && W(p, 31) == 0x5898E048
    ensures W(p, 32) == 0x8E9A9202 && W(p, 33) == 0x00000600 && W(p, 34) == 0xB131C0F0 && W(p, 35) == 0x16263BC6
    ensures W(p, 36) == 0x4EBED41E && W(p, 37) == 0x626380A1 && W(p, 38) == 0x16263806 && W(p, 39) == 0x000018C0
    ensures W(p, 40) == 0xD2E138C4 && W(p, 41) == 0x00000F00 && W(p, 42) == 0x3AFB5079 && W(p, 43) == 0x898E04E5
    ensures W(p, 44) == 0xE2BA3C2B && W(p, 45) == 0x000060C0 && W(p, 46) == 0x053A37CD && W(p, 47) == 0x74458547
  {
    hide W;
    Word(p, 32); Word(p, 33); Word(p, 34); Word(p, 35); Word(p, 36);
    Word(p, 37); Word(p, 38); Word(p, 39); Word(p, 40); Word(p, 41);
    Word(p, 42); Word(p, 43); Word(p, 44); Word(p, 45); Word(p, 46);
    Word(p, 47);
  }

  lemma AbcFourth(p: seq<byte>)
    requires |p| == 64
    requires W(p, 32) == 0x8E9A9202 && W(p, 33) == 0x00000600 && W(p, 34) == 0xB131C0F0 && W(p, 35) == 0x16263BC6
    requires W(p, 36) == 0x4EBED41E && W(p, 37) == 0x626380A1 && W(p, 38) == 0x16263806 && W(p, 39) == 0x000018C0
    requires W(p, 40) == 0xD2E138C4 && W(p, 41) == 0x00000F00 && W(p, 42) == 0x3AFB5079 && W(p, 43) == 0x898E04E5
    requires W(p, 44) == 0xE2BA3C2B && W(p, 45) == 0x000060C0 && W(p, 46) == 0x053A37CD && W(p, 47) == 0x74458547
    ensures W(p, 48) == 0xDA9415ED && W(p, 49) == 0x26380A16 && W(p, 50) == 0x626383A1 && W(p, 51) == 0x4EBF54DE
    ensures W(p, 52) == 0x3835B44B && W(p, 53) == 0x0000F600 && W(p, 54) == 0x1E84C7A3 && W(p, 55) == 0x98E04D98
    ensures W(p, 56) == 0x651D16A0 && W(p, 57) == 0x62658CA1 && W(p, 58) == 0x458544D6 && W(p, 59) == 0x44584CB7
    ensures W(p, 60) == 0x7BA06619 && W(p, 61) == 0x6380AEA2 && W(p, 62) == 0x0AE55269 && W(p, 63) == 0x627B49A1
  {
    hide W;
    Word(p, 48); Word(p, 49); Word(p, 50); Word(p, 51); Word(p, 52);
    Word(p, 53); Word(p, 54); Word(p, 55); Word(p, 56); Word(p, 57);
    Word(p, 58); Word(p, 59); Word(p, 60); Word(p, 61); Word(p, 62);
    Word(p, 63);
  }

  lemma AbcFifth(p: seq<byte>)
    requires |p| == 64
    requires W(p, 48) == 0xDA9415ED && W(p, 49) == 0x26380A16 && W(p, 50) == 0x626383A1 && W(p, 51) == 0x4EBF54DE
    requires W(p, 52) == 0x3835B44B && W(p, 53) == 0x0000F600 && W(p, 54) == 0x1E84C7A3 && W(p, 55) == 0x98E04D98
    requires W(p, 56) == 0x651D16A0 && W(p, 57) == 0x62658CA1 && W(p, 58) == 0x458544D6 && W(p, 59) == 0x44584CB7
    requires W(p, 60) == 0x7BA06619 && W(p, 61) == 0x6380AEA2 && W(p, 62) == 0x0AE55269 && W(p, 63) == 0x627B49A1
    ensures W(p, 64) == 0x7CD45C9D && W(p, 65) == 0x000F0000 && W(p, 66) == 0xFB50753A && W(p, 67) == 0xEC6765E8
    ensures W(p, 68) == 0xBA3C2BE2 && W(p, 69) == 0x0060C000 && W(p, 70) == 0x3A37CD05 && W(p, 71) == 0x458546F4
    ensures W(p, 72) == 0xB8599DD6 && W(p, 73) == 0x380A1A26 && W(p, 74) == 0x01E02203 && W(p, 75) == 0xE7CC3456
    ensures W(p, 76) == 0xE6E60B69 && W(p, 77) == 0x00F60A00 && W(p, 78) == 0x5795EF4F && W(p, 79) == 0x822E0879
  {
    hide W;
    Word(p, 64); Word(p, 65); Word(p, 66); Word(p, 67); Word(p, 68);
    Word(p, 69); Word(p, 70); Word(p, 71); Word(p, 72); Word(p, 73);
    Word(p, 74); Word(p, 75); Word(p, 76); Word(p, 77); Word(p, 78);
    Word(p, 79);
  }

  lemma AbcFirstRounds(p: seq<byte>)
    requires AbcBlock(p)
    ensures Rounds(INITIAL, p, 0, 16) == State(0x20BDD62F, 0x196BEE77, 0x644A3DA5, 0x1181ED99, 0x18C623F9)
  {
    hide W, Rounds, AbcBlock;
    BlockLength(p);
    WordText(p);
    WordZero(p, 1); WordZero(p, 2); WordZero(p, 3); WordZero(p, 4); WordZero(p, 5);
    WordZero(p, 6); WordZero(p, 7); WordZero(p, 8); WordZero(p, 9); WordZero(p, 10);
    WordZero(p, 11); WordZero(p, 12); WordZero(p, 13); WordZero(p, 14);
    WordLength(p);
    Start(p);
    Next(p, 0); Next(p, 1); Next(p, 2); Next(p, 3); Next(p, 4);
    Next(p, 5); Next(p, 6); Next(p, 7); Next(p, 8); Next(p, 9);
    Next(p, 10); Next(p, 11); Next(p, 12); Next(p, 13); Next(p, 14);
    Next(p, 15);
  }

  lemma AbcSecondRounds(p: seq<byte>)
    requires |p| == 64
    requires W(p, 16) == 0xC2C4C700 && W(p, 17) == 0x00000000 && W(p, 18) == 0x00000030 && W(p, 19) == 0x85898E01
    requires W(p, 20) == 0x00000000 && W(p, 21) == 0x00000060 && W(p, 22) == 0x0B131C03 && W(p, 23) == 0x00000030
    requires W(p, 24) == 0x85898EC1 && W(p, 25) == 0x16263806 && W(p, 26) == 0x00000000 && W(p, 27) == 0x00000180
    requires W(p, 28) == 0x2C4C700C && W(p, 29) == 0x000000F0 && W(p, 30) == 0x93AFB507 && W(p, 31) == 0x5898E048
    requires Rounds(INITIAL, p, 0, 16) == State(0x20BDD62F, 0x196BEE77, 0x644A3DA5, 0x1181ED99, 0x18C623F9)
    ensures Rounds(INITIAL, p, 0, 32) == State(0x3B845D33, 0x1267B407, 0x717EEBD7, 0xA0DC2D4B, 0xD2AA1365)
  {
    hide W, Rounds;
    Next(p, 16); Next(p, 17); Next(p, 18); Next(p, 19); Next(p, 20);
    Next(p, 21); Next(p, 22); Next(p, 23); Next(p, 24); Next(p, 25);
    Next(p, 26); Next(p, 27); Next(p, 28); Next(p, 29); Next(p, 30);
    Next(p, 31);
  }

  lemma AbcThirdRounds(p: seq<byte>)
    requires |p| == 64
    requires W(p, 32) == 0x8E9A9202 && W(p, 33) == 0x00000600 && W(p, 34) == 0xB131C0F0 && W(p, 35) == 0x16263BC6
    requires W(p, 36) == 0x4EBED41E && W(p, 37) == 0x626380A1 && W(p, 38) == 0x16263806 && W(p, 39) == 0x000018C0
    requires W(p, 40) == 0xD2E138C4 && W(p, 41) == 0x00000F00 && W(p, 42) == 0x3AFB5079 && W(p, 43) == 0x898E04E5
    requires W(p, 44) == 0xE2BA3C2B && W(p, 45) == 0x000060C0 && W(p, 46) == 0x053A37CD && W(p, 47) == 0x74458547
    requires Rounds(INITIAL, p, 0, 32) == State(0x3B845D33, 0x1267B407, 0x717EEBD7, 0xA0DC2D4B, 0xD2AA1365)
    ensures Rounds(INITIAL, p, 0, 48) == State(0xBEAD02CA, 0xA01B846C, 0x8714787C, 0x503CA382, 0xFB86C6AB)
  {
    hide W, Rounds;
    Next(p, 32); Next(p, 33); Next(p, 34); Next(p, 35); Next(p, 36);
    Next(p, 37); Next(p, 38); Next(p, 39); Next(p, 40); Next(p, 41);
    Next(p, 42); Next(p, 43); Next(p, 44); Next(p, 45); Next(p, 46);
    Next(p, 47);
  }

  lemma AbcFourthRounds(p: seq<byte>)
    requires |p| == 64
    requires W(p, 48) == 0xDA9415ED && W(p, 49) == 0x26380A16 && W(p, 50) == 0x626383A1 && W(p, 51) == 0x4EBF54DE
    requires W(p, 52) == 0x3835B44B && W(p, 53) == 0x0000F600 && W(p, 54) == 0x1E84C7A3 && W(p, 55) == 0x98E04D98
    requires W(p, 56) == 0x651D16A0 && W(p, 57) == 0x62658CA1 && W(p, 58) == 0x458544D6 && W(p, 59) == 0x44584CB7
    requires W(p, 60) == 0x7BA06619 && W(p, 61) == 0x6380AEA2 && W(p, 62) == 0x0AE55269 && W(p, 63) == 0x627B49A1
    requires Rounds(INITIAL, p, 0, 48) == State(0xBEAD02CA, 0xA01B846C, 0x8714787C, 0x503CA382, 0xFB86C6AB)
    ensures Rounds(INITIAL, p, 0, 64) == State(0x6B61C9E1, 0xB66C020B, 0x9523272C, 0xF5D5B051, 0x8FD4B796)
  {
    hide W, Rounds;
    Next(p, 48); Next(p, 49); Next(p, 50); Next(p, 51); Next(p, 52);
    Next(p, 53); Next(p, 54); Next(p, 55); Next(p, 56); Next(p, 57);
    Next(p, 58); Next(p, 59); Next(p, 60); Next(p, 61); Next(p, 62);
    Next(p, 63);
  }

  lemma AbcFifthRounds(p: seq<byte>)
    requires |p| == 64
    requires W(p, 64) == 0x7CD45C9D && W(p, 65) == 0x000F0000 && W(p, 66) == 0xFB50753A && W(p, 67) == 0xEC6765E8
    requires W(p, 68) == 0xBA3C2BE2 && W(p, 69) == 0x0060C000 && W(p, 70) == 0x3A37CD05 && W(p, 71) == 0x458546F4
    requires W(p, 72) == 0xB8599DD6 && W(p, 73) == 0x380A1A26 && W(p, 74) == 0x01E02203 && W(p, 75) == 0xE7CC3456
    requires W(p, 76) == 0xE6E60B69 && W(p, 77) == 0x00F60A00 && W(p, 78) == 0x5795EF4F && W(p, 79) == 0x822E0879
    requires Rounds(INITIAL, p, 0, 64) == State(0x6B61C9E1, 0xB66C020B, 0x9523272C, 0xF5D5B051, 0x8FD4B796)
    ensures Rounds(INITIAL, p, 0, 80) == State(0x42541B35, 0x5738D5E1, 0x21834873, 0x681E6DF6, 0xD8FDF6AD)
  {
    hide W, Rounds;
    Next(p, 64); Next(p, 65); Next(p, 66); Next(p, 67); Next(p, 68);
    Next(p, 69); Next(p, 70); Next(p, 71); Next(p, 72); Next(p, 73);
    Next(p, 74); Next(p, 75); Next(p, 76); Next(p, 77); Next(p, 78);
    Next(p, 79);
  }

  lemma Start(p: seq<byte>)
    requires |p| == 64
    ensures Rounds(INITIAL, p, 0, 0) == INITIAL
  {
  }

  lemma AbcRounds(p: seq<byte>)
    requires AbcBlock(p)
    ensures Rounds(INITIAL, p, 0, 80) == State(0x42541B35, 0x5738D5E1, 0x21834873, 0x681E6DF6, 0xD8FDF6AD)
  {
    hide W, Rounds;
    AbcFirstRounds(p);
    AbcSecond(p);
    AbcSecondRounds(p);
    AbcThird(p);
    AbcThirdRounds(p);
    AbcFourth(p);
    AbcFourthRounds(p);
    AbcFifth(p);
    AbcFifthRounds(p);
  }

  lemma {:induction false} ZeroOctets(k: nat)
    ensures |BigEndian(0, k)| == k && forall i :: 0 <= i < k ==> BigEndian(0, k)[i] == 0
    decreases k
  {
    if k > 0 {
      ZeroOctets(k - 1);
    }
  }

  lemma AbcPadded()
    ensures AbcBlock(Padded(ABC))
  {
    assert ZeroCount(3) == 52;
    assert Pow256(8) >= 256 by {
      assert Pow256(8) == 256 * Pow256(7);
    }
    assert BitCount(3) == 24;
    ZeroOctets(7);
    assert BigEndian(24, 8) == BigEndian(0, 7) + [24];
  }

  lemma OneBlock(p: seq<byte>)
    requires |p| == 64
    ensures Blocks(p, 1) == AddState(INITIAL, Rounds(INITIAL, p, 0, 80))
  {
    hide Rounds, AddState;
    assert Blocks(p, 0) == INITIAL;
  }

  lemma DigestOfBlock(msg: seq<byte>)
    requires |Padded(msg)| == 64
    ensures var s := Blocks(Padded(msg), 1);
            Digest(msg) == WordOctets(s.a) + WordOctets(s.b) + WordOctets(s.c) + WordOctets(s.d) + WordOctets(s.e)
  {
    hide Blocks, Padded, WordsOctets, WordOctets;
    var s := Blocks(Padded(msg), 1);
    FiveWords(s.a, s.b, s.c, s.d, s.e);
  }

  /** The digest of "abc" is the one that the standard prints. */
  lemma AbcDigest()
    ensures Digest(ABC) == [0xA9, 0x99, 0x3E, 0x36, 0x47, 0x06, 0x81, 0x6A, 0xBA, 0x3E,
                            0x25, 0x71, 0x78, 0x50, 0xC2, 0x6C, 0x9C, 0xD0, 0xD8, 0x9D]
  {
    hide Blocks, Padded, Digest, Rounds, WordOctets;
    var p := Padded(ABC);
    AbcPadded();
    AbcRounds(p);
    OneBlock(p);
    assert Blocks(p, 1) == State(0xA9993E36, 0x4706816A, 0xBA3E2571, 0x7850C26C, 0x9CD0D89D);
    DigestOfBlock(ABC);
    AbcOctets();
  }

  lemma FiveWords(a: bv32, b: bv32, c: bv32, d: bv32, e: bv32)
    ensures WordsOctets([a, b, c, d, e]) ==
            WordOctets(a) + WordOctets(b) + WordOctets(c) + WordOctets(d) + WordOctets(e)
  {
    hide WordOctets;
    var s := [a, b, c, d, e];
    assert s[..4] == [a, b, c, d] && s[..4][..3] == [a, b, c] && [a, b, c][..2] == [a, b] && [a, b][..1] == [a];
    assert [a][..0] == [];
    assert WordsOctets([a]) == WordOctets(a);
    assert WordsOctets([a, b]) == WordsOctets([a]) + WordOctets(b);
    assert WordsOctets([a, b, c]) == WordsOctets([a, b]) + WordOctets(c);
    assert WordsOctets([a, b, c, d]) == WordsOctets([a, b, c]) + WordOctets(d);
  }

  lemma AbcOctets()
    ensures WordOctets(0xA9993E36) == [0xA9, 0x99, 0x3E, 0x36]
    ensures WordOctets(0x4706816A) == [0x47, 0x06, 0x81, 0x6A]
    ensures WordOctets(0xBA3E2571) == [0xBA, 0x3E, 0x25, 0x71]
    ensures WordOctets(0x7850C26C) == [0x78, 0x50, 0xC2, 0x6C]
    ensures WordOctets(0x9CD0D89D) == [0x9C, 0xD0, 0xD8, 0x9D]
  {
  }
}
