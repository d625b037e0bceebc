// Octets and big-endian numbers, shared by the wire formats.

module Bytes {

  type byte = x: int | 0 <= x < 256

  function Pow256(k: nat): (p: nat)
    ensures p > 0
  {
    if k == 0 then 1 else 256 * Pow256(k - 1)
  }

  /** The low `k` octets of `n`, most significant first. */
  function BigEndian(n: nat, k: nat): (s: seq<byte>)
    ensures |s| == k
    decreases k
  {
    if k == 0 then [] else BigEndian(n / 256, k - 1) + [n % 256]
  }

  function FromBigEndian(s: seq<byte>): nat {
    if s == [] then 0 else 256 * FromBigEndian(s[..|s| - 1]) + s[|s| - 1]
  }

  lemma {:induction false} BigEndianRoundTrip(n: nat, k: nat)
    requires n < Pow256(k)
    ensures FromBigEndian(BigEndian(n, k)) == n
    decreases k
  {
    if k > 0 {
      BigEndianRoundTrip(n / 256, k - 1);
      assert BigEndian(n, k)[..k - 1] == BigEndian(n / 256, k - 1);
    }
  }

  lemma {:induction false} FromBigEndianBound(s: seq<byte>)
    ensures FromBigEndian(s) < Pow256(|s|)
    ensures BigEndian(FromBigEndian(s), |s|) == s
    decreases |s|
  {
    if s != [] {
      FromBigEndianBound(s[..|s| - 1]);
      assert s == s[..|s| - 1] + [s[|s| - 1]];
    }
  }

  /** `n` shifted right by `i` whole octets. */
  function Shifted(n: nat, i: nat): nat {
    if i == 0 then n else Shifted(n, i - 1) / 256
  }

  lemma {:induction false} ShiftedFirst(n: nat, i: nat)
    ensures Shifted(n, i + 1) == Shifted(n / 256, i)
  {
    if i > 0 {
      ShiftedFirst(n, i - 1);
    }
  }

  lemma {:induction false} ShiftedOut(n: nat, k: nat)
    requires n < Pow256(k)
    ensures Shifted(n, k) == 0
    decreases k
  {
    if k > 0 {
      ShiftedOut(n / 256, k - 1);
      ShiftedFirst(n, k - 1);
    }
  }

  /** Appends `n` big-endian in `k` octets, from the most significant down. */
  method AppendBigEndian(out: seq<byte>, n: nat, k: nat) returns (r: seq<byte>)
    requires n < Pow256(k)
    ensures r == out + BigEndian(n, k)
  {
    r := out;
    ShiftedOut(n, k);
    var i := k;
    while i > 0
      invariant 0 <= i <= k
      invariant r == out + BigEndian(Shifted(n, i), k - i)
    {
      i := i - 1;
      r := r + [Shifted(n, i) % 256];
    }
  }
}
