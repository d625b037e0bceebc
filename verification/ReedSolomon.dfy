// The Reed-Solomon coder of the QR labels: in-place polynomial division by the
// product of (x + 2^i), and what the resulting code guarantees.

/** Polynomials are byte sequences, highest power first. */
module ReedSolomon {
  import opened GaloisField

  ghost function Eval(p: seq<bv8>, x: bv8): bv8
    decreases |p|
  {
    if p == [] then 0 else Add(Mul(Eval(p[..|p| - 1], x), x), p[|p| - 1])
  }

  ghost function AddPoly(p: seq<bv8>, q: seq<bv8>): (r: seq<bv8>)
    requires |p| == |q|
    ensures |r| == |p|
  {
    seq(|p|, i requires 0 <= i < |p| => Add(p[i], q[i]))
  }

  ghost function Scale(p: seq<bv8>, c: bv8): (r: seq<bv8>)
    ensures |r| == |p|
  {
    seq(|p|, i requires 0 <= i < |p| => Mul(p[i], c))
  }

  function Zeros(n: nat): (z: seq<bv8>)
    ensures |z| == n && forall i :: 0 <= i < n ==> z[i] == 0
  {
    seq(n, _ => 0)
  }

  /** `word` is a codeword when its polynomial vanishes at the first `nec` powers of 2. */
  ghost predicate IsCodeword(word: seq<bv8>, nec: nat) {
    forall i: nat :: i < nec ==> Eval(word, Exp(i)) == 0
  }

  // ---- Evaluation is linear ----

  lemma MiddleSwap(a: bv8, b: bv8, c: bv8, d: bv8)
    ensures Add(Add(a, b), Add(c, d)) == Add(Add(a, c), Add(b, d))
  {
    hide Add;
    AddLaws(a, b, Add(c, d));
    AddLaws(b, c, d);
    AddLaws(c, b, d);
    AddLaws(a, c, Add(b, d));
  }

  lemma {:induction false} EvalAddPoly(p: seq<bv8>, q: seq<bv8>, x: bv8)
    requires |p| == |q|
    ensures Eval(AddPoly(p, q), x) == Add(Eval(p, x), Eval(q, x))
    decreases |p|
  {
    hide Add, Mul;
    if p == [] {
      AddLaws(0, 0, 0);
    } else {
      var n := |p| - 1;
      var r := AddPoly(p, q);
      assert r[..n] == AddPoly(p[..n], q[..n]);
      EvalAddPoly(p[..n], q[..n], x);
      MulDistributes(Eval(p[..n], x), Eval(q[..n], x), x);
      MiddleSwap(Mul(Eval(p[..n], x), x), Mul(Eval(q[..n], x), x), p[n], q[n]);
    }
  }

  lemma {:induction false} EvalScale(p: seq<bv8>, c: bv8, x: bv8)
    ensures Eval(Scale(p, c), x) == Mul(Eval(p, x), c)
    decreases |p|
  {
    hide Add, Mul;
    if p == [] {
      MulUnit(c);
    } else {
      var n := |p| - 1;
      assert Scale(p, c)[..n] == Scale(p[..n], c);
      EvalScale(p[..n], c, x);
      var e := Eval(p[..n], x);
      MulAssociates(e, c, x);
      MulCommutes(c, x);
      MulAssociates(e, x, c);
      MulDistributes(Mul(e, x), p[n], c);
    }
  }

  lemma EvalAppend(p: seq<bv8>, c: bv8, x: bv8)
    ensures Eval(p + [c], x) == Add(Mul(Eval(p, x), x), c)
  {
    assert (p + [c])[..|p|] == p;
  }

  lemma {:induction false} EvalPrepend(c: bv8, p: seq<bv8>, k: nat)
    ensures Eval([c] + p, Exp(k)) == Add(Mul(c, Exp(k * |p|)), Eval(p, Exp(k)))
    decreases |p|
  {
    hide Add, Mul, Shift;
    var x := Exp(k);
    if p == [] {
      EvalAppend([], c, x);
      assert [] + [c] == [c] + p;
      assert Exp(k * |p|) == 1 by { ExpZero(); assert k * |p| == 0; }
      MulUnit(c);
      MulUnit(x);
      AddLaws(c, 0, 0);
    } else {
      var n := |p| - 1;
      EvalPrepend(c, p[..n], k);
      EvalAppend([c] + p[..n], p[n], x);
      assert [c] + p[..n] + [p[n]] == [c] + p;
      var h := Mul(c, Exp(k * n));
      MulDistributes(h, Eval(p[..n], x), x);
      MulAssociates(c, Exp(k * n), x);
      MulExps(k * n, k);
      assert k * n + k == k * |p|;
      AddLaws(Mul(h, x), Mul(Eval(p[..n], x), x), p[n]);
    }
  }

  lemma MulExps(m: nat, n: nat)
    ensures Mul(Exp(m), Exp(n)) == Exp(m + n)
  {
    hide Shift;
    MulExp(Exp(m), n);
    ShiftCompose(1, m, n);
  }

  lemma {:induction false} EvalZeros(n: nat, x: bv8)
    ensures Eval(Zeros(n), x) == 0
  {
    hide Add, Mul;
    if n > 0 {
      EvalZeros(n - 1, x);
      assert Zeros(n)[..n - 1] == Zeros(n - 1);
      MulUnit(x);
      AddLaws(0, 0, 0);
    }
  }

  // ---- The generator polynomial ----

  /** `g` times (x + r). */
  ghost function TimesRoot(g: seq<bv8>, r: bv8): (p: seq<bv8>)
    ensures |p| == |g| + 1
  {
    AddPoly(g + [0], [0] + Scale(g, r))
  }

  /** The monic product of (x + 2^i) for i below n. */
  ghost function Generator(n: nat): (g: seq<bv8>)
    ensures |g| == n + 1 && g[0] == 1
  {
    if n == 0 then [1] else TimesRoot(Generator(n - 1), Exp(n - 1))
  }

  lemma {:induction false} EvalLeadingZero(p: seq<bv8>, x: bv8)
    ensures Eval([0] + p, x) == Eval(p, x)
    decreases |p|
  {
    hide Add, Mul;
    if p == [] {
      EvalZeros(1, x);
      assert [0] + p == Zeros(1);
    } else {
      EvalLeadingZero(p[..|p| - 1], x);
      assert ([0] + p)[..|p|] == [0] + p[..|p| - 1];
    }
  }

  lemma EvalTimesRoot(g: seq<bv8>, r: bv8, x: bv8)
    ensures Eval(TimesRoot(g, r), x) == Mul(Eval(g, x), Add(x, r))
  {
    hide Add, Mul;
    EvalAddPoly(g + [0], [0] + Scale(g, r), x);
    EvalAppend(g, 0, x);
    AddLaws(Mul(Eval(g, x), x), 0, 0);
    EvalLeadingZero(Scale(g, r), x);
    EvalScale(g, r, x);
    MulDistributes(x, r, Eval(g, x));
  }

  lemma {:induction false} GeneratorVanishes(n: nat, i: nat)
    requires i < n
    ensures Eval(Generator(n), Exp(i)) == 0
  {
    hide Add, Mul, Shift;
    var x := Exp(i);
    EvalTimesRoot(Generator(n - 1), Exp(n - 1), x);
    if i == n - 1 {
      AddLaws(x, x, 0);
      MulUnit(Eval(Generator(n - 1), x));
    } else {
      GeneratorVanishes(n - 1, i);
      MulUnit(Add(x, Exp(n - 1)));
    }
  }

  /** Coefficient `m` of the product after the first `j` coefficients of `g` are used. */
  ghost function Partial(g: seq<bv8>, r: bv8, j: nat, m: nat): bv8
    requires j <= |g| && m <= |g|
  {
    Add(if m < j then g[m] else 0, if 0 < m <= j then Mul(g[m - 1], r) else 0)
  }

  lemma PartialStep(g: seq<bv8>, r: bv8, j: nat)
    requires j < |g|
    ensures forall m :: 0 <= m <= |g| && m != j && m != j + 1 ==> Partial(g, r, j + 1, m) == Partial(g, r, j, m)
    ensures Partial(g, r, j + 1, j) == Add(Partial(g, r, j, j), g[j])
    ensures Partial(g, r, j, j + 1) == 0 && Partial(g, r, j + 1, j + 1) == Add(0, Mul(g[j], r))
  {
    hide Mul;
  }

  lemma ProductAt(g: seq<bv8>, r: bv8, m: nat)
    requires m <= |g|
    ensures TimesRoot(g, r)[m] == Add(if m < |g| then g[m] else 0, if 0 < m then Mul(g[m - 1], r) else 0)
  {
    hide Mul, Add;
    assert (g + [0])[m] == if m < |g| then g[m] else 0;
    assert ([0] + Scale(g, r))[m] == if 0 < m then Scale(g, r)[m - 1] else 0;
  }

  lemma PartialDone(g: seq<bv8>, r: bv8)
    ensures forall m :: 0 <= m <= |g| ==> Partial(g, r, |g|, m) == TimesRoot(g, r)[m] && Partial(g, r, 0, m) == 0
  {
    hide Mul, Add, TimesRoot;
    AddLaws(0, 0, 0);
    forall m | 0 <= m <= |g| ensures Partial(g, r, |g|, m) == TimesRoot(g, r)[m] && Partial(g, r, 0, m) == 0 {
      ProductAt(g, r, m);
    }
  }

  /** One turn of the generator loop: every product of coefficients is added into place. */
  method MultiplyByRoot(t: Tables, gen: seq<bv8>, root: bv8) returns (product: seq<bv8>)
    requires t.Valid()
    ensures product == TimesRoot(gen, root)
  {
    hide Mul, Add;
    var r := [1, root];
    var ng := new bv8[|gen| + 1](_ => 0);
    PartialDone(gen, root);
    for j := 0 to |gen|
      invariant forall m :: 0 <= m <= |gen| ==> ng[m] == Partial(gen, root, j, m)
    {
      PartialStep(gen, root, j);
      MulUnit(gen[j]);
      for k := 0 to 2
        invariant forall m :: 0 <= m <= |gen| ==>
                    ng[m] == Partial(gen, root, if j <= m < j + k then j + 1 else j, m)
      {
        ng[j + k] := Add(ng[j + k], t.GfMul(gen[j], r[k]));
      }
    }
    product := ng[..];
  }

  /** The first loop of the coder: the generator grows by one root a turn. */
  method BuildGenerator(t: Tables, nec: nat) returns (gen: seq<bv8>)
    requires t.Valid()
    ensures gen == Generator(nec)
  {
    gen := [1];
    for i := 0 to nec
      invariant gen == Generator(i)
    {
      PowersOfTwo(i);
      gen := MultiplyByRoot(t, gen, t.GfPow(2, i));
    }
  }

  // ---- Division: the remainder makes a codeword ----

  /** The message with `c` times the generator added at offset `i`, as far as coefficient `j`. */
  ghost predicate Reduced(before: seq<bv8>, after: seq<bv8>, gen: seq<bv8>, c: bv8, i: nat, j: nat) {
    && |after| == |before| && i + |gen| <= |before| && j <= |gen|
    && forall m :: 0 <= m < |before| ==>
         after[m] == if i <= m < i + j then Add(before[m], Mul(gen[m - i], c)) else before[m]
  }

  lemma EvalTrailingZeros(p: seq<bv8>, n: nat, x: bv8)
    requires Eval(p, x) == 0
    ensures Eval(p + Zeros(n), x) == 0
    decreases n
  {
    hide Add, Mul;
    if n == 0 {
      assert p + Zeros(0) == p;
    } else {
      EvalTrailingZeros(p, n - 1, x);
      assert p + Zeros(n) == p + Zeros(n - 1) + [0];
      EvalAppend(p + Zeros(n - 1), 0, x);
      MulUnit(x);
      AddLaws(0, 0, 0);
    }
  }

  lemma {:induction false} EvalLeadingZeros(n: nat, p: seq<bv8>, x: bv8)
    ensures Eval(Zeros(n) + p, x) == Eval(p, x)
    decreases n
  {
    if n == 0 {
      assert Zeros(0) + p == p;
    } else {
      EvalLeadingZeros(n - 1, p, x);
      assert Zeros(n) + p == [0] + (Zeros(n - 1) + p);
      EvalLeadingZero(Zeros(n - 1) + p, x);
    }
  }

  /** The generator times `c`, moved to offset `i` of a polynomial of `n` coefficients. */
  ghost function Moved(gen: seq<bv8>, c: bv8, i: nat, n: nat): (d: seq<bv8>)
    requires i + |gen| <= n
    ensures |d| == n
    ensures forall m :: 0 <= m < n ==> d[m] == if i <= m < i + |gen| then Mul(gen[m - i], c) else 0
  {
    Zeros(i) + (Scale(gen, c) + Zeros(n - i - |gen|))
  }

  lemma ReducedIsSum(before: seq<bv8>, after: seq<bv8>, gen: seq<bv8>, c: bv8, i: nat)
    requires Reduced(before, after, gen, c, i, |gen|)
    ensures after == AddPoly(before, Moved(gen, c, i, |before|))
  {
    hide Add, Mul, Moved;
    var d := Moved(gen, c, i, |before|);
    forall m | 0 <= m < |before| ensures after[m] == Add(before[m], d[m]) {
      AddLaws(before[m], 0, 0);
    }
  }

  lemma MovedVanishes(gen: seq<bv8>, c: bv8, i: nat, n: nat, x: bv8)
    requires i + |gen| <= n && Eval(gen, x) == 0
    ensures Eval(Moved(gen, c, i, n), x) == 0
  {
    hide Add, Mul, Eval;
    var scaled := Scale(gen, c);
    EvalScale(gen, c, x);
    MulUnit(c);
    EvalTrailingZeros(scaled, n - i - |gen|, x);
    EvalLeadingZeros(i, scaled + Zeros(n - i - |gen|), x);
  }

  /** Adding a multiple of the generator changes no value at a root of it. */
  lemma ReducedKeepsValues(before: seq<bv8>, after: seq<bv8>, gen: seq<bv8>, c: bv8, i: nat, x: bv8)
    requires Reduced(before, after, gen, c, i, |gen|)
    requires Eval(gen, x) == 0
    ensures Eval(after, x) == Eval(before, x)
  {
    hide Add, Mul, Eval, AddPoly, Moved;
    ReducedIsSum(before, after, gen, c, i);
    MovedVanishes(gen, c, i, |before|, x);
    EvalAddPoly(before, Moved(gen, c, i, |before|), x);
    AddLaws(Eval(before, x), 0, 0);
  }

  /** `p` and `q` agree at the first `nec` powers of 2. */
  ghost predicate SameValues(p: seq<bv8>, q: seq<bv8>, nec: nat) {
    forall k: nat :: k < nec ==> Eval(p, Exp(k)) == Eval(q, Exp(k))
  }

  lemma ReducedSameValues(before: seq<bv8>, after: seq<bv8>, nec: nat, c: bv8, i: nat)
    requires Reduced(before, after, Generator(nec), c, i, nec + 1)
    ensures SameValues(after, before, nec)
  {
    hide Eval;
    forall k: nat | k < nec ensures Eval(after, Exp(k)) == Eval(before, Exp(k)) {
      GeneratorVanishes(nec, k);
      ReducedKeepsValues(before, after, Generator(nec), c, i, Exp(k));
    }
  }

  /** The inner division loop: clears the leading coefficient at offset `i`. */
  method ReduceAt(t: Tables, msg: array<bv8>, gen: seq<bv8>, i: nat)
    requires t.Valid() && msg !in t.Repr()
    requires |gen| > 0 && gen[0] == 1 && i + |gen| <= msg.Length
    modifies msg
    ensures Reduced(old(msg[..]), msg[..], gen, old(msg[i]), i, |gen|)
    ensures msg[i] == 0
  {
    hide Mul, Add;
    var c := msg[i];
    MulUnit(c);
    AddLaws(c, c, 0);
    if c != 0 {
      for j := 0 to |gen|
        invariant Reduced(old(msg[..]), msg[..], gen, c, i, j)
      {
        msg[i + j] := Add(msg[i + j], t.GfMul(gen[j], c));
      }
      assert msg[i] == Add(c, Mul(gen[0], c));
    } else {
      ReducedByZero(msg[..], gen, i);
    }
  }

  lemma ReducedByZero(p: seq<bv8>, gen: seq<bv8>, i: nat)
    requires i + |gen| <= |p|
    ensures Reduced(p, p, gen, 0, i, |gen|)
  {
    forall m | i <= m < i + |gen| ensures Add(p[m], Mul(gen[m - i], 0)) == p[m] {
      MulUnit(gen[m - i]);
      AddLaws(p[m], 0, 0);
    }
  }

  /** The division loop: appends `nec` bytes that complete `data` to a codeword. */
  method RsEcc(t: Tables, data: seq<bv8>, nec: nat) returns (ecc: seq<bv8>)
    requires t.Valid()
    ensures |ecc| == nec
    ensures IsCodeword(data + ecc, nec)
  {
    hide Mul, Add, Shift, Eval, Reduced, Generator, IsCodeword;
    var gen := BuildGenerator(t, nec);
    var padded := data + seq(nec, _ => 0);
    var msg := new bv8[|padded|](i requires 0 <= i < |padded| => padded[i]);
    assert msg[..] == padded == data + Zeros(nec);
    for i := 0 to |data|
      invariant forall m :: 0 <= m < i ==> msg[m] == 0
      invariant SameValues(msg[..], padded, nec)
    {
      ghost var before := msg[..];
      ReduceAt(t, msg, gen, i);
      ReducedSameValues(before, msg[..], nec, before[i], i);
      ReducedBefore(before, msg[..], gen, before[i], i);
    }
    ecc := msg[|data|..];
    assert msg[..] == Zeros(|data|) + ecc;
    RemainderCompletes(data, ecc);
  }

  lemma ReducedBefore(before: seq<bv8>, after: seq<bv8>, gen: seq<bv8>, c: bv8, i: nat)
    requires Reduced(before, after, gen, c, i, |gen|)
    ensures |after| == |before| && forall m :: 0 <= m < i ==> after[m] == before[m]
  {
  }

  lemma SplitSum(data: seq<bv8>, ecc: seq<bv8>)
    ensures AddPoly(data + Zeros(|ecc|), Zeros(|data|) + ecc) == data + ecc
  {
    var high, low := data + Zeros(|ecc|), Zeros(|data|) + ecc;
    forall m | 0 <= m < |high| ensures (data + ecc)[m] == Add(high[m], low[m]) {
      AddLaws(if m < |data| then data[m] else ecc[m - |data|], 0, 0);
    }
  }

  lemma RemainderCompletes(data: seq<bv8>, ecc: seq<bv8>)
    requires SameValues(Zeros(|data|) + ecc, data + Zeros(|ecc|), |ecc|)
    ensures IsCodeword(data + ecc, |ecc|)
  {
    hide Mul, Add, Shift, Eval, AddPoly;
    SplitSum(data, ecc);
    var high, low := data + Zeros(|ecc|), Zeros(|data|) + ecc;
    forall k: nat | k < |ecc| ensures Eval(data + ecc, Exp(k)) == 0 {
      EvalAddPoly(high, low, Exp(k));
      AddLaws(Eval(high, Exp(k)), Eval(low, Exp(k)), 0);
    }
  }
}
