// What the error correction bytes buy: how far apart codewords are, and how a
// damaged codeword is repaired.

module CodeDistance {
  import opened GaloisField
  import opened ReedSolomon

  /** One nonzero coefficient of a polynomial. */
  datatype Term = Term(coefficient: bv8, degree: nat)

  ghost function Terms(p: seq<bv8>): (ts: seq<Term>)
    ensures forall t :: t in ts ==> t.coefficient != 0 && t.degree < |p|
  {
    if p == [] then []
    else (if p[0] != 0 then [Term(p[0], |p| - 1)] else []) + Terms(p[1..])
  }

  ghost predicate DistinctDegrees(ts: seq<Term>) {
    forall i, j :: 0 <= i < j < |ts| ==> ts[i].degree != ts[j].degree
  }

  /** The value at 2^i of the polynomial with these terms. */
  ghost function PowerSum(ts: seq<Term>, i: nat): bv8 {
    if ts == [] then 0
    else Add(Mul(ts[0].coefficient, Exp(i * ts[0].degree)), PowerSum(ts[1..], i))
  }

  lemma {:induction false} EvalTerms(p: seq<bv8>, i: nat)
    ensures Eval(p, Exp(i)) == PowerSum(Terms(p), i)
  {
    hide Add, Mul, Shift;
    if p != [] {
      EvalTerms(p[1..], i);
      EvalPrepend(p[0], p[1..], i);
      assert [p[0]] + p[1..] == p;
      if p[0] == 0 {
        MulUnit(Exp(i * |p[1..]|));
        AddLaws(Eval(p[1..], Exp(i)), 0, 0);
        assert Terms(p) == Terms(p[1..]);
      } else {
        assert Terms(p)[1..] == Terms(p[1..]);
      }
    }
  }

  lemma {:induction false} TermsDistinct(p: seq<bv8>)
    ensures DistinctDegrees(Terms(p))
  {
    if p != [] {
      TermsDistinct(p[1..]);
    }
  }

  // ---- A polynomial with few terms cannot have many consecutive roots ----

  /** The terms with each coefficient multiplied by (2^degree + 2^d). */
  ghost function Twist(ts: seq<Term>, d: nat): (r: seq<Term>)
    ensures |r| == |ts|
    ensures forall k :: 0 <= k < |ts| ==> r[k].degree == ts[k].degree
    ensures forall k :: 0 <= k < |ts| ==>
              r[k].coefficient == Mul(ts[k].coefficient, Add(Exp(ts[k].degree), Exp(d)))
  {
    if ts == [] then []
    else [Term(Mul(ts[0].coefficient, Add(Exp(ts[0].degree), Exp(d))), ts[0].degree)] + Twist(ts[1..], d)
  }

  lemma TwistTerm(c: bv8, e: nat, d: nat, i: nat)
    ensures Mul(Mul(c, Add(Exp(e), Exp(d))), Exp(i * e)) ==
            Add(Mul(c, Exp((i + 1) * e)), Mul(Exp(d), Mul(c, Exp(i * e))))
  {
    hide Add, Mul, Shift;
    var x, y, w := Exp(e), Exp(d), Exp(i * e);
    MulDistributes(x, y, c);
    MulDistributes(Mul(c, x), Mul(c, y), w);
    MulAssociates(c, x, w);
    MulExps(e, i * e);
    assert e + i * e == (i + 1) * e;
    MulCommutes(c, y);
    MulAssociates(y, c, w);
  }

  lemma {:induction false} PowerSumTwist(ts: seq<Term>, d: nat, i: nat)
    ensures PowerSum(Twist(ts, d), i) == Add(PowerSum(ts, i + 1), Mul(Exp(d), PowerSum(ts, i)))
  {
    hide Add, Mul, Shift;
    if ts == [] {
      MulUnit(Exp(d));
      AddLaws(0, 0, 0);
    } else {
      var t := ts[0];
      PowerSumTwist(ts[1..], d, i);
      TwistTerm(t.coefficient, t.degree, d, i);
      assert Twist(ts, d)[1..] == Twist(ts[1..], d);
      var a, b := Mul(t.coefficient, Exp((i + 1) * t.degree)), Mul(t.coefficient, Exp(i * t.degree));
      MulDistributes(b, PowerSum(ts[1..], i), Exp(d));
      MiddleSwap(a, Mul(Exp(d), b), PowerSum(ts[1..], i + 1), Mul(Exp(d), PowerSum(ts[1..], i)));
    }
  }

  /** Twisting by the degree of the first term removes that term from the sum. */
  lemma TwistRemovesHead(ts: seq<Term>, i: nat)
    requires ts != []
    requires PowerSum(ts, i) == 0 && PowerSum(ts, i + 1) == 0
    ensures PowerSum(Twist(ts[1..], ts[0].degree), i) == 0
  {
    hide Add, Mul, Shift;
    var d := ts[0].degree;
    PowerSumTwist(ts, d, i);
    MulUnit(Exp(d));
    AddLaws(0, 0, 0);
    assert PowerSum(Twist(ts, d), i) == 0;
    AddLaws(Exp(d), Exp(d), 0);
    MulUnit(ts[0].coefficient);
    MulUnit(Exp(i * d));
    assert Twist(ts, d)[1..] == Twist(ts[1..], d);
    AddLaws(PowerSum(Twist(ts[1..], d), i), 0, 0);
  }

  /** A Vandermonde argument: the coefficients are forced to zero one twist at a time. */
  lemma {:induction false} FewTermsVanish(ts: seq<Term>)
    requires DistinctDegrees(ts)
    requires forall t :: t in ts ==> t.degree < 255
    requires forall i: nat :: i < |ts| ==> PowerSum(ts, i) == 0
    ensures forall t :: t in ts ==> t.coefficient == 0
    decreases |ts|
  {
    hide Add, Mul, Shift, PowerSum;
    if ts != [] {
      var head, rest := ts[0], ts[1..];
      var twisted := Twist(rest, head.degree);
      forall i: nat | i < |twisted| ensures PowerSum(twisted, i) == 0 {
        TwistRemovesHead(ts, i);
      }
      FewTermsVanish(twisted);
      forall k | 0 <= k < |rest| ensures rest[k].coefficient == 0 {
        assert twisted[k] in twisted;
        assert rest[k] == ts[k + 1] && rest[k] in ts;
        var f := Add(Exp(rest[k].degree), Exp(head.degree));
        MulNonzero(rest[k].coefficient, f);
        AddLaws(Exp(rest[k].degree), Exp(head.degree), 0);
        if f == 0 {
          ExpInjective(rest[k].degree, head.degree);
        }
      }
      ZeroTailSum(ts);
    }
  }

  lemma ZeroTailSum(ts: seq<Term>)
    requires ts != [] && PowerSum(ts, 0) == 0
    requires forall k :: 1 <= k < |ts| ==> ts[k].coefficient == 0
    ensures forall t :: t in ts ==> t.coefficient == 0
  {
    hide Add, Mul, Shift;
    ZeroSum(ts[1..], 0);
    AddLaws(Mul(ts[0].coefficient, Exp(0)), 0, 0);
    assert 0 * ts[0].degree == 0;
    ExpZero();
    MulUnit(ts[0].coefficient);
  }

  lemma {:induction false} ZeroSum(ts: seq<Term>, i: nat)
    requires forall k :: 0 <= k < |ts| ==> ts[k].coefficient == 0
    ensures PowerSum(ts, i) == 0
  {
    if ts != [] {
      ZeroSum(ts[1..], i);
      MulUnit(Exp(i * ts[0].degree));
    }
  }

  // ---- Distance ----

  /** The number of positions at which two words of one length differ. */
  ghost function Differences(u: seq<bv8>, v: seq<bv8>): nat
    requires |u| == |v|
  {
    if u == [] then 0 else (if u[0] != v[0] then 1 else 0) + Differences(u[1..], v[1..])
  }

  lemma {:induction false} TermsOfSum(u: seq<bv8>, v: seq<bv8>)
    requires |u| == |v|
    ensures |Terms(AddPoly(u, v))| == Differences(u, v)
  {
    if u != [] {
      TermsOfSum(u[1..], v[1..]);
      assert AddPoly(u, v)[1..] == AddPoly(u[1..], v[1..]);
      AddLaws(u[0], v[0], 0);
    }
  }

  lemma {:induction false} NoDifferences(u: seq<bv8>, v: seq<bv8>)
    requires |u| == |v|
    ensures Differences(u, v) == 0 <==> u == v
  {
    if u != [] {
      NoDifferences(u[1..], v[1..]);
      assert u == [u[0]] + u[1..] && v == [v[0]] + v[1..];
    }
  }

  /** Two different codewords of at most 255 bytes differ in more than `nec` places. */
  lemma MinimumDistance(u: seq<bv8>, v: seq<bv8>, nec: nat)
    requires |u| == |v| <= 255 && u != v
    requires IsCodeword(u, nec) && IsCodeword(v, nec)
    ensures Differences(u, v) > nec
  {
    hide Add, Mul, Shift, Eval, AddPoly;
    var p := AddPoly(u, v);
    TermsOfSum(u, v);
    NoDifferences(u, v);
    var ts := Terms(p);
    if |ts| <= nec {
      forall i: nat | i < |ts| ensures PowerSum(ts, i) == 0 {
        EvalTerms(p, i);
        EvalAddPoly(u, v, Exp(i));
        AddLaws(Eval(u, Exp(i)), Eval(v, Exp(i)), 0);
      }
      TermsDistinct(p);
      assert ts[0] in ts;
      FewTermsVanish(ts);
    }
  }

  lemma {:induction false} Triangle(u: seq<bv8>, v: seq<bv8>, w: seq<bv8>)
    requires |u| == |v| == |w|
    ensures Differences(u, v) <= Differences(u, w) + Differences(w, v)
  {
    if u != [] {
      Triangle(u[1..], v[1..], w[1..]);
    }
  }

  /** Damage to at most half of `nec` bytes leaves only one codeword in reach. */
  lemma UniqueDecoding(received: seq<bv8>, u: seq<bv8>, v: seq<bv8>, nec: nat)
    requires |u| == |v| == |received| <= 255
    requires IsCodeword(u, nec) && IsCodeword(v, nec)
    requires 2 * Differences(u, received) <= nec && 2 * Differences(received, v) <= nec
    ensures u == v
  {
    Triangle(u, v, received);
    if u != v {
      MinimumDistance(u, v, nec);
    }
  }

  lemma {:induction false} SamePrefixDifferences(data: seq<bv8>, e: seq<bv8>, f: seq<bv8>)
    requires |e| == |f|
    ensures Differences(data + e, data + f) <= |e|
    decreases |data| + |e|
  {
    if data != [] {
      SamePrefixDifferences(data[1..], e, f);
      assert (data + e)[1..] == data[1..] + e && (data + f)[1..] == data[1..] + f;
    } else {
      assert data + e == e && data + f == f;
      if e != [] {
        SamePrefixDifferences([], e[1..], f[1..]);
        assert [] + e[1..] == e[1..] && [] + f[1..] == f[1..];
      }
    }
  }

  /** The coder has no choice: only one block of `nec` bytes completes the data to a codeword. */
  lemma EccUnique(data: seq<bv8>, e: seq<bv8>, f: seq<bv8>, nec: nat)
    requires |e| == |f| == nec && |data| + nec <= 255
    requires IsCodeword(data + e, nec) && IsCodeword(data + f, nec)
    ensures e == f
  {
    SamePrefixDifferences(data, e, f);
    if data + e != data + f {
      MinimumDistance(data + e, data + f, nec);
    }
    assert e == (data + e)[|data|..] && f == (data + f)[|data|..];
  }

  // ---- Repairing one damaged byte ----

  /** Syndrome decoding of one error: the first value is the error, the quotient locates it. */
  ghost function Repair(word: seq<bv8>): (r: seq<bv8>)
    ensures |r| == |word|
  {
    var s0, s1 := Eval(word, Exp(0)), Eval(word, Exp(1));
    if s0 == 0 || s1 == 0 then word
    else
      var degree := (Log(s1) + 255 - Log(s0)) % 255;
      if degree >= |word| then word
      else word[|word| - 1 - degree := Add(word[|word| - 1 - degree], s0)]
  }

  lemma {:induction false} EvalUpdate(p: seq<bv8>, at: nat, degree: nat, value: bv8, k: nat)
    requires at + degree + 1 == |p|
    ensures Eval(p[at := value], Exp(k)) ==
            Add(Eval(p, Exp(k)), Mul(Add(p[at], value), Exp(k * degree)))
  {
    hide Add, Mul, Shift, Eval;
    var q := p[at := value];
    EvalPrepend(p[0], p[1..], k);
    EvalPrepend(q[0], q[1..], k);
    assert [p[0]] + p[1..] == p && [q[0]] + q[1..] == q;
    var high := Exp(k * |p[1..]|);
    var rest := Eval(p[1..], Exp(k));
    if at == 0 {
      assert q[1..] == p[1..];
      ShiftedSum(Mul(p[0], high), Mul(value, high), rest);
      MulDistributes(p[0], value, high);
    } else {
      assert q[1..] == p[1..][at - 1 := value];
      EvalUpdate(p[1..], at - 1, degree, value, k);
      AddLaws(Mul(p[0], high), rest, Mul(Add(p[at], value), Exp(k * degree)));
    }
  }

  lemma ShiftedSum(a: bv8, b: bv8, c: bv8)
    ensures Add(b, c) == Add(Add(a, c), Add(a, b))
  {
    hide Add;
    AddLaws(a, b, 0);
    AddLaws(a, c, Add(a, b));
    AddLaws(c, a, Add(a, b));
    AddLaws(a, a, b);
    AddLaws(a, a, 0);
    AddLaws(b, c, 0);
    AddLaws(Add(a, c), Add(a, b), 0);
    AddLaws(c, a, b);
    AddLaws(Add(c, a), a, b);
    AddLaws(c, a, a);
  }

  lemma LogDifference(l: nat, degree: nat)
    requires l < 255 && degree < 255
    ensures ((l + degree) % 255 + 255 - l) % 255 == degree && degree % 255 == degree
    ensures (l + degree) % 255 % 255 == (l + degree) % 255
  {
  }

  lemma LogQuotient(e: bv8, degree: nat)
    requires e != 0 && degree < 255
    ensures Mul(e, Exp(degree)) != 0
    ensures (Log(Mul(e, Exp(degree))) + 255 - Log(e)) % 255 == degree
  {
    hide Shift, Log, Exp;
    LogExp(degree);
    MulNonzero(e, Exp(degree));
    LogExp((Log(e) + degree) % 255);
    LogDifference(Log(e), degree);
  }

  /** Whatever one byte of a codeword is overwritten with, the codeword comes back. */
  lemma RepairOneByte(word: seq<bv8>, nec: nat, at: nat, value: bv8)
    requires nec >= 2 && IsCodeword(word, nec)
    requires at < |word| <= 255
    ensures Repair(word[at := value]) == word
  {
    hide Add, Mul, Shift, Eval;
    var damaged := word[at := value];
    var e := Add(word[at], value);
    var degree := |word| - 1 - at;
    EvalUpdate(word, at, degree, value, 0);
    EvalUpdate(word, at, degree, value, 1);
    assert 0 * degree == 0 && 1 * degree == degree;
    ExpZero();
    MulUnit(e);
    assert Eval(word, Exp(0)) == 0 && Eval(word, Exp(1)) == 0;
    AddLaws(e, 0, 0);
    AddLaws(Mul(e, Exp(degree)), 0, 0);
    AddLaws(word[at], value, 0);
    if e == 0 {
      assert damaged == word;
    } else {
      LogQuotient(e, degree);
      AddLaws(value, word[at], value);
      AddLaws(value, word[at], 0);
      RestoreByte(word[at], value);
      assert Repair(damaged) == damaged[at := Add(value, e)];
      assert damaged[at := word[at]] == word;
    }
  }

  lemma RestoreByte(original: bv8, value: bv8)
    ensures Add(value, Add(original, value)) == original
  {
  }
}
