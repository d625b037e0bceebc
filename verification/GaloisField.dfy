// The field of 256 elements behind the QR error correction code: bytes are the
// polynomials over two elements modulo x^8 + x^4 + x^3 + x^2 + 1 (0x11D).

/** Multiplication as the tables define it, and the proof that it is a field multiplication. */
module GaloisField {

  /** Addition of the field: exclusive or. */
  function Add(a: bv8, b: bv8): bv8 {
    a ^ b
  }

  /** Multiplication by x, the element 2. */
  function Double(a: bv8): bv8 {
    if a & 0x80 != 0 then (a << 1) ^ 0x1D else a << 1
  }

  /** Multiplication by the n-th power of x. */
  function Shift(a: bv8, n: nat): bv8
    decreases n
  {
    if n == 0 then a else Double(Shift(a, n - 1))
  }

  /** The n-th power of the generator 2. */
  function Exp(n: nat): bv8 {
    Shift(1, n)
  }

  // ---- Doubling is linear over exclusive or ----

  lemma ShiftBits(a: bv8, b: bv8)
    ensures (a ^ b) << 1 == (a << 1) ^ (b << 1)
    ensures (a ^ b) & 0x80 == (a & 0x80) ^ (b & 0x80)
  {
  }

  lemma TopBit(a: bv8)
    ensures a & 0x80 == 0 || a & 0x80 == 0x80
  {
  }

  lemma XorCancel(a: bv8, b: bv8, m: bv8)
    ensures (a ^ m) ^ (b ^ m) == a ^ b
    ensures (a ^ m) ^ b == (a ^ b) ^ m == a ^ (b ^ m)
  {
  }

  lemma DoubleAdd(a: bv8, b: bv8)
    ensures Double(Add(a, b)) == Add(Double(a), Double(b))
  {
    ShiftBits(a, b);
    TopBit(a);
    TopBit(b);
    XorCancel(a << 1, b << 1, 0x1D);
  }

  lemma DoubleKernel(a: bv8)
    ensures Double(a) == 0 <==> a == 0
  {
  }

  lemma {:induction false} ShiftAdd(a: bv8, b: bv8, n: nat)
    ensures Shift(Add(a, b), n) == Add(Shift(a, n), Shift(b, n))
    decreases n
  {
    if n > 0 {
      ShiftAdd(a, b, n - 1);
      DoubleAdd(Shift(a, n - 1), Shift(b, n - 1));
    }
  }

  lemma {:induction false} ShiftKernel(a: bv8, n: nat)
    ensures Shift(a, n) == 0 <==> a == 0
    decreases n
  {
    if n > 0 {
      ShiftKernel(a, n - 1);
      DoubleKernel(Shift(a, n - 1));
    }
  }

  lemma {:induction false} ShiftCompose(a: bv8, m: nat, n: nat)
    ensures Shift(Shift(a, m), n) == Shift(a, m + n)
    decreases n
  {
    if n > 0 {
      ShiftCompose(a, m, n - 1);
      assert Shift(a, m + n) == Double(Shift(a, m + (n - 1)));
    }
  }

  lemma AddLaws(a: bv8, b: bv8, c: bv8)
    ensures Add(a, b) == 0 <==> a == b
    ensures Add(a, 0) == a == Add(0, a)
    ensures Add(a, b) == Add(b, a)
    ensures Add(Add(a, b), c) == Add(a, Add(b, c))
  {
  }

  lemma ShiftInjective(a: bv8, b: bv8, n: nat)
    requires Shift(a, n) == Shift(b, n)
    ensures a == b
  {
    hide Add, Double;
    ShiftAdd(a, b, n);
    AddLaws(Shift(a, n), Shift(b, n), 0);
    ShiftKernel(Add(a, b), n);
    AddLaws(a, b, 0);
  }

  // ---- The generator has order exactly 255 ----

  // Each line steps fifteen doublings further; 17 such steps make 255.
  lemma MilestonesLow()
    ensures Shift(0x01, 15) == 0x26 && Shift(0x26, 15) == 0x60 && Shift(0x60, 15) == 0xC1
    ensures Shift(0xC1, 15) == 0xB9 && Shift(0xB9, 15) == 0x0F && Shift(0x0F, 15) == 0xDF
    ensures Shift(0xC1, 6) == 0x0A && Shift(0x0F, 10) == 0xD6
  {
  }

  lemma MilestonesMiddle()
    ensures Shift(0xDF, 15) == 0x1A && Shift(0x1A, 15) == 0x3B && Shift(0x3B, 15) == 0xA9
    ensures Shift(0xA9, 15) == 0x55 && Shift(0x55, 15) == 0x91 && Shift(0x91, 15) == 0x96
  {
  }

  lemma MilestonesHigh()
    ensures Shift(0x96, 15) == 0x64 && Shift(0x64, 15) == 0x59 && Shift(0x59, 15) == 0x24
    ensures Shift(0x24, 15) == 0x2C && Shift(0x2C, 15) == 0x01
  {
  }

  lemma PowersTo90()
    ensures Exp(15) == 0x26 && Exp(51) == 0x0A && Exp(85) == 0xD6 && Exp(90) == 0xDF
  {
    hide Shift;
    MilestonesLow();
    ShiftCompose(1, 15, 15);
    ShiftCompose(1, 30, 15);
    ShiftCompose(1, 45, 15);
    ShiftCompose(1, 45, 6);
    ShiftCompose(1, 60, 15);
    ShiftCompose(1, 75, 10);
    ShiftCompose(1, 75, 15);
  }

  lemma PowersTo180()
    ensures Exp(180) == 0x96
  {
    hide Shift;
    PowersTo90();
    MilestonesMiddle();
    ShiftCompose(1, 90, 15);
    ShiftCompose(1, 105, 15);
    ShiftCompose(1, 120, 15);
    ShiftCompose(1, 135, 15);
    ShiftCompose(1, 150, 15);
    ShiftCompose(1, 165, 15);
  }

  /** The generator returns to 1 after 255 steps, but not at the three maximal proper divisors. */
  lemma KeyPowers()
    ensures Exp(255) == 1 && Exp(8) == 0x1D
    ensures Exp(85) != 1 && Exp(51) != 1 && Exp(15) != 1
  {
    hide Shift;
    PowersTo90();
    PowersTo180();
    MilestonesHigh();
    ShiftCompose(1, 180, 15);
    ShiftCompose(1, 195, 15);
    ShiftCompose(1, 210, 15);
    ShiftCompose(1, 225, 15);
    ShiftCompose(1, 240, 15);
    EighthPower();
  }

  /** The eighth power is the low byte of the field polynomial 0x11D. */
  lemma EighthPower()
    ensures Exp(8) == 0x1D
  {
    assert Shift(1, 4) == 0x10;
    ShiftCompose(1, 4, 4);
    assert Shift(0x10, 4) == 0x1D;
  }

  lemma {:induction false} ExpMultiple(d: nat, q: nat)
    requires Exp(d) == 1
    ensures Exp(d * q) == 1
    decreases q
  {
    if q > 0 {
      ExpMultiple(d, q - 1);
      assert d * q == d * (q - 1) + d;
      ShiftCompose(1, d * (q - 1), d);
    } else {
      assert d * q == 0;
    }
  }

  /** Exponents only matter modulo a period. */
  lemma ExpReduce(d: nat, n: nat)
    requires d > 0 && Exp(d) == 1
    ensures Exp(n) == Exp(n % d)
  {
    ExpMultiple(d, n / d);
    assert n == d * (n / d) + n % d;
    ShiftCompose(1, d * (n / d), n % d);
  }

  lemma ProductBound(q: nat, d: nat)
    requires d >= 16
    ensures q * d >= q * 16
  {
  }

  lemma ProperDivisor(d: nat)
    requires 0 < d < 255 && 255 % d == 0
    ensures 85 % d == 0 || 51 % d == 0 || 15 % d == 0
  {
    var q := 255 / d;
    assert q * d == 255;
    if d > 15 {
      ProductBound(q, d);
      SmallCofactor(q, d);
    } else {
      SmallDivisor(d);
    }
  }

  lemma SmallCofactor(q: nat, d: nat)
    requires q < 16 && q * d == 255 && d < 255
    ensures d == 85 || d == 51 || d == 17
  {
    if q == 0 {
    } else if q == 1 {
    } else if q <= 5 {
    } else if q <= 10 {
    } else {
    }
  }

  lemma SmallDivisor(d: nat)
    requires 0 < d <= 15 && 255 % d == 0
    ensures 15 % d == 0
  {
  }

  /** No positive exponent below 255 brings the generator back to 1. */
  lemma {:induction false} NoShorterPeriod(d: nat)
    requires 0 < d < 255
    ensures Exp(d) != 1
    decreases d
  {
    hide Double;
    KeyPowers();
    if Exp(d) == 1 {
      ExpReduce(d, 255);
      if 255 % d == 0 {
        ProperDivisor(d);
        ExpReduce(d, 85);
        ExpReduce(d, 51);
        ExpReduce(d, 15);
      } else {
        NoShorterPeriod(255 % d);
      }
    }
  }

  lemma ExpPeriod(n: nat)
    ensures Exp(n) == Exp(n % 255)
  {
    KeyPowers();
    ExpReduce(255, n);
  }

  lemma ExpNonzero(n: nat)
    ensures Exp(n) != 0
  {
    ShiftKernel(1, n);
  }

  lemma ExpInjective(i: nat, j: nat)
    requires i < 255 && j < 255 && Exp(i) == Exp(j)
    ensures i == j
  {
    if i < j {
      ShiftCompose(1, j - i, i);
      ShiftInjective(1, Exp(j - i), i);
      NoShorterPeriod(j - i);
    } else if j < i {
      ExpInjective(j, i);
    }
  }

  // ---- Logarithms exist: 255 different nonzero bytes are all of them ----

  ghost function PowersBelow(n: nat): set<bv8> {
    if n == 0 then {} else PowersBelow(n - 1) + {Exp(n - 1)}
  }

  /** A byte as a table index. */
  function Code(x: bv8): (n: nat)
    ensures n < 256
  {
    x as int
  }

  lemma CodeInjective(x: bv8, y: bv8)
    requires Code(x) == Code(y)
    ensures x == y
  {
    assert (x as int) as bv8 == x;
    assert (y as int) as bv8 == y;
  }

  lemma {:induction false} PowersBelowMembers(n: nat, x: bv8)
    ensures x in PowersBelow(n) <==> exists i: nat :: i < n && Exp(i) == x
  {
    if n > 0 {
      PowersBelowMembers(n - 1, x);
    }
  }

  lemma {:induction false} PowersBelowSize(n: nat)
    requires n <= 255
    ensures |PowersBelow(n)| == n
  {
    if n > 0 {
      PowersBelowSize(n - 1);
      PowersBelowMembers(n - 1, Exp(n - 1));
      if i: nat :| i < n - 1 && Exp(i) == Exp(n - 1) {
        ExpInjective(i, n - 1);
      }
    }
  }

  lemma SomeMember<T>(xs: set<T>) returns (x: T)
    requires |xs| != 0
    ensures x in xs
  {
    x :| x in xs;
  }

  /** A set of bytes with codes from 1 to `n` has at most `n` members. */
  lemma {:induction false} AtMost(xs: set<bv8>, n: nat)
    requires forall x :: x in xs ==> 0 < Code(x) <= n
    ensures |xs| <= n
    decreases n
  {
    if n > 0 {
      if x :| x in xs && Code(x) == n {
        forall y | y in xs - {x} ensures Code(y) <= n - 1 {
          if Code(y) == n {
            CodeInjective(x, y);
          }
        }
        AtMost(xs - {x}, n - 1);
      } else {
        AtMost(xs, n - 1);
      }
    } else if |xs| != 0 {
      var _ := SomeMember(xs);
    }
  }

  lemma CodeZero(x: bv8)
    ensures Code(x) == 0 <==> x == 0
  {
    assert (x as int) as bv8 == x;
  }

  lemma LogExists(x: bv8)
    requires x != 0
    ensures exists i: nat :: i < 255 && Exp(i) == x
  {
    hide Code, Shift;
    PowersBelowSize(255);
    PowersBelowMembers(255, x);
    if x !in PowersBelow(255) {
      var all := PowersBelow(255) + {x};
      forall y | y in all ensures 0 < Code(y) <= 255 {
        PowersBelowMembers(255, y);
        if i: nat :| i < 255 && Exp(i) == y {
          ExpNonzero(i);
        }
        CodeZero(y);
      }
      AtMost(all, 255);
    }
  }

  /** The discrete logarithm: the one exponent below 255 whose power is `x`. */
  ghost function Log(x: bv8): (i: nat)
    requires x != 0
    ensures i < 255 && Exp(i) == x
  {
    LogExists(x);
    var i: nat :| i < 255 && Exp(i) == x;
    i
  }

  lemma LogExp(n: nat)
    ensures Exp(n) != 0
    ensures Log(Exp(n)) == n % 255
  {
    ExpNonzero(n);
    ExpPeriod(n);
    ExpInjective(Log(Exp(n)), n % 255);
  }

  // ---- The product read off the tables is a field product ----

  /** The product as the tables give it. */
  ghost function Mul(a: bv8, b: bv8): bv8 {
    if a == 0 || b == 0 then 0 else Exp((Log(a) + Log(b)) % 255)
  }

  lemma ModAdd(m: nat, n: nat)
    ensures (m + n) % 255 == (m + n % 255) % 255
  {
  }

  /** Multiplying by a power of the generator is repeated doubling. */
  lemma MulExp(a: bv8, k: nat)
    ensures Mul(a, Exp(k)) == Shift(a, k)
  {
    hide Shift;
    ShiftKernel(a, k);
    LogExp(k);
    if a != 0 {
      var i := Log(a);
      ModAdd(i, k);
      ExpPeriod(i + k);
      ShiftCompose(1, i, k);
    }
  }

  lemma MulLog(a: bv8, b: bv8)
    requires b != 0
    ensures Mul(a, b) == Shift(a, Log(b))
  {
    MulExp(a, Log(b));
  }

  lemma MulCommutes(a: bv8, b: bv8)
    ensures Mul(a, b) == Mul(b, a)
  {
  }

  lemma MulAssociates(a: bv8, b: bv8, c: bv8)
    ensures Mul(Mul(a, b), c) == Mul(a, Mul(b, c))
  {
    if b != 0 && c != 0 {
      MulLog(a, b);
      MulLog(Mul(a, b), c);
      ShiftCompose(a, Log(b), Log(c));
      MulLog(b, c);
      ShiftCompose(1, Log(b), Log(c));
      MulExp(a, Log(b) + Log(c));
    }
  }

  /** Distributivity over exclusive or, the law the whole code rests on. */
  lemma MulDistributes(a: bv8, b: bv8, c: bv8)
    ensures Mul(Add(a, b), c) == Add(Mul(a, c), Mul(b, c))
    ensures Mul(c, Add(a, b)) == Add(Mul(c, a), Mul(c, b))
  {
    hide Add, Double;
    if c == 0 {
      AddLaws(0, 0, 0);
    } else {
      MulLog(a, c);
      MulLog(b, c);
      MulLog(Add(a, b), c);
      ShiftAdd(a, b, Log(c));
    }
    MulCommutes(Add(a, b), c);
    MulCommutes(a, c);
    MulCommutes(b, c);
  }

  lemma MulUnit(a: bv8)
    ensures Mul(a, 1) == a == Mul(1, a)
    ensures Mul(a, 0) == 0 == Mul(0, a)
  {
    MulExp(a, 0);
    MulCommutes(a, 1);
  }

  lemma MulNonzero(a: bv8, b: bv8)
    ensures Mul(a, b) == 0 <==> a == 0 || b == 0
  {
    if a != 0 && b != 0 {
      ExpNonzero((Log(a) + Log(b)) % 255);
    }
  }

  lemma MulCancel(a: bv8, b: bv8, c: bv8)
    requires c != 0 && Mul(a, c) == Mul(b, c)
    ensures a == b
  {
    hide Add, Mul;
    MulDistributes(a, b, c);
    AddLaws(Mul(a, c), Mul(b, c), 0);
    MulNonzero(Add(a, b), c);
    AddLaws(a, b, 0);
  }

  /** Repeated multiplication. */
  ghost function Power(x: bv8, p: nat): bv8 {
    if p == 0 then 1 else Mul(Power(x, p - 1), x)
  }

  /** Powers add up logarithms. */
  lemma {:induction false} PowerLog(x: bv8, p: nat)
    requires x != 0
    ensures Power(x, p) == Exp((Log(x) * p) % 255)
    decreases p
  {
    hide Mul, Shift;
    ExpPeriod(Log(x) * p);
    if p == 0 {
      assert Log(x) * p == 0;
      ExpZero();
    } else {
      PowerLog(x, p - 1);
      ExpPeriod(Log(x) * (p - 1));
      MulLog(Exp(Log(x) * (p - 1)), x);
      assert Log(x) * p == Log(x) * (p - 1) + Log(x);
      ShiftCompose(1, Log(x) * (p - 1), Log(x));
    }
  }

  lemma ExpZero()
    ensures Exp(0) == 1
  {
  }

  lemma {:induction false} PowersOfTwo(p: nat)
    ensures Power(2, p) == Exp(p)
  {
    hide Mul;
    if p > 0 {
      PowersOfTwo(p - 1);
      assert Exp(1) == 2;
      MulExp(Exp(p - 1), 1);
    }
  }

  // ---- The tables ----

  /** The doubling step of the table loop, on a number wide enough for the carry. */
  function WideDouble(x: bv16): bv16 {
    if (x << 1) & 0x100 != 0 then (x << 1) ^ 0x11D else x << 1
  }

  /** What a byte array keeps of a number. */
  function Narrow(x: bv16): bv8 {
    (x & 0xFF) as bv8
  }

  lemma WideDoubleNarrow(x: bv16)
    requires x < 0x100
    ensures WideDouble(x) < 0x100
    ensures Narrow(WideDouble(x)) == Double(Narrow(x))
    ensures x as int == Code(Narrow(x))
  {
  }

  /** Each turn of the table loop writes a slot of LOG that no earlier turn has written. */
  lemma FreshSlot(i: nat)
    requires i < 255
    ensures Code(Exp(i)) != 0
    ensures forall k :: 0 <= k < i ==> Code(Exp(k)) != Code(Exp(i))
    ensures Exp(i + 1) == Double(Exp(i)) && Exp(0) == 1 == Narrow(1)
  {
    ExpNonzero(i);
    CodeZero(Exp(i));
    forall k | 0 <= k < i ensures Code(Exp(k)) != Code(Exp(i)) {
      if Code(Exp(k)) == Code(Exp(i)) {
        CodeInjective(Exp(k), Exp(i));
        ExpInjective(k, i);
      }
    }
  }

  /** The first table loop: a running power fills both tables. */
  method FillPowers(exps: array<bv8>, logs: array<nat>)
    requires exps.Length == 512 && logs.Length == 256
    requires logs[0] == 0
    modifies exps, logs
    ensures forall k :: 0 <= k < 255 ==> exps[k] == Exp(k)
    ensures forall k :: 0 <= k < 255 ==> logs[Code(Exp(k))] == k
    ensures logs[0] == 0
  {
    hide Shift, Double, Code, WideDouble, Narrow;
    FreshSlot(0);
    var x: bv16 := 1;
    for i := 0 to 255
      invariant x < 0x100 && Narrow(x) == Exp(i)
      invariant forall k :: 0 <= k < i ==> exps[k] == Exp(k)
      invariant forall k :: 0 <= k < i ==> logs[Code(Exp(k))] == k
      invariant logs[0] == 0
    {
      WideDoubleNarrow(x);
      FreshSlot(i);
      exps[i] := Narrow(x);
      logs[x as int] := i;
      x := WideDouble(x);
    }
  }

  /** The second table loop: the powers repeat, so that a sum of two logarithms stays in range. */
  method RepeatPowers(exps: array<bv8>)
    requires exps.Length == 512
    requires forall k :: 0 <= k < 255 ==> exps[k] == Exp(k)
    modifies exps
    ensures forall k :: 0 <= k < 512 ==> exps[k] == Exp(k)
  {
    hide Shift;
    for i := 255 to 512
      invariant forall k :: 0 <= k < i ==> exps[k] == Exp(k)
    {
      ExpPeriod(i);
      ExpPeriod(i - 255);
      exps[i] := exps[i - 255];
    }
  }

  lemma LogsCovered(logs: array<nat>)
    requires logs.Length == 256
    requires forall k :: 0 <= k < 255 ==> logs[Code(Exp(k))] == k
    ensures forall x: bv8 :: x != 0 ==> logs[Code(x)] == Log(x)
  {
    forall x: bv8 | x != 0 ensures logs[Code(x)] == Log(x) {
      assert Exp(Log(x)) == x;
    }
  }

  /** The two lookup tables, filled once. Every logarithm is below 255, so a byte holds it. */
  class Tables {
    const EXP: array<bv8>
    const LOG: array<nat>

    ghost function Repr(): set<object> {
      {EXP, LOG}
    }

    ghost predicate Valid()
      reads EXP, LOG
    {
      && EXP.Length == 512 && LOG.Length == 256
      && (forall i :: 0 <= i < 512 ==> EXP[i] == Exp(i))
      && (forall x: bv8 :: x != 0 ==> LOG[Code(x)] == Log(x))
      && LOG[0] == 0
    }

    constructor ()
      ensures Valid() && fresh(EXP) && fresh(LOG)
    {
      EXP := new bv8[512](_ => 0);
      LOG := new nat[256](_ => 0);
      new;
      FillPowers(EXP, LOG);
      RepeatPowers(EXP);
      LogsCovered(LOG);
    }

    /** Product by table lookup. */
    function GfMul(a: bv8, b: bv8): (r: bv8)
      requires Valid()
      reads EXP, LOG
      ensures r == Mul(a, b)
    {
      if a == 0 || b == 0 then 0 else EXP[(LOG[Code(a)] + LOG[Code(b)]) % 255]
    }

    /** Power by table lookup; every power of 0 reads as 1. */
    function GfPow(x: bv8, p: nat): (r: bv8)
      requires Valid()
      reads EXP, LOG
      ensures r == if x == 0 then 1 else Power(x, p)
    {
      CodeZero(x);
      if x != 0 then PowerLog(x, p); EXP[(LOG[Code(x)] * p) % 255] else EXP[(LOG[Code(x)] * p) % 255]
    }
  }
}
