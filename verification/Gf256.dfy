/**
 The field the QR error correction is computed in: octets under exclusive-or, with
 multiplication done through tables of powers of two modulo x^8+x^4+x^3+x^2+1 (0x11d).

 The development follows one observation: multiplying by the k-th power is doubling k times,
 and doubling is linear over exclusive-or. The only finite fact needed is that two has order
 255, which is argued from the divisors of 255. Proofs above the bit level hide `Add` and
 `Double` and use their laws only.
 */
module Gf256 {

  /** Eight bits. The wrapper keeps bit-level reasoning out of proofs that only use the laws. */
  datatype Octet = Octet(bits: bv8)

  const ZERO := Octet(0)
  const ONE := Octet(1)

  /** Addition in the field. */
  function Add(a: Octet, b: Octet): Octet { Octet(a.bits ^ b.bits) }

  /** The table loop's step: shift left, and reduce when a ninth bit appears. */
  function DoubleBits(x: bv8): bv8 {
    var y: bv16 := (x as bv16) << 1;
    (if y & 0x100 != 0 then y ^ 0x11d else y) as bv8
  }

  function Double(x: Octet): Octet { Octet(DoubleBits(x.bits)) }

  /** Where a table holds the entry for an octet. */
  function Index(x: Octet): (i: nat)
    ensures i < 256
  {
    x.bits as nat
  }

  /** k-fold doubling. */
  function Times(x: Octet, k: nat): Octet {
    if k == 0 then x else Double(Times(x, k - 1))
  }

  /** The k-th power of two. */
  function Exp(k: nat): Octet {
    Times(ONE, k)
  }

  // ----- doubling is linear and injective

  /** The same step without a branch, which the bit-level proofs go through. */
  function DoubleMasked(x: bv8): bv8 { (x << 1) ^ ((x >> 7) * 0x1d) }

  lemma DoubleWithoutBranch(x: bv8)
    ensures DoubleBits(x) == DoubleMasked(x)
  {}

  lemma MaskedLinear(x: bv8, y: bv8)
    ensures DoubleMasked(x ^ y) == DoubleMasked(x) ^ DoubleMasked(y)
  {}

  lemma DoubleLinear(x: Octet, y: Octet)
    ensures Double(Add(x, y)) == Add(Double(x), Double(y))
  {
    hide DoubleBits, DoubleMasked;
    DoubleWithoutBranch(x.bits);
    DoubleWithoutBranch(y.bits);
    DoubleWithoutBranch(x.bits ^ y.bits);
    MaskedLinear(x.bits, y.bits);
  }

  lemma DoubleInjective(x: Octet, y: Octet)
    requires Double(x) == Double(y)
    ensures x == y
  {}

  lemma AddCommutes(a: Octet, b: Octet)
    ensures Add(a, b) == Add(b, a)
  {}

  lemma AddAssociates(a: Octet, b: Octet, c: Octet)
    ensures Add(Add(a, b), c) == Add(a, Add(b, c))
  {}

  lemma AddZero(a: Octet)
    ensures Add(a, ZERO) == a && Add(ZERO, a) == a && Add(a, a) == ZERO
  {}

  lemma IndexInjective(x: Octet, y: Octet)
    requires Index(x) == Index(y)
    ensures x == y
  {}

  lemma {:induction false} TimesLinear(x: Octet, y: Octet, k: nat)
    ensures Times(Add(x, y), k) == Add(Times(x, k), Times(y, k))
  {
    hide Double, Add;
    if k > 0 {
      TimesLinear(x, y, k - 1);
      DoubleLinear(Times(x, k - 1), Times(y, k - 1));
    }
  }

  lemma {:induction false} TimesInjective(x: Octet, y: Octet, k: nat)
    requires Times(x, k) == Times(y, k)
    ensures x == y
  {
    hide Double;
    if k > 0 {
      DoubleInjective(Times(x, k - 1), Times(y, k - 1));
      TimesInjective(x, y, k - 1);
    }
  }

  lemma {:induction false} TimesZero(k: nat)
    ensures Times(ZERO, k) == ZERO
  {
    if k > 0 {
      TimesZero(k - 1);
    }
  }

  lemma {:induction false} TimesAdd(x: Octet, a: nat, b: nat)
    ensures Times(x, a + b) == Times(Times(x, a), b)
  {
    hide Double;
    if b > 0 {
      TimesAdd(x, a, b - 1);
    }
  }

  lemma ExpNonZero(k: nat)
    ensures Exp(k) != ZERO
  {
    hide Double;
    if Exp(k) == ZERO {
      TimesZero(k);
      TimesInjective(ONE, ZERO, k);
    }
  }

  // ----- two has order exactly 255

  function Double5(x: bv8): bv8 { DoubleBits(DoubleBits(DoubleBits(DoubleBits(DoubleBits(x))))) }

  lemma Times5(k: nat, x: bv8)
    requires Exp(k) == Octet(x)
    ensures Exp(k + 5) == Octet(Double5(x))
  {
    hide DoubleBits;
    assert Exp(k + 1) == Double(Exp(k));
    assert Exp(k + 2) == Double(Exp(k + 1));
    assert Exp(k + 3) == Double(Exp(k + 2));
    assert Exp(k + 4) == Double(Exp(k + 3));
  }

  /** Fifteen doublings of a power already known. */
  lemma Step15(k: nat, x: bv8, y: bv8)
    requires Exp(k) == Octet(x) && Double5(Double5(Double5(x))) == y
    ensures Exp(k + 15) == Octet(y)
  {
    hide Double5, Exp;
    Times5(k, x);
    Times5(k + 5, Double5(x));
    Times5(k + 10, Double5(Double5(x)));
  }

  lemma PowersTo90()
    ensures Exp(15) == Octet(0x26) && Exp(51) == Octet(0x0a) && Exp(85) == Octet(0xd6) && Exp(90) == Octet(0xdf)
  {
    assert Exp(0) == Octet(1);
    hide Exp;
    Step15(0, 0x01, 0x26); Step15(15, 0x26, 0x60); Step15(30, 0x60, 0xc1);
    Step15(45, 0xc1, 0xb9); Step15(60, 0xb9, 0x0f); Step15(75, 0x0f, 0xdf);
    Times5(45, 0xc1); Times5(75, 0x0f); Times5(80, 0xfd); NextPower(50);
  }

  lemma NextPower(k: nat)
    ensures Exp(k + 1) == Double(Exp(k))
  {}

  lemma PowersOfTwo()
    ensures Exp(15) == Octet(0x26) && Exp(51) == Octet(0x0a) && Exp(85) == Octet(0xd6) && Exp(255) == Octet(1)
  {
    hide Exp;
    PowersTo90();
    Step15(90, 0xdf, 0x1a); Step15(105, 0x1a, 0x3b); Step15(120, 0x3b, 0xa9);
    Step15(135, 0xa9, 0x55); Step15(150, 0x55, 0x91); Step15(165, 0x91, 0x96);
    Step15(180, 0x96, 0x64); Step15(195, 0x64, 0x59); Step15(210, 0x59, 0x24);
    Step15(225, 0x24, 0x2c); Step15(240, 0x2c, 0x01);
  }

  lemma {:induction false} ExpMultiple(e: nat, m: nat)
    requires Exp(e) == ONE
    ensures Exp(m * e) == ONE
  {
    hide Double;
    if m > 0 {
      ExpMultiple(e, m - 1);
      assert m * e == e + (m - 1) * e;
      TimesAdd(ONE, e, (m - 1) * e);
    }
  }

  lemma ExpModulo(e: nat, n: nat)
    requires e > 0 && Exp(e) == ONE
    ensures Exp(n) == Exp(n % e)
  {
    hide Double;
    ExpMultiple(e, n / e);
    assert n == (n / e) * e + n % e;
    TimesAdd(ONE, (n / e) * e, n % e);
  }

  lemma SmallDivisorOf255(n: nat)
    requires 1 <= n <= 15 && 255 % n == 0
    ensures n == 1 || n == 3 || n == 5 || n == 15
  {}

  lemma DivisorOf255(e: nat, q: nat)
    requires e * q == 255 && 1 < q
    ensures 15 % e == 0 || 51 % e == 0 || 85 % e == 0
  {
    if e <= 15 {
      assert 255 % e == 0 by { assert 255 == q * e; }
      SmallDivisorOf255(e);
    } else {
      assert q >= 16 ==> e * q >= 16 * q;
      assert 255 % q == 0;
      SmallDivisorOf255(q);
      assert e == 85 || e == 51 || e == 17;
    }
  }

  /** The least positive exponent at which the powers return to one, found from any such exponent. */
  lemma LeastPeriod(d: nat) returns (e: nat)
    requires d > 0 && Exp(d) == ONE
    ensures 0 < e <= d && Exp(e) == ONE
    ensures forall k {:trigger Exp(k)} :: 0 < k < e ==> Exp(k) != ONE
  {
    hide Double;
    e := 1;
    while Exp(e) != ONE
      invariant 0 < e <= d
      decreases d - e
      invariant forall k {:trigger Exp(k)} :: 0 < k < e ==> Exp(k) != ONE
    {
      e := e + 1;
    }
  }

  lemma NoShorterPeriod(d: nat)
    requires 0 < d < 255
    ensures Exp(d) != ONE
  {
    hide Double;
    if Exp(d) == ONE {
      var e := LeastPeriod(d);
      PowersOfTwo();
      ExpModulo(e, 255);
      assert Exp(0) == ONE;
      assert Exp(255 % e) == ONE;
      assert e * (255 / e) == 255;
      DivisorOf255(e, 255 / e);
      ExpModulo(e, 15);
      ExpModulo(e, 51);
      ExpModulo(e, 85);
    }
  }

  lemma ExpDistinct(i: nat, j: nat)
    requires i < j < 255
    ensures Exp(i) != Exp(j)
  {
    hide Double;
    if Exp(i) == Exp(j) {
      TimesAdd(ONE, j - i, i);
      TimesInjective(Exp(j - i), ONE, i);
      NoShorterPeriod(j - i);
    }
  }

  // ----- the powers below 255 are all the non-zero octets

  ghost function Powers(n: nat): (s: set<int>)
    ensures forall x :: x in s ==> exists k: nat :: k < n && Index(Exp(k)) == x
  {
    if n == 0 then {} else Powers(n - 1) + {Index(Exp(n - 1))}
  }

  ghost function Range(n: nat): (s: set<int>)
    ensures |s| == n && forall i :: i in s <==> 1 <= i <= n
  {
    if n == 0 then {} else Range(n - 1) + {n}
  }

  lemma NextPowerIsNew(n: nat)
    requires n < 255
    ensures Index(Exp(n)) !in Powers(n) && 1 <= Index(Exp(n)) <= 255
  {
    hide Times, Index;
    IndexPositive(Exp(n));
    ExpNonZero(n);
    if Index(Exp(n)) in Powers(n) {
      var k: nat :| k < n && Index(Exp(k)) == Index(Exp(n));
      IndexInjective(Exp(k), Exp(n));
      ExpDistinct(k, n);
    }
  }

  lemma {:induction false} PowersSize(n: nat)
    requires n <= 255
    ensures |Powers(n)| == n && Powers(n) <= Range(255)
  {
    hide Times, Index, Exp, Range;
    if n > 0 {
      PowersSize(n - 1);
      NextPowerIsNew(n - 1);
    }
  }

  lemma IndexPositive(x: Octet)
    ensures Index(x) == 0 ==> x == ZERO
  {}

  lemma EqualBySize<T>(a: set<T>, b: set<T>)
    requires a <= b && |a| == |b|
    ensures a == b
  {
    assert b == a + (b - a);
    assert |b| == |a| + |b - a|;
  }

  lemma PowersCover(x: Octet)
    requires x != ZERO
    ensures exists k: nat :: k < 255 && Exp(k) == x
  {
    IndexPositive(x);
    hide Times, Index;
    PowersSize(255);
    EqualBySize(Powers(255), Range(255));
    assert Index(x) in Range(255);
    var k: nat :| k < 255 && Index(Exp(k)) == Index(x);
    IndexInjective(Exp(k), x);
  }

  /** The discrete logarithm: where the table loop writes a Octet's index. */
  ghost function Log(x: Octet): (k: nat)
    requires x != ZERO
    ensures k < 255 && Exp(k) == x
  {
    PowersCover(x);
    var k: nat :| k < 255 && Exp(k) == x;
    k
  }

  // ----- multiplication

  /** What `multiply` computes from the two tables. */
  ghost function Mul(a: Octet, b: Octet): Octet {
    if a == ZERO || b == ZERO then ZERO else Exp(Log(a) + Log(b))
  }

  /** Multiplying by the k-th power is doubling k times. */
  lemma MulExp(a: Octet, k: nat)
    ensures Mul(a, Exp(k)) == Times(a, k)
  {
    hide Double;
    ExpNonZero(k);
    if a == ZERO {
      TimesZero(k);
    } else {
      var i, j := Log(a), Log(Exp(k));
      TimesAdd(ONE, j, i);
      TimesAdd(ONE, k, i);
      TimesAdd(ONE, i, k);
      assert i + j == j + i && i + k == k + i;
    }
  }

  lemma MulCommutes(a: Octet, b: Octet)
    ensures Mul(a, b) == Mul(b, a)
  {}

  lemma MulDistributes(a: Octet, b: Octet, c: Octet)
    ensures Mul(Add(a, b), c) == Add(Mul(a, c), Mul(b, c))
    ensures Mul(c, Add(a, b)) == Add(Mul(c, a), Mul(c, b))
  {
    assert Add(ZERO, ZERO) == ZERO;
    hide Double, Add;
    if c != ZERO {
      var k := Log(c);
      MulExp(a, k);
      MulExp(b, k);
      MulExp(Add(a, b), k);
      TimesLinear(a, b, k);
    }
    MulCommutes(a, c);
    MulCommutes(b, c);
    MulCommutes(Add(a, b), c);
  }

  lemma MulAssociates(a: Octet, b: Octet, c: Octet)
    ensures Mul(Mul(a, b), c) == Mul(a, Mul(b, c))
  {
    hide Double, Add;
    if a != ZERO && b != ZERO && c != ZERO {
      var j, k := Log(b), Log(c);
      MulExp(a, j);
      MulExp(Times(a, j), k);
      MulExp(b, k);
      TimesAdd(a, j, k);
      TimesAdd(ONE, j, k);
      MulExp(a, j + k);
    }
  }

  lemma MulOne(a: Octet)
    ensures Mul(a, ONE) == a && Mul(ONE, a) == a
  {
    hide Double;
    MulExp(a, 0);
    assert Exp(0) == ONE;
    MulCommutes(a, ONE);
  }

  lemma MulNonZero(a: Octet, b: Octet)
    ensures Mul(a, b) == ZERO <==> a == ZERO || b == ZERO
  {
    hide Double;
    if a != ZERO && b != ZERO {
      ExpNonZero(Log(a) + Log(b));
    }
  }

  // ----- the reference: shift-and-add multiplication of bit polynomials modulo 0x11d

  /** Adds a doubled copy of `a` for every bit set in `b`, least significant first. */
  function ShiftAndAdd(a: Octet, b: bv8): Octet
    decreases b
  {
    if b == 0 then ZERO
    else Add(if b & 1 == 1 then a else ZERO, ShiftAndAdd(Double(a), b >> 1))
  }

  lemma MulDouble(a: Octet, b: Octet)
    ensures Mul(a, Double(b)) == Mul(Double(a), b)
  {
    hide Double;
    MulExp(a, 1);
    MulExp(b, 1);
    MulCommutes(b, Exp(1));
    MulAssociates(a, Exp(1), b);
    assert Times(a, 1) == Double(Times(a, 0)) && Times(b, 1) == Double(Times(b, 0));
  }

  /** An octet is its lowest bit and twice the rest. */
  lemma SplitLowBit(b: bv8)
    ensures Octet(b) == Add(Octet(b & 1), Double(Octet(b >> 1)))
    ensures b & 1 == 0 || b & 1 == 1
    ensures b != 0 ==> b >> 1 < b
  {}

  /** The table-driven product is the product of bit polynomials modulo 0x11d. */
  lemma {:induction false} MulIsShiftAndAdd(a: Octet, b: bv8)
    ensures Mul(a, Octet(b)) == ShiftAndAdd(a, b)
    decreases b
  {
    if b != 0 {
      SplitLowBit(b);
      hide Double, Add;
      MulIsShiftAndAdd(Double(a), b >> 1);
      MulDouble(a, Octet(b >> 1));
      MulDistributes(Octet(b & 1), Double(Octet(b >> 1)), a);
      MulOne(a);
    }
  }

  // ----- the tables themselves

  /** The two lookup arrays, filled once by the loops of the constructor. */
  class Tables {
    const exp: array<Octet>
    const log: array<nat>

    ghost predicate Valid()
      reads exp, log
    {
      && exp.Length == 512 && log.Length == 256
      && (forall i :: 0 <= i < 512 ==> exp[i] == Exp(i))
      && (forall k: nat :: k < 255 ==> log[Index(Exp(k))] == k)
    }

    constructor ()
      ensures Valid() && fresh(exp) && fresh(log)
    {
      hide Double;
      exp := new Octet[512](_ => ZERO);
      log := new nat[256](_ => 0);
      new;
      var x := ONE;
      for i := 0 to 255
        invariant x == Exp(i)
        invariant forall k :: 0 <= k < i ==> exp[k] == Exp(k)
        invariant forall k: nat :: k < i ==> log[Index(Exp(k))] == k
      {
        forall k: nat | k < i
          ensures Index(Exp(k)) != Index(x)
        {
          ExpDistinct(k, i);
          if Index(Exp(k)) == Index(x) {
            IndexInjective(Exp(k), x);
          }
        }
        exp[i] := x;
        log[Index(x)] := i;
        x := Double(x);
      }
      for i := 255 to 512
        invariant forall k :: 0 <= k < i ==> exp[k] == Exp(k)
        invariant forall k: nat :: k < 255 ==> log[Index(Exp(k))] == k
      {
        PowersOfTwo();
        TimesAdd(ONE, 255, i - 255);
        exp[i] := exp[i - 255];
      }
    }

    method Multiply(a: Octet, b: Octet) returns (r: Octet)
      requires Valid()
      ensures r == Mul(a, b)
    {
      hide Double;
      if a == ZERO || b == ZERO {
        return ZERO;
      }
      var i, j := log[Index(a)], log[Index(b)];
      assert i == Log(a) by { assert a == Exp(Log(a)); }
      assert j == Log(b) by { assert b == Exp(Log(b)); }
      r := exp[i + j];
    }
  }
}
