/**
 Reed-Solomon check octets by shift-register division, as the QR encoder computes them.

 Polynomials are sequences of coefficients with the highest power first, as the divider indexes
 them; the generator is built lowest power first and reversed at the end.
 */
module ReedSolomon {
  import opened Gf256

  type Poly = seq<Octet>

  /** Horner evaluation, highest power first. */
  ghost function Eval(p: Poly, x: Octet): Octet {
    if p == [] then ZERO else Add(Mul(Eval(p[..|p| - 1], x), x), p[|p| - 1])
  }

  /** A code word vanishes at the first `count` powers of two (section 7.5.2 of ISO/IEC 18004:2015). */
  ghost predicate IsCodeword(word: Poly, count: nat) {
    forall i: nat :: i < count ==> Eval(word, Exp(i)) == ZERO
  }

  // ----- the generator polynomial

  /** Evaluation with the lowest power first. */
  ghost function EvalAscending(p: Poly, x: Octet): Octet {
    if p == [] then ZERO else Add(p[0], Mul(x, EvalAscending(p[1..], x)))
  }

  function Reversed(p: Poly): Poly {
    seq(|p|, i requires 0 <= i < |p| => p[|p| - 1 - i])
  }

  lemma {:induction false} EvalReversed(p: Poly, x: Octet)
    ensures Eval(Reversed(p), x) == EvalAscending(p, x)
  {
    hide Add, Mul;
    if p != [] {
      assert Reversed(p)[..|p| - 1] == Reversed(p[1..]);
      EvalReversed(p[1..], x);
      var rest := EvalAscending(p[1..], x);
      MulCommutes(rest, x);
      AddCommutes(Mul(x, rest), p[0]);
    }
  }

  /** The product with (x + e), lowest power first; `carry` is the coefficient shifted in. */
  ghost function TimesRoot(p: Poly, e: Octet, carry: Octet): (q: Poly)
    ensures |q| == |p| + 1
  {
    if p == [] then [carry] else [Add(carry, Mul(p[0], e))] + TimesRoot(p[1..], e, p[0])
  }

  lemma {:induction false} TimesRootAt(p: Poly, e: Octet, carry: Octet, k: nat)
    requires k <= |p|
    ensures TimesRoot(p, e, carry)[k]
         == var c := if k == 0 then carry else p[k - 1]; if k < |p| then Add(c, Mul(p[k], e)) else c
  {
    if k > 0 {
      TimesRootAt(p[1..], e, p[0], k - 1);
    }
  }

  lemma {:induction false} EvalTimesRoot(p: Poly, e: Octet, carry: Octet, x: Octet)
    ensures EvalAscending(TimesRoot(p, e, carry), x) == Add(carry, Mul(Add(x, e), EvalAscending(p, x)))
  {
    hide Add, Mul;
    MulZero(x);
    MulZero(Add(x, e));
    if p == [] {
      assert TimesRoot(p, e, carry)[1..] == [];
    } else {
      var rest := EvalAscending(p[1..], x);
      EvalTimesRoot(p[1..], e, p[0], x);
      assert TimesRoot(p, e, carry)[1..] == TimesRoot(p[1..], e, p[0]);
      // (carry + p0 e) + x (p0 + (x + e) rest) == carry + (x + e) (p0 + x rest)
      var s := Add(x, e);
      MulDistributes(p[0], Mul(s, rest), x);
      MulDistributes(p[0], Mul(x, rest), s);
      MulDistributes(x, e, p[0]);
      MulCommutes(p[0], e); MulCommutes(p[0], x); MulCommutes(p[0], s);
      MulAssociates(x, s, rest); MulAssociates(s, x, rest); MulCommutes(x, s);
      var a, b, c := Mul(x, p[0]), Mul(e, p[0]), Mul(Mul(x, s), rest);
      AddAssociates(carry, b, Add(a, c));
      AddAssociates(b, a, c);
      AddCommutes(a, b);
    }
  }

  lemma MulZero(a: Octet)
    ensures Mul(a, ZERO) == ZERO && Mul(ZERO, a) == ZERO
  {}

  ghost function GeneratorAscending(degree: nat): (p: Poly)
    ensures |p| == degree + 1
  {
    if degree == 0 then [ONE] else TimesRoot(GeneratorAscending(degree - 1), Exp(degree - 1), ZERO)
  }

  lemma {:induction false} GeneratorRoots(degree: nat, i: nat)
    requires i < degree
    ensures EvalAscending(GeneratorAscending(degree), Exp(i)) == ZERO
  {
    hide Add, Mul, Exp;
    var p, e, x := GeneratorAscending(degree - 1), Exp(degree - 1), Exp(i);
    EvalTimesRoot(p, e, ZERO, x);
    AddZero(Mul(Add(x, e), EvalAscending(p, x)));
    if i == degree - 1 {
      AddZero(x);
      MulZero(EvalAscending(p, x));
    } else {
      GeneratorRoots(degree - 1, i);
      MulZero(Add(x, e));
    }
  }

  lemma {:induction false} GeneratorMonic(degree: nat)
    ensures GeneratorAscending(degree)[degree] == ONE
  {
    if degree > 0 {
      GeneratorMonic(degree - 1);
      TimesRootAt(GeneratorAscending(degree - 1), Exp(degree - 1), ZERO, degree);
    }
  }

  /** A generator is monic and vanishes at the first `degree` powers of two. */
  ghost predicate IsGenerator(gen: Poly, degree: nat) {
    |gen| == degree + 1 && gen[0] == ONE && IsCodeword(gen, degree)
  }

  /** One round of the construction: a fresh array filled with the product by (x + e). */
  method MultiplyByRoot(tables: Tables, poly: Poly, e: Octet) returns (next: Poly)
    requires tables.Valid()
    ensures next == TimesRoot(poly, e, ZERO)
  {
    hide Mul, Add, TimesRoot;
    next := seq(|poly| + 1, _ => ZERO);
    for j := 0 to |poly|
      invariant |next| == |poly| + 1
      invariant forall k :: 0 <= k < j ==> next[k] == TimesRoot(poly, e, ZERO)[k]
      invariant next[j] == if j == 0 then ZERO else poly[j - 1]
      invariant forall k :: j < k <= |poly| ==> next[k] == ZERO
    {
      var m := tables.Multiply(poly[j], e);
      next := next[j := Add(next[j], m)];
      next := next[j + 1 := Add(next[j + 1], poly[j])];
      TimesRootAt(poly, e, ZERO, j);
      AddZero(poly[j]);
    }
    TimesRootAt(poly, e, ZERO, |poly|);
  }

  method Generator(tables: Tables, degree: nat) returns (gen: Poly)
    requires tables.Valid() && degree <= 512
    ensures IsGenerator(gen, degree)
  {
    hide Mul, Add, Exp, TimesRoot;
    var poly := [ONE];
    for i := 0 to degree
      invariant poly == GeneratorAscending(i)
    {
      poly := MultiplyByRoot(tables, poly, tables.exp[i]);
    }
    gen := Reversed(poly);
    GeneratorMonic(degree);
    forall i: nat | i < degree
      ensures Eval(gen, Exp(i)) == ZERO
    {
      GeneratorRoots(degree, i);
      EvalReversed(poly, Exp(i));
    }
  }

  // ----- division

  function Zeros(n: nat): (z: Poly)
    ensures |z| == n
  {
    seq(n, _ => ZERO)
  }

  ghost function AddPoly(p: Poly, q: Poly): (s: Poly)
    requires |p| == |q|
    ensures |s| == |p|
  {
    seq(|p|, i requires 0 <= i < |p| => Add(p[i], q[i]))
  }

  ghost function Scaled(p: Poly, f: Octet): (s: Poly)
    ensures |s| == |p|
  {
    seq(|p|, i requires 0 <= i < |p| => Mul(p[i], f))
  }

  lemma {:induction false} EvalAddPoly(p: Poly, q: Poly, x: Octet)
    requires |p| == |q|
    ensures Eval(AddPoly(p, q), x) == Add(Eval(p, x), Eval(q, x))
  {
    hide Add, Mul;
    if p == [] {
      AddZero(ZERO);
    } else {
      var n := |p| - 1;
      EvalAddPoly(p[..n], q[..n], x);
      assert AddPoly(p, q)[..n] == AddPoly(p[..n], q[..n]);
      var a, b := Eval(p[..n], x), Eval(q[..n], x);
      MulDistributes(a, b, x);
      AddShuffle(Mul(a, x), Mul(b, x), p[n], q[n]);
    }
  }

  lemma AddShuffle(a: Octet, b: Octet, c: Octet, d: Octet)
    ensures Add(Add(a, b), Add(c, d)) == Add(Add(a, c), Add(b, d))
  {}

  lemma {:induction false} EvalScaled(p: Poly, f: Octet, x: Octet)
    ensures Eval(Scaled(p, f), x) == Mul(Eval(p, x), f)
  {
    hide Add, Mul;
    if p == [] {
      MulZero(f);
    } else {
      var n := |p| - 1;
      EvalScaled(p[..n], f, x);
      assert Scaled(p, f)[..n] == Scaled(p[..n], f);
      var a := Eval(p[..n], x);
      MulDistributes(Mul(a, x), p[n], f);
      MulAssociates(a, f, x); MulAssociates(a, x, f); MulCommutes(f, x);
    }
  }

  lemma {:induction false} EvalLeadingZeros(n: nat, p: Poly, x: Octet)
    ensures Eval(Zeros(n) + p, x) == Eval(p, x)
    decreases n + |p|
  {
    hide Add, Mul;
    if p != [] {
      EvalLeadingZeros(n, p[..|p| - 1], x);
      assert (Zeros(n) + p)[..n + |p| - 1] == Zeros(n) + p[..|p| - 1];
    } else if n > 0 {
      EvalLeadingZeros(n - 1, p, x);
      assert (Zeros(n) + p)[..n - 1] == Zeros(n - 1) + p;
      MulZero(x);
      AddZero(ZERO);
    } else {
      assert Zeros(0) + p == [];
    }
  }

  /** The register after one more octet: shift out the head, add the generator scaled by the feedback. */
  ghost function Shift(gen: Poly, register: Poly, octet: Octet): (r: Poly)
    requires |register| > 0 && |gen| == |register| + 1
    ensures |r| == |register|
  {
    AddPoly(register[1..] + [ZERO], Scaled(gen[1..], Add(octet, register[0])))
  }

  /** One step keeps the data so far, followed by the register, a code word. */
  lemma ShiftKeepsCodeword(gen: Poly, count: nat, data: Poly, register: Poly, octet: Octet)
    requires count > 0 && |register| == count && IsGenerator(gen, count)
    requires IsCodeword(data + register, count)
    ensures IsCodeword(data + [octet] + Shift(gen, register, octet), count)
  {
    hide Add, Mul, Exp;
    var f := Add(octet, register[0]);
    var before := data + register + [ZERO];
    var multiple := Zeros(|data|) + Scaled(gen, f);
    var after := data + [octet] + Shift(gen, register, octet);
    assert after == AddPoly(before, multiple) by {
      MulOne(f);
      AddCommutes(octet, register[0]);
      AddAssociates(register[0], register[0], octet);
      AddZero(register[0]);
      AddZero(octet);
      assert AddPoly(before, multiple)[|data|] == octet;
      forall i | 0 <= i < |data|
        ensures AddPoly(before, multiple)[i] == data[i]
      {
        AddZero(data[i]);
      }
      forall i | 0 <= i < count
        ensures AddPoly(before, multiple)[|data| + 1 + i] == Shift(gen, register, octet)[i]
      {
        assert (register[1..] + [ZERO])[i] == before[|data| + 1 + i];
        assert multiple[|data| + 1 + i] == Mul(gen[i + 1], f);
      }
    }
    forall i: nat | i < count
      ensures Eval(after, Exp(i)) == ZERO
    {
      var x := Exp(i);
      EvalAddPoly(before, multiple, x);
      assert before[..|before| - 1] == data + register;
      EvalLeadingZeros(|data|, Scaled(gen, f), x);
      EvalScaled(gen, f, x);
      MulZero(x);
      MulZero(f);
      AddZero(ZERO);
    }
  }

  /** Data followed by its check octets is a code word, whatever the data. */
  method ErrorCorrection(tables: Tables, data: Poly, count: nat) returns (register: Poly)
    requires tables.Valid() && 0 < count <= 512
    ensures |register| == count
    ensures IsCodeword(data + register, count)
  {
    hide Add, Mul, Exp;
    var gen := Generator(tables, count);
    register := Zeros(count);
    assert IsCodeword(data[..0] + register, count) by {
      forall i: nat | i < count
        ensures Eval(data[..0] + register, Exp(i)) == ZERO
      {
        EvalLeadingZeros(count, [], Exp(i));
        assert Zeros(count) + [] == data[..0] + register;
      }
    }
    for n := 0 to |data|
      invariant |register| == count
      invariant IsCodeword(data[..n] + register, count)
    {
      var octet := data[n];
      var factor := Add(octet, register[0]);
      ghost var before := register;
      register := register[1..] + [ZERO];
      ghost var shifted := register;
      for i := 0 to count
        invariant |register| == count
        invariant register[i..] == shifted[i..]
        invariant forall k :: 0 <= k < i ==> register[k] == Add(shifted[k], Mul(gen[k + 1], factor))
      {
        var m := tables.Multiply(gen[i + 1], factor);
        register := register[i := Add(register[i], m)];
      }
      assert register == Shift(gen, before, octet);
      ShiftKeepsCodeword(gen, count, data[..n], before, octet);
      assert data[..n + 1] == data[..n] + [octet];
    }
    assert data[..|data|] == data;
  }
}
