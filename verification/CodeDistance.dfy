/**
 What the check octets are worth: within 255 octets, distinct code words differ in more than
 `count` places. Hence the check octets are the only ones that fit their data, and a word with at
 most half that many damaged octets has one code word it can have come from.
 */
module CodeDistance {
  import opened Gf256
  import opened ReedSolomon

  /** A non-zero coefficient and the power it stands at. */
  datatype Term = Term(coefficient: Octet, power: nat)

  /** The terms of a polynomial given highest power first. */
  function Terms(p: Poly): (ts: seq<Term>)
    ensures forall t :: t in ts ==> t.coefficient != ZERO && t.power < |p|
    ensures forall j, k :: 0 <= j < k < |ts| ==> ts[j].power > ts[k].power
  {
    if p == [] then []
    else (if p[0] == ZERO then [] else [Term(p[0], |p| - 1)]) + Terms(p[1..])
  }

  /** The value at the i-th power of two, summed over terms. */
  ghost function TermSum(ts: seq<Term>, i: nat): Octet {
    if ts == [] then ZERO
    else Add(Mul(ts[0].coefficient, Exp(ts[0].power * i)), TermSum(ts[1..], i))
  }

  lemma ExpProduct(a: nat, b: nat)
    ensures Mul(Exp(a), Exp(b)) == Exp(a + b)
  {
    MulExp(Exp(a), b);
    TimesAdd(ONE, a, b);
  }

  /** The coefficient of the highest power contributes that power; the rest is a shorter polynomial. */
  lemma {:induction false} EvalHead(p: Poly, i: nat)
    requires p != []
    ensures Eval(p, Exp(i)) == Add(Mul(p[0], Exp((|p| - 1) * i)), Eval(p[1..], Exp(i)))
  {
    var n, x := |p| - 1, Exp(i);
    if n == 0 {
      assert p[..0] == [] && p[1..] == [] && Exp(0 * i) == ONE;
      MulOne(p[0]);
      AddZero(p[0]);
      MulZero(x);
    } else {
      hide Add, Mul, Exp;
      var head, rest := Mul(p[0], Exp((n - 1) * i)), Eval(p[1..n], x);
      assert p[..n][1..] == p[1..n] && p[1..][..n - 1] == p[1..n];
      EvalHead(p[..n], i);
      MulDistributes(head, rest, x);
      MulAssociates(p[0], Exp((n - 1) * i), x);
      ExpProduct((n - 1) * i, i);
      assert (n - 1) * i + i == n * i;
      AddAssociates(Mul(p[0], Exp(n * i)), Mul(rest, x), p[n]);
    }
  }

  lemma {:induction false} EvalIsTermSum(p: Poly, i: nat)
    ensures Eval(p, Exp(i)) == TermSum(Terms(p), i)
  {
    hide Add, Mul, Exp;
    if p != [] {
      EvalHead(p, i);
      EvalIsTermSum(p[1..], i);
      if p[0] == ZERO {
        MulZero(Exp((|p| - 1) * i));
        AddZero(Eval(p[1..], Exp(i)));
      }
      HeadTerm(p, i);
      hide Eval, Terms, TermSum;
    }
  }

  lemma HeadTerm(p: Poly, i: nat)
    requires p != []
    ensures TermSum(Terms(p), i)
         == if p[0] == ZERO then TermSum(Terms(p[1..]), i)
            else Add(Mul(p[0], Exp((|p| - 1) * i)), TermSum(Terms(p[1..]), i))
  {
    hide Add, Mul, Exp;
    if p[0] == ZERO {
      assert Terms(p) == Terms(p[1..]);
    } else {
      assert Terms(p)[1..] == Terms(p[1..]);
    }
  }

  /** Every coefficient multiplied by the distance of its place from the place `x`. */
  ghost function Weighted(ts: seq<Term>, x: Octet): (r: seq<Term>)
    ensures |r| == |ts|
  {
    seq(|ts|, k requires 0 <= k < |ts| => Term(Mul(ts[k].coefficient, Add(Exp(ts[k].power), x)), ts[k].power))
  }

  lemma {:induction false} WeightedSum(ts: seq<Term>, x: Octet, i: nat)
    ensures TermSum(Weighted(ts, x), i) == Add(TermSum(ts, i + 1), Mul(x, TermSum(ts, i)))
  {
    hide Add, Mul, Exp;
    if ts == [] {
      MulZero(x);
      AddZero(ZERO);
    } else {
      var c, e := ts[0].coefficient, ts[0].power;
      var a, p := Exp(e), Exp(e * i);
      WeightedSum(ts[1..], x, i);
      assert Weighted(ts, x)[1..] == Weighted(ts[1..], x);
      // c (a + x) p == c (a p) + x (c p)
      MulDistributes(a, x, c);
      MulDistributes(Mul(c, a), Mul(c, x), p);
      MulAssociates(c, a, p);
      ExpProduct(e, e * i);
      assert e + e * i == e * (i + 1);
      MulCommutes(c, x);
      MulAssociates(x, c, p);
      MulDistributes(Mul(c, p), TermSum(ts[1..], i), x);
      AddShuffle(Mul(c, Exp(e * (i + 1))), Mul(x, Mul(c, p)),
                 TermSum(ts[1..], i + 1), Mul(x, TermSum(ts[1..], i)));
    }
  }

  ghost predicate Distinct(ts: seq<Term>) {
    && (forall t :: t in ts ==> t.coefficient != ZERO && t.power < 255)
    && (forall j, k :: 0 <= j < k < |ts| ==> ts[j].power != ts[k].power)
  }

  /** Fewer than n + 1 terms in different places cannot cancel at n consecutive powers of two. */
  lemma {:induction false} NoShortCancellation(ts: seq<Term>, n: nat)
    requires Distinct(ts) && |ts| <= n
    requires forall i: nat :: i < n ==> TermSum(ts, i) == ZERO
    ensures ts == []
    decreases |ts|
  {
    hide Add, Mul;
    if ts != [] {
      var rest, x := ts[1..], Exp(ts[0].power);
      var weighted := Weighted(rest, x);
      assert Distinct(weighted) by {
        forall k | 0 <= k < |rest|
          ensures weighted[k].coefficient != ZERO
        {
          DifferentPlaces(rest[k].power, ts[0].power);
          MulNonZero(rest[k].coefficient, Add(Exp(rest[k].power), x));
        }
      }
      forall i: nat | i < n - 1
        ensures TermSum(weighted, i) == ZERO
      {
        HeadCancels(ts, i);
      }
      NoShortCancellation(weighted, n - 1);
      assert rest == [];
      assert TermSum(ts, 0) == ZERO;
      AddZero(Mul(ts[0].coefficient, Exp(ts[0].power * 0)));
      MulOne(ts[0].coefficient);
    }
  }

  lemma DifferentPlaces(j: nat, k: nat)
    requires j < 255 && k < 255 && j != k
    ensures Add(Exp(j), Exp(k)) != ZERO
  {
    hide Add;
    if Add(Exp(j), Exp(k)) == ZERO {
      AddAssociates(Exp(j), Exp(k), Exp(k));
      AddZero(Exp(k));
      AddZero(Exp(j));
      if j < k { ExpDistinct(j, k); } else { ExpDistinct(k, j); }
    }
  }

  /** Weighting by the first place removes the first term from two vanishing sums. */
  lemma HeadCancels(ts: seq<Term>, i: nat)
    requires ts != [] && TermSum(ts, i) == ZERO && TermSum(ts, i + 1) == ZERO
    ensures TermSum(Weighted(ts[1..], Exp(ts[0].power)), i) == ZERO
  {
    hide Add, Mul, Exp;
    var c, e := ts[0].coefficient, ts[0].power;
    var x, rest := Exp(e), ts[1..];
    WeightedSum(rest, x, i);
    CancelsTo(Mul(c, Exp(e * i)), TermSum(rest, i));
    CancelsTo(Mul(c, Exp(e * (i + 1))), TermSum(rest, i + 1));
    MulCommutes(x, Mul(c, Exp(e * i)));
    MulAssociates(c, Exp(e * i), x);
    ExpProduct(e * i, e);
    assert e * i + e == e * (i + 1);
    AddZero(TermSum(rest, i + 1));
  }

  lemma CancelsTo(a: Octet, b: Octet)
    requires Add(a, b) == ZERO
    ensures a == b
  {}

  // ----- distance

  /** In how many places two words of one length differ. */
  function Distance(a: Poly, b: Poly): nat
    requires |a| == |b|
  {
    if a == [] then 0 else (if a[0] == b[0] then 0 else 1) + Distance(a[1..], b[1..])
  }

  lemma {:induction false} DistanceIsTermCount(a: Poly, b: Poly)
    requires |a| == |b|
    ensures |Terms(AddPoly(a, b))| == Distance(a, b)
  {
    hide Add;
    if a != [] {
      DistanceIsTermCount(a[1..], b[1..]);
      assert AddPoly(a, b)[1..] == AddPoly(a[1..], b[1..]);
      AddZero(a[0]);
      if Add(a[0], b[0]) == ZERO {
        CancelsTo(a[0], b[0]);
      }
    }
  }

  lemma {:induction false} DistanceZero(a: Poly, b: Poly)
    requires |a| == |b| && Distance(a, b) == 0
    ensures a == b
  {
    if a != [] {
      DistanceZero(a[1..], b[1..]);
      assert a == [a[0]] + a[1..] && b == [b[0]] + b[1..];
    }
  }

  lemma {:induction false} DistanceTriangle(a: Poly, b: Poly, c: Poly)
    requires |a| == |b| == |c|
    ensures Distance(a, c) <= Distance(a, b) + Distance(b, c)
    ensures Distance(a, b) == Distance(b, a)
  {
    if a != [] {
      DistanceTriangle(a[1..], b[1..], c[1..]);
    }
  }

  /** Distinct code words of one length differ in more places than there are check octets. */
  lemma {:induction false} CodewordsAreFarApart(a: Poly, b: Poly, count: nat)
    requires |a| == |b| <= 255 && IsCodeword(a, count) && IsCodeword(b, count)
    ensures a == b || Distance(a, b) > count
  {
    if Distance(a, b) <= count {
      var d := AddPoly(a, b);
      DistanceIsTermCount(a, b);
      forall i: nat | i < count
        ensures TermSum(Terms(d), i) == ZERO
      {
        EvalAddPoly(a, b, Exp(i));
        EvalIsTermSum(d, i);
        AddZero(ZERO);
      }
      NoShortCancellation(Terms(d), count);
      DistanceZero(a, b);
    }
  }

  lemma {:induction false} SharedPrefix(data: Poly, a: Poly, b: Poly)
    requires |a| == |b|
    ensures Distance(data + a, data + b) <= |a|
  {
    if data != [] {
      SharedPrefix(data[1..], a, b);
      assert (data + a)[1..] == data[1..] + a && (data + b)[1..] == data[1..] + b;
    } else {
      assert data + a == a && data + b == b;
      DistanceBound(a, b);
    }
  }

  lemma {:induction false} DistanceBound(a: Poly, b: Poly)
    requires |a| == |b|
    ensures Distance(a, b) <= |a|
  {
    if a != [] {
      DistanceBound(a[1..], b[1..]);
    }
  }

  /** No other check octets fit the same data. */
  lemma {:induction false} CheckOctetsAreUnique(data: Poly, a: Poly, b: Poly, count: nat)
    requires |a| == |b| == count && |data| + count <= 255
    requires IsCodeword(data + a, count) && IsCodeword(data + b, count)
    ensures a == b
  {
    SharedPrefix(data, a, b);
    CodewordsAreFarApart(data + a, data + b, count);
    assert a == (data + a)[|data|..] && b == (data + b)[|data|..];
  }

  /** A word damaged in at most half as many places as there are check octets has one possible origin. */
  lemma {:induction false} DamageIsCorrectable(received: Poly, a: Poly, b: Poly, count: nat)
    requires |received| == |a| == |b| <= 255 && IsCodeword(a, count) && IsCodeword(b, count)
    requires Distance(received, a) <= count / 2 && Distance(received, b) <= count / 2
    ensures a == b
  {
    DistanceTriangle(a, received, b);
    DistanceTriangle(received, a, b);
    CodewordsAreFarApart(a, b, count);
  }
}
