/**
 Octets are numbers below 256. Exclusive-or is defined on all natural numbers, bit by bit from the
 low end, so that its laws are short inductions and the nine-bit numbers met while reducing need
 no separate treatment.
 */
module Bytes {

  type byte = x: int | 0 <= x < 256

  type Bytes = seq<byte>

  datatype Option<+T> = None | Some(value: T)

  function Pow2(k: nat): (p: nat)
    ensures p > 0
  {
    if k == 0 then 1 else 2 * Pow2(k - 1)
  }

  lemma Pow2Eight(w: nat)
    ensures Pow2(w + 8) == 256 * Pow2(w)
  {
    assert Pow2(w + 2) == 4 * Pow2(w);
    assert Pow2(w + 4) == 4 * Pow2(w + 2);
    assert Pow2(w + 6) == 4 * Pow2(w + 4);
  }

  function XorNat(a: nat, b: nat): nat
    decreases a + b
  {
    if a + b == 0 then 0
    else 2 * XorNat(a / 2, b / 2) + (if a % 2 == b % 2 then 0 else 1)
  }

  lemma {:induction false} XorCommutes(a: nat, b: nat)
    ensures XorNat(a, b) == XorNat(b, a)
    decreases a + b
  {
    if a + b > 0 {
      XorCommutes(a / 2, b / 2);
    }
  }

  lemma {:induction false} XorAssociates(a: nat, b: nat, c: nat)
    ensures XorNat(XorNat(a, b), c) == XorNat(a, XorNat(b, c))
    decreases a + b + c
  {
    if a + b + c > 0 {
      XorAssociates(a / 2, b / 2, c / 2);
      XorHalves(a, b);
      XorHalves(b, c);
      XorHalves(XorNat(a, b), c);
      XorHalves(a, XorNat(b, c));
    }
  }

  lemma {:induction false} XorHalves(a: nat, b: nat)
    ensures XorNat(a, b) / 2 == XorNat(a / 2, b / 2)
    ensures XorNat(a, b) % 2 == (a + b) % 2
  {
    var h := XorNat(a / 2, b / 2);
    assert XorNat(a, b) == 2 * h + (a + b) % 2;
    hide XorNat;
  }

  lemma {:induction false} XorZero(a: nat)
    ensures XorNat(a, 0) == a && XorNat(0, a) == a
  {
    if a > 0 {
      XorZero(a / 2);
    }
  }

  lemma {:induction false} XorSelf(a: nat)
    ensures XorNat(a, a) == 0
  {
    if a > 0 {
      XorSelf(a / 2);
    }
  }

  lemma XorCancels(a: nat, k: nat)
    ensures XorNat(XorNat(a, k), k) == a
    ensures XorNat(k, XorNat(k, a)) == a
  {
    XorAssociates(a, k, k);
    XorAssociates(k, k, a);
    XorSelf(k);
    XorZero(a);
  }

  /** The bit of weight 2^k is set in the result when it is set in exactly one operand. */
  lemma {:induction false} XorTopBit(a: nat, b: nat, k: nat)
    requires a < Pow2(k + 1) && b < Pow2(k + 1)
    ensures XorNat(a, b) < Pow2(k + 1)
    ensures XorNat(a, b) >= Pow2(k) <==> (a >= Pow2(k)) != (b >= Pow2(k))
    decreases k
  {
    XorHalves(a, b);
    if k > 0 {
      XorTopBit(a / 2, b / 2, k - 1);
    } else {
      XorZero(0);
    }
  }

  /** Exclusive-or of two octets. */
  function Xor(a: byte, b: byte): byte {
    assert Pow2(1) == 2 && Pow2(3) == 8 && Pow2(5) == 32 && Pow2(7) == 128 && Pow2(8) == 256;
    XorTopBit(a, b, 7);
    XorNat(a, b)
  }

  // ----- shared by several modules

  function Min(a: int, b: int): int { if a < b then a else b }

  function Ceil(x: real): int { -((-x).Floor) }

  function Join<T>(chunks: seq<seq<T>>): seq<T> {
    if chunks == [] then [] else chunks[0] + Join(chunks[1..])
  }

  lemma Regroup<T>(a: seq<T>, b: seq<T>, c: seq<T>)
    ensures a + (b + c) == (a + b) + c
  {}

  lemma JoinNothing<T>(chunks: seq<seq<T>>)
    ensures Join(chunks[..0]) == []
  {}

  lemma {:induction false} JoinPart<T>(chunks: seq<seq<T>>, i: nat)
    requires i <= |chunks|
    ensures Join(chunks[..i]) <= Join(chunks)
  {
    if i > 0 {
      JoinPart(chunks[1..], i - 1);
      assert chunks[..i][1..] == chunks[1..][..i - 1];
    }
  }

  lemma {:induction false} JoinNext<T>(chunks: seq<seq<T>>, i: nat)
    requires i < |chunks|
    ensures Join(chunks[..i + 1]) == Join(chunks[..i]) + chunks[i]
  {
    if i == 0 {
      assert chunks[..1][1..] == [];
    } else {
      JoinNext(chunks[1..], i - 1);
      assert chunks[..i + 1][1..] == chunks[1..][..i] && chunks[..i][1..] == chunks[1..][..i - 1];
    }
  }

  lemma JoinLast<T>(chunks: seq<seq<T>>, last: seq<T>)
    ensures Join(chunks + [last]) == Join(chunks) + last
  {
    var all := chunks + [last];
    JoinNext(all, |chunks|);
    assert all[..|chunks|] == chunks && all[..|chunks| + 1] == all;
  }

  function Sum(xs: seq<nat>): nat {
    if xs == [] then 0 else xs[0] + Sum(xs[1..])
  }

  // ----- numbers in octets

  /** The number a big-endian octet string stands for. */
  function Value(c: Bytes): nat {
    if c == [] then 0 else 256 * Value(c[..|c| - 1]) + c[|c| - 1]
  }

  function Pow256(n: nat): (p: nat)
    ensures p > 0
  {
    if n == 0 then 1 else 256 * Pow256(n - 1)
  }
}
