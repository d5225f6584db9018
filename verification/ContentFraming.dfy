/**
 The content encoding: a header, full records, and one final record, each sealed under its own
 nonce (the framing of section 2 of RFC 8188 with a 256-bit key). The cipher is a parameter.
 */
module ContentFraming {
  import opened Bytes

  const RECORD_SIZE: nat := 65536
  const SALT_SIZE: nat := 16
  const HEADER_SIZE: nat := SALT_SIZE + 4 + 1
  const TAG_SIZE: nat := 16
  const MAX_PLAINTEXT: nat := RECORD_SIZE - TAG_SIZE - 1
  const MAX_SEQUENCE: nat := 0x1_0000_0000_0000
  const NON_FINAL: byte := 1
  const FINAL: byte := 2

  /** What a file key and a salt give: a nonce base, and authenticated encryption under one key. */
  datatype Keys = Keys(nonceBase: Bytes, seal: (Bytes, Bytes) -> Bytes, open: (Bytes, Bytes) -> Option<Bytes>)

  /** Sealing adds a tag, and opening accepts exactly what sealing produces. */
  ghost predicate Lawful(k: Keys) {
    && |k.nonceBase| == 12
    && (forall n, p :: |k.seal(n, p)| == |p| + TAG_SIZE && k.open(n, k.seal(n, p)) == Some(p))
    && (forall n, c :: k.open(n, c).Some? ==> k.seal(n, k.open(n, c).value) == c)
  }

  // ----- nonces

  function BigEndian(n: nat, width: nat): (b: Bytes)
    ensures |b| == width
  {
    if width == 0 then [] else BigEndian(n / 256, width - 1) + [n % 256]
  }

  lemma {:induction false} BigEndianInjective(m: nat, n: nat, width: nat)
    requires m < Pow2(8 * width) && n < Pow2(8 * width) && BigEndian(m, width) == BigEndian(n, width)
    ensures m == n
  {
    if width > 0 {
      var w := 8 * (width - 1);
      Pow2Eight(w);
      assert BigEndian(m, width)[..width - 1] == BigEndian(m / 256, width - 1);
      assert BigEndian(n, width)[..width - 1] == BigEndian(n / 256, width - 1);
      assert BigEndian(m, width)[width - 1] == m % 256 && BigEndian(n, width)[width - 1] == n % 256;
      BigEndianInjective(m / 256, n / 256, width - 1);
    }
  }

  /** The octets stand for the number, the most significant first. */
  lemma {:induction false} BigEndianValue(n: nat, width: nat)
    requires n < Pow256(width)
    ensures Value(BigEndian(n, width)) == n
  {
    if width > 0 {
      BigEndianValue(n / 256, width - 1);
      assert BigEndian(n, width)[..width - 1] == BigEndian(n / 256, width - 1);
    }
  }

  /** The base with the big-endian counter exclusive-ored into its last eight octets. */
  function RecordNonce(base: Bytes, seq_: nat): (n: Bytes)
    requires |base| == 12
    ensures |n| == 12
  {
    var counter := BigEndian(seq_, 8);
    base[..4] + seq(8, i requires 0 <= i < 8 => Xor(base[4 + i], counter[i]))
  }

  /** No two records of one stream share a nonce. */
  lemma {:induction false} NonceInjective(base: Bytes, i: nat, j: nat)
    requires |base| == 12 && i < MAX_SEQUENCE && j < MAX_SEQUENCE && RecordNonce(base, i) == RecordNonce(base, j)
    ensures i == j
  {
    var a, b := BigEndian(i, 8), BigEndian(j, 8);
    hide BigEndian;
    forall t | 0 <= t < 8
      ensures a[t] == b[t]
    {
      assert RecordNonce(base, i)[4 + t] == Xor(base[4 + t], a[t]);
      assert RecordNonce(base, j)[4 + t] == Xor(base[4 + t], b[t]);
      XorCancels(a[t], base[4 + t]);
      XorCancels(b[t], base[4 + t]);
    }
    assert MAX_SEQUENCE < Pow2(64) by { PowersGrow(); }
    BigEndianInjective(i, j, 8);
  }

  /** What distinguishes a nonce from the base. */
  function Difference(a: Bytes, b: Bytes): Bytes
    requires |a| == |b|
  {
    seq(|a|, i requires 0 <= i < |a| => Xor(a[i], b[i]))
  }

  /** It is the counter, as a number of twelve octets. */
  lemma NonceCounts(base: Bytes, i: nat)
    requires |base| == 12 && i < MAX_SEQUENCE
    ensures Value(Difference(RecordNonce(base, i), base)) == i
  {
    var counter := BigEndian(i, 8);
    var d := Difference(RecordNonce(base, i), base);
    Powers256();
    BigEndianValue(i, 8);
    forall t | 0 <= t < 12 ensures d[t] == if t < 4 then 0 else counter[t - 4] {
      DifferenceAt(base, i, t);
    }
    hide BigEndian, RecordNonce, Difference, Value;
    assert d == seq(4, i => 0) + counter;
    LeadingZeros(4, counter);
  }

  lemma DifferenceAt(base: Bytes, i: nat, t: nat)
    requires |base| == 12 && t < 12
    ensures Difference(RecordNonce(base, i), base)[t] == if t < 4 then 0 else BigEndian(i, 8)[t - 4]
  {
    hide BigEndian, Xor;
    if t < 4 {
      XorSame(base[t]);
    } else {
      XorOff(base[t], BigEndian(i, 8)[t - 4]);
    }
  }

  lemma XorSame(a: byte)
    ensures Xor(a, a) == 0
  {
    XorSelf(a);
  }

  lemma XorOff(a: byte, b: byte)
    ensures Xor(Xor(a, b), a) == b
  {
    XorCommutes(a, b);
    XorCancels(b, a);
  }

  lemma Powers256()
    ensures Pow256(8) > MAX_SEQUENCE && Pow256(4) > RECORD_SIZE
  {
    assert Pow256(2) == 65536 && Pow256(4) == 65536 * Pow256(2) && Pow256(6) == 65536 * Pow256(4);
  }

  lemma {:induction false} LeadingZeros(n: nat, c: Bytes)
    ensures Value(seq(n, i => 0) + c) == Value(c)
  {
    var z: Bytes := seq(n, i => 0);
    if c == [] {
      assert z + c == z;
      ZerosValue(n);
    } else {
      assert (z + c)[..n + |c| - 1] == z + c[..|c| - 1];
      LeadingZeros(n, c[..|c| - 1]);
    }
  }

  lemma {:induction false} ZerosValue(n: nat)
    ensures Value(seq(n, i => 0)) == 0
  {
    if n > 0 {
      var z: Bytes := seq(n, i => 0);
      assert z[..n - 1] == seq(n - 1, i => 0);
      ZerosValue(n - 1);
    }
  }

  lemma PowersGrow()
    ensures Pow2(48) == MAX_SEQUENCE && Pow2(48) < Pow2(64)
  {
    Pow2Eight(0); Pow2Eight(8); Pow2Eight(16); Pow2Eight(24);
    Pow2Eight(32); Pow2Eight(40); Pow2Eight(48); Pow2Eight(56);
  }

  // ----- the encoding

  function Header(salt: Bytes): Bytes { salt + BigEndian(RECORD_SIZE, 4) + [0] }

  function Record(k: Keys, i: nat, chunk: Bytes, final: bool): Bytes
    requires |k.nonceBase| == 12
  {
    k.seal(RecordNonce(k.nonceBase, i), chunk + [if final then FINAL else NON_FINAL])
  }

  /** The 21 octets of a header: the salt, the record size as a number of four octets, and no key identifier. */
  lemma HeaderFields(salt: Bytes)
    requires |salt| == SALT_SIZE
    ensures var h := Header(salt);
            |h| == 21 && h[..16] == salt && Value(h[16..20]) == 65536 && h[20] == 0
  {
    Powers256();
    BigEndianValue(RECORD_SIZE, 4);
    hide BigEndian;
    assert Header(salt)[16..20] == BigEndian(RECORD_SIZE, 4);
  }

  /** What is sealed: the chunk and one octet, 2 in the last record and 1 in every other. */
  lemma RecordDelimiter(k: Keys, i: nat, chunk: Bytes, final: bool)
    requires Lawful(k)
    ensures k.open(RecordNonce(k.nonceBase, i), Record(k, i, chunk, final)) == Some(chunk + [if final then 2 else 1])
  {
    hide RecordNonce;
  }

  /** The records of a plaintext, from the i-th on: full ones while more follows, then the final one. */
  function Body(k: Keys, p: Bytes, i: nat): Bytes
    requires |k.nonceBase| == 12
    decreases |p|
  {
    if |p| <= MAX_PLAINTEXT then Record(k, i, p, true)
    else Record(k, i, p[..MAX_PLAINTEXT], false) + Body(k, p[MAX_PLAINTEXT..], i + 1)
  }

  function NonFinalRecords(n: nat): nat {
    if n == 0 then 0 else (n + MAX_PLAINTEXT - 1) / MAX_PLAINTEXT - 1
  }

  /** The length an uploader declares, as the Go client computes it. */
  function EncodedContentLength(n: int): Option<int> {
    if n < 0 then None
    else
      var nonFinal := NonFinalRecords(n);
      Some(HEADER_SIZE + nonFinal * RECORD_SIZE + (n - nonFinal * MAX_PLAINTEXT) + 17)
  }

  lemma OneRecordLess(n: nat)
    requires n > MAX_PLAINTEXT
    ensures NonFinalRecords(n) == NonFinalRecords(n - MAX_PLAINTEXT) + 1
  {}

  lemma {:induction false} BodyLength(k: Keys, p: Bytes, i: nat)
    requires Lawful(k)
    ensures |Body(k, p, i)| == NonFinalRecords(|p|) * RECORD_SIZE + (|p| - NonFinalRecords(|p|) * MAX_PLAINTEXT) + 17
    decreases |p|
  {
    if |p| > MAX_PLAINTEXT {
      BodyLength(k, p[MAX_PLAINTEXT..], i + 1);
      OneRecordLess(|p|);
      assert |Record(k, i, p[..MAX_PLAINTEXT], false)| == RECORD_SIZE;
      hide Record, NonFinalRecords, Lawful;
    } else {
      assert |Record(k, i, p, true)| == |p| + 17;
    }
  }

  /** The declared length is the length produced, and for any size a browser can express it fits 63 bits. */
  lemma {:induction false} DeclaredLengthIsExact(k: Keys, salt: Bytes, p: Bytes)
    requires Lawful(k) && |salt| == SALT_SIZE
    ensures EncodedContentLength(|p|) == Some(|Header(salt) + Body(k, p, 0)|)
  {
    BodyLength(k, p, 0);
  }

  /** No intermediate value of the computation leaves the range of a signed 64-bit number. */
  lemma {:induction false} LengthDoesNotOverflow(n: nat)
    requires n < 0x20_0000_0000_0000
    ensures n + MAX_PLAINTEXT - 1 < 0x8000_0000_0000_0000
    ensures NonFinalRecords(n) * MAX_PLAINTEXT <= n
    ensures EncodedContentLength(n).value < 0x8000_0000_0000_0000
    ensures NonFinalRecords(n) < MAX_SEQUENCE
  {}

  // ----- the TypeScript length

  const TWO_53: nat := 0x20_0000_0000_0000

  /** A whole number below 2^54 as a double holds it: beyond 2^53 only even ones, and ties go to multiples of four. */
  function Nearest(x: int): int {
    if x <= TWO_53 || x % 2 == 0 then x else if x % 4 == 1 then x - 1 else x + 1
  }

  /** The three sums of the TypeScript formula, each rounded. */
  function WebSum(nonFinal: int, final: int): int {
    Nearest(Nearest(Nearest(HEADER_SIZE + nonFinal * RECORD_SIZE) + final) + 17)
  }

  /** The TypeScript formula, with `quotient` standing for the rounded result of its floating-point division. */
  function WebContentLength(n: nat, quotient: real): int {
    var nonFinal := if n == 0 then 0 else Ceil(quotient) - 1;
    WebSum(nonFinal, n - nonFinal * MAX_PLAINTEXT)
  }

  /** A quotient as a double gives it: exact where it is whole, and otherwise within 2^-16. */
  predicate Rounded(n: nat, quotient: real) {
    var exact := n as real / MAX_PLAINTEXT as real;
    && exact - 1.0 / 65536.0 <= quotient <= exact + 1.0 / 65536.0
    && (n % MAX_PLAINTEXT == 0 ==> quotient == exact)
  }

  /**
   A double below 2^38 is rounded by at most 2^-16, and an exact quotient is not rounded. A quotient that is not
   whole is at least 1/65519 from a whole number, which is more than 2^-16: so the rounded ceiling is the true one.
   */
  lemma {:induction false} CeilingIsTrue(n: nat, quotient: real)
    requires 0 < n < TWO_53 && Rounded(n, quotient)
    ensures Ceil(quotient) - 1 == NonFinalRecords(n)
  {
    var q, r := n / MAX_PLAINTEXT, n % MAX_PLAINTEXT;
    assert n as real == q as real * 65519.0 + r as real;
    var exact := n as real / 65519.0;
    assert exact * 65519.0 == n as real;
    if r == 0 {
      assert quotient == q as real;
      assert NonFinalRecords(n) == q - 1;
    } else {
      assert (exact - q as real) * 65519.0 == r as real && 1.0 <= r as real <= 65518.0;
      assert exact >= q as real + 1.0 / 65519.0 && exact <= q as real + 1.0 - 1.0 / 65519.0;
      assert q as real < quotient < q as real + 1.0;
      assert (-quotient).Floor == -(q + 1);
      assert NonFinalRecords(n) == q;
    }
  }

  /** Where the rounded sums are exact. */
  predicate SumIsExact(length: int) {
    length <= TWO_53 || length % 4 == 0 || (length % 2 == 0 && length <= TWO_53 + 16)
  }

  lemma NearestParts(y: int, r: int)
    requires 0 <= r < 4
    ensures Nearest(4 * y + r)
         == if 4 * y + r <= TWO_53 then 4 * y + r else 4 * y + (if r < 2 then 0 else if r == 2 then 2 else 4)
  {}

  lemma ExactParts(y: int, r: int)
    requires 0 <= r < 4
    ensures SumIsExact(4 * y + r) <==> 4 * y + r <= TWO_53 || r == 0 || (r == 2 && 4 * y + r <= TWO_53 + 16)
  {}

  /** The first sum is rounded down, by the remainders of the final plaintext modulo four. */
  lemma WebSumLarge(m: nat, a: nat, r: nat)
    requires r < 4 && 21 + 4 * m > TWO_53
    ensures Nearest(Nearest(Nearest(21 + 4 * m) + (4 * a + r)) + 17) == 38 + 4 * m + 4 * a + r <==> r == 2
    ensures Nearest(Nearest(Nearest(21 + 4 * m) + (4 * a + r)) + 17) >= TWO_53
  {
    var y := m + 5 + a;
    NearestParts(m + 5, 1);
    NearestParts(y, r);
    hide Nearest;
    if r < 2 {
      NearestParts(y + 4, 1);
    } else if r == 2 {
      NearestParts(y + 4, 3);
    } else {
      NearestParts(y + 5, 1);
    }
  }

  /** The first two sums are exact. */
  lemma WebSumSmall(x: nat)
    requires x <= TWO_53
    ensures Nearest(x) == x && (Nearest(x + 17) == x + 17 <==> SumIsExact(x + 17))
    ensures x + 17 >= TWO_53 ==> Nearest(x + 17) >= TWO_53
  {}

  /** The second sum is the first to be rounded. */
  lemma WebSumMiddle(y: nat, r: nat)
    requires r < 4 && 4 * y + r > TWO_53
    ensures Nearest(Nearest(4 * y + r) + 17) == 4 * y + r + 17 <==> r == 3
    ensures Nearest(Nearest(4 * y + r) + 17) >= TWO_53
  {
    NearestParts(y, r);
    hide Nearest;
    if r < 2 {
      NearestParts(y + 4, 1);
    } else if r == 2 {
      NearestParts(y + 4, 3);
    } else {
      NearestParts(y + 5, 1);
    }
  }

  lemma WebSumParts(m: nat, a: nat, r: nat)
    requires r < 4
    ensures var sum := Nearest(Nearest(Nearest(21 + 4 * m) + (4 * a + r)) + 17);
            var length := 21 + 4 * m + (4 * a + r) + 17;
            (sum == length <==> SumIsExact(length)) && (length >= TWO_53 ==> sum >= TWO_53)
  {
    var x := 21 + 4 * m + (4 * a + r);
    if 21 + 4 * m > TWO_53 {
      WebSumLarge(m, a, r);
      if r < 2 { ExactParts(m + a + 9, r + 2); } else { ExactParts(m + a + 10, r - 2); }
      hide Nearest, SumIsExact;
    } else if x > TWO_53 {
      var y, t := x / 4, x % 4;
      WebSumMiddle(y, t);
      WebSumSmall(21 + 4 * m);
      if t < 3 { ExactParts(y + 4, t + 1); } else { ExactParts(y + 5, 0); }
      hide Nearest, SumIsExact;
    } else {
      WebSumSmall(21 + 4 * m);
      WebSumSmall(x);
      hide Nearest, SumIsExact;
    }
  }

  lemma WebSumExactly(nonFinal: nat, final: nat)
    ensures var length := HEADER_SIZE + nonFinal * RECORD_SIZE + final + 17;
            && (WebSum(nonFinal, final) == length <==> SumIsExact(length))
            && (length >= TWO_53 ==> WebSum(nonFinal, final) >= TWO_53)
  {
    WebSumParts(nonFinal * 16384, final / 4, final % 4);
    hide Nearest, SumIsExact;
    assert HEADER_SIZE + nonFinal * RECORD_SIZE == 21 + 4 * (nonFinal * 16384) && final == 4 * (final / 4) + final % 4;
  }

  /**
   The two clients declare the same length exactly when the length is at most 2^53, or a multiple of
   four, or even and within 16 of 2^53. Otherwise the browser's sums are rounded away from it.
   */
  lemma ClientsDeclareTheSameLength(n: nat, quotient: real)
    requires n < TWO_53 && Rounded(n, quotient)
    ensures var length := EncodedContentLength(n).value;
            && (WebContentLength(n, quotient) == length <==> SumIsExact(length))
            && (length >= TWO_53 ==> WebContentLength(n, quotient) >= TWO_53)
  {
    var nonFinal := NonFinalRecords(n);
    if n > 0 {
      CeilingIsTrue(n, quotient);
    }
    assert 0 <= n - nonFinal * MAX_PLAINTEXT <= MAX_PLAINTEXT;
    WebSumExactly(nonFinal, n - nonFinal * MAX_PLAINTEXT);
  }

  /** The largest size a browser can express is one of those: the browser declares three octets too few. */
  lemma LargestLengthsDiffer(quotient: real)
    requires Rounded(TWO_53 - 1, quotient)
    ensures WebContentLength(TWO_53 - 1, quotient) == 9009536323184228
    ensures EncodedContentLength(TWO_53 - 1) == Some(9009536323184231)
  {
    CeilingIsTrue(TWO_53 - 1, quotient);
    assert NonFinalRecords(TWO_53 - 1) == 137474614306;
    hide NonFinalRecords, Ceil, Rounded;
    assert Nearest(9009536323158037) == 9009536323158036 && Nearest(9009536323158036 + 26177) == 9009536323184212;
    assert Nearest(9009536323184212 + 17) == 9009536323184228;
  }
}
