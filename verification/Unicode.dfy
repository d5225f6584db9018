/**
 Text as Unicode scalar values, and its two encodings: UTF-8 as in RFC 3629, and the UTF-16 code
 units that browser strings are made of.
 */
module Unicode {
  import opened Bytes

  type Unit = x: int | 0 <= x < 0x1_0000

  // ----- UTF-8

  function Utf8(c: char): (b: Bytes)
    ensures 1 <= |b| <= 4
  {
    var x := c as int;
    if x < 0x80 then [x]
    else if x < 0x800 then [0xc0 + x / 64, 0x80 + x % 64]
    else if x < 0x1_0000 then [0xe0 + x / 4096, 0x80 + x / 64 % 64, 0x80 + x % 64]
    else [0xf0 + x / 262144, 0x80 + x / 4096 % 64, 0x80 + x / 64 % 64, 0x80 + x % 64]
  }

  function Utf8All(t: string): Bytes {
    if t == [] then [] else Utf8(t[0]) + Utf8All(t[1..])
  }

  predicate Trail(b: byte) { 0x80 <= b < 0xc0 }

  predicate Scalar(x: int) { 0 <= x < 0xd800 || 0xe000 <= x < 0x11_0000 }

  /** A scalar value that is at least as large as its form requires. */
  function Checked(x: int, least: int): Option<char> {
    if Scalar(x) && least <= x then Some(x as char) else None
  }

  function Two(a: int, b: int): int { (a - 0xc0) * 64 + (b - 0x80) }
  function Three(a: int, b: int, c: int): int { (a - 0xe0) * 4096 + (b - 0x80) * 64 + (c - 0x80) }
  function Four(a: int, b: int, c: int,
                d: int): int { (a - 0xf0) * 262144 + (b - 0x80) * 4096 + (c - 0x80) * 64 + (d - 0x80) }
  function Pair(high: int, low: int): int { 0x1_0000 + (high - 0xd800) * 1024 + (low - 0xdc00) }

  /** The first character, if the bytes begin with a shortest-form encoding of one. */
  function FirstChar(b: Bytes): (r: Option<char>)
    ensures r.Some? ==> |Utf8(r.value)| <= |b|
  {
    if |b| >= 1 && b[0] < 0x80 then Some(b[0] as char)
    else if |b| >= 2 && 0xc0 <= b[0] < 0xe0 && Trail(b[1]) then
      Checked(Two(b[0], b[1]), 0x80)
    else if |b| >= 3 && 0xe0 <= b[0] < 0xf0 && Trail(b[1]) && Trail(b[2]) then
      Checked(Three(b[0], b[1], b[2]), 0x800)
    else if |b| >= 4 && 0xf0 <= b[0] < 0xf8 && Trail(b[1]) && Trail(b[2]) && Trail(b[3]) then
      Checked(Four(b[0], b[1], b[2], b[3]), 0x1_0000)
    else None
  }

  lemma FirstCharOf(c: char, rest: Bytes)
    ensures FirstChar(Utf8(c) + rest) == Some(c)
  {
    var x := c as int;
    Forms(x);
    var e := Utf8(c);
    var b := e + rest;
    assert forall i :: 0 <= i < |e| ==> b[i] == e[i];
    hide Two, Three, Four;
  }

  /** And only then. */
  lemma FirstCharIsFirst(b: Bytes)
    ensures FirstChar(b).Some? ==> Utf8(FirstChar(b).value) <= b
  {
    if FirstChar(b).Some? {
      var x := FirstChar(b).value as int;
      if x >= 0x1_0000 {
        FourBack(b[0], b[1], b[2], b[3]);
      } else if x >= 0x800 {
        ThreeBack(b[0], b[1], b[2]);
      } else if x >= 0x80 {
        TwoBack(b[0], b[1]);
      }
    }
  }

  lemma TwoBack(a: int, b: int)
    requires 0x80 <= b < 0xc0
    ensures var x := Two(a, b); 0xc0 + x / 64 == a && 0x80 + x % 64 == b
  {
    LowDigit(a - 0xc0, b - 0x80);
  }

  lemma ThreeBack(a: int, b: int, c: int)
    requires 0x80 <= b < 0xc0 && 0x80 <= c < 0xc0
    ensures var x := Three(a, b, c); 0xe0 + x / 4096 == a && 0x80 + x / 64 % 64 == b && 0x80 + x % 64 == c
  {
    LowDigit((a - 0xe0) * 64 + (b - 0x80), c - 0x80);
    LowDigit(a - 0xe0, b - 0x80);
    DivideTwice(Three(a, b, c));
  }

  lemma FourBack(a: int, b: int, c: int, d: int)
    requires 0x80 <= b < 0xc0 && 0x80 <= c < 0xc0 && 0x80 <= d < 0xc0
    ensures var x := Four(a, b, c, d);
            0xf0 + x / 262144 == a && 0x80 + x / 4096 % 64 == b && 0x80 + x / 64 % 64 == c && 0x80 + x % 64 == d
  {
    var high := (a - 0xf0) * 64 + (b - 0x80);
    LowDigit(high * 64 + (c - 0x80), d - 0x80);
    LowDigit(high, c - 0x80);
    LowDigit(a - 0xf0, b - 0x80);
    DivideTwice(Four(a, b, c, d));
  }

  lemma LowDigit(high: int, low: int)
    requires 0 <= low < 64
    ensures (high * 64 + low) / 64 == high && (high * 64 + low) % 64 == low
  {}

  lemma DivideTwice(x: int)
    ensures x / 4096 == x / 64 / 64 && x / 262144 == x / 64 / 64 / 64
  {}

  lemma Forms(x: int)
    requires 0 <= x < 0x11_0000
    ensures 0x80 <= x < 0x800 ==> Two(0xc0 + x / 64, 0x80 + x % 64) == x
    ensures 0x800 <= x < 0x1_0000 ==> Three(0xe0 + x / 4096, 0x80 + x / 64 % 64, 0x80 + x % 64) == x
    ensures 0x1_0000 <= x ==> Four(0xf0 + x / 262144, 0x80 + x / 4096 % 64, 0x80 + x / 64 % 64, 0x80 + x % 64) == x
  {
    var y := x / 64;
    var z := y / 64;
    assert x / 4096 == z && x / 262144 == z / 64;
  }

  function FromUtf8(b: Bytes): Option<string>
    decreases |b|
  {
    if b == [] then Some([])
    else
      var first := FirstChar(b);
      if first.None? then None
      else
        var rest := FromUtf8(b[|Utf8(first.value)|..]);
        if rest.None? then None else Some([first.value] + rest.value)
  }

  /** Decoding accepts exactly the encodings of text. */
  lemma {:induction false} FromUtf8Encoded(t: string)
    ensures FromUtf8(Utf8All(t)) == Some(t)
  {
    if t != [] {
      var b := Utf8All(t);
      FirstCharOf(t[0], Utf8All(t[1..]));
      hide Utf8, FirstChar;
      assert b[|Utf8(t[0])|..] == Utf8All(t[1..]);
      FromUtf8Encoded(t[1..]);
      assert t == [t[0]] + t[1..];
    }
  }

  lemma {:induction false} FromUtf8Inverts(b: Bytes)
    ensures FromUtf8(b).Some? ==> Utf8All(FromUtf8(b).value) == b
    decreases |b|
  {
    if b != [] && FirstChar(b).Some? {
      var c := FirstChar(b).value;
      FirstCharIsFirst(b);
      hide Utf8, FirstChar;
      FromUtf8Inverts(b[|Utf8(c)|..]);
      if FromUtf8(b).Some? {
        assert FromUtf8(b).value[1..] == FromUtf8(b[|Utf8(c)|..]).value;
      }
    }
  }

  lemma {:induction false} Utf8AllConcat(s: string, t: string)
    ensures Utf8All(s + t) == Utf8All(s) + Utf8All(t)
  {
    hide Utf8;
    if s == [] {
      assert s + t == t;
    } else {
      Utf8AllConcat(s[1..], t);
      assert (s + t)[0] == s[0] && (s + t)[1..] == s[1..] + t;
      assert Utf8All(s + t) == Utf8(s[0]) + Utf8All(s[1..] + t);
      Regroup(Utf8(s[0]), Utf8All(s[1..]), Utf8All(t));
    }
  }

  // ----- UTF-16

  function Utf16(c: char): (u: seq<Unit>)
    ensures 1 <= |u| <= 2
  {
    var x := c as int;
    if x < 0x1_0000 then [x] else [0xd800 + (x - 0x1_0000) / 1024, 0xdc00 + (x - 0x1_0000) % 1024]
  }

  function Utf16All(t: string): seq<Unit> {
    if t == [] then [] else Utf16(t[0]) + Utf16All(t[1..])
  }

  predicate High(u: Unit) { 0xd800 <= u <= 0xdbff }
  predicate Low(u: Unit) { 0xdc00 <= u <= 0xdfff }

  /** The first code point of a string; none if it is an unpaired surrogate. */
  function FirstPoint(u: seq<Unit>): (r: Option<char>)
    requires u != []
    ensures r.Some? ==> Utf16(r.value) <= u
  {
    if High(u[0]) then
      if |u| > 1 && Low(u[1]) then Some(Pair(u[0], u[1]) as char) else None
    else if Low(u[0]) then None
    else Some(u[0] as char)
  }

  lemma FirstPointOf(c: char, rest: seq<Unit>)
    ensures FirstPoint(Utf16(c) + rest) == Some(c)
  {}

  function FromUtf16(u: seq<Unit>): Option<string>
    decreases |u|
  {
    if u == [] then Some([])
    else
      var first := FirstPoint(u);
      if first.None? then None
      else
        var rest := FromUtf16(u[|Utf16(first.value)|..]);
        if rest.None? then None else Some([first.value] + rest.value)
  }

  lemma {:induction false} FromUtf16Encoded(t: string)
    ensures FromUtf16(Utf16All(t)) == Some(t)
  {
    if t != [] {
      var u := Utf16All(t);
      FirstPointOf(t[0], Utf16All(t[1..]));
      hide Utf16, FirstPoint;
      assert u[|Utf16(t[0])|..] == Utf16All(t[1..]);
      FromUtf16Encoded(t[1..]);
      assert t == [t[0]] + t[1..];
    }
  }

  lemma {:induction false} FromUtf16Inverts(u: seq<Unit>)
    ensures FromUtf16(u).Some? ==> Utf16All(FromUtf16(u).value) == u
    decreases |u|
  {
    if u != [] && FirstPoint(u).Some? {
      var c := FirstPoint(u).value;
      hide Utf16, FirstPoint;
      FromUtf16Inverts(u[|Utf16(c)|..]);
      if FromUtf16(u).Some? {
        assert FromUtf16(u).value[1..] == FromUtf16(u[|Utf16(c)|..]).value;
      }
    }
  }

  lemma {:induction false} Utf16AllConcat(s: string, t: string)
    ensures Utf16All(s + t) == Utf16All(s) + Utf16All(t)
  {
    hide Utf16;
    if s == [] {
      assert s + t == t;
    } else {
      Utf16AllConcat(s[1..], t);
      assert (s + t)[0] == s[0] && (s + t)[1..] == s[1..] + t;
      assert Utf16All(s + t) == Utf16(s[0]) + Utf16All(s[1..] + t);
      Regroup(Utf16(s[0]), Utf16All(s[1..]), Utf16All(t));
    }
  }

  /** Walks the code units, as the browser does before it encodes. */
  method IsWellFormed(u: seq<Unit>) returns (ok: bool)
    ensures ok == FromUtf16(u).Some?
  {
    var i := 0;
    assert u[0..] == u;
    hide FromUtf16, Utf16;
    while i < |u|
      invariant i <= |u| && (FromUtf16(u).Some? <==> FromUtf16(u[i..]).Some?)
    {
      FirstUnits(u, i);
      var c := u[i];
      if c >= 0xd800 && c <= 0xdbff {
        var next := if i + 1 < |u| then u[i + 1] else 0;
        if next < 0xdc00 || next > 0xdfff {
          return false;
        }
        i := i + 1;
      } else if c >= 0xdc00 && c <= 0xdfff {
        return false;
      }
      i := i + 1;
    }
    assert u[i..] == [];
    NoUnits();
    ok := true;
  }

  lemma NoUnits()
    ensures FromUtf16([]) == Some([])
  {}

  /** What the unit at i says about the rest: a pair, a single unit, or an unpaired surrogate. */
  lemma FirstUnits(u: seq<Unit>, i: nat)
    requires i < |u|
    ensures var rest := FromUtf16(u[i..]);
            if High(u[i]) then
              if i + 1 < |u| && Low(u[i + 1]) then rest.Some? <==> FromUtf16(u[i + 2..]).Some? else rest.None?
            else if Low(u[i]) then rest.None?
            else rest.Some? <==> FromUtf16(u[i + 1..]).Some?
  {
    var first := FirstPoint(u[i..]);
    if first.Some? {
      var n := |Utf16(first.value)|;
      assert n == if High(u[i]) then 2 else 1;
      assert u[i..][n..] == u[i + n..];
      hide Utf16, FirstPoint;
    }
  }
}
