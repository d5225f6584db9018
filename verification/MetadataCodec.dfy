/**
 The encrypted metadata: a deterministic JSON text of name, type and size, padded to whole blocks.
 Two encoders, one over UTF-8 and one over UTF-16, give the same octets, and a reader that follows
 the string rules of section 7 of RFC 8259 gets back what went in.
 */
module MetadataCodec {
  import opened Bytes
  import opened Unicode

  const PAD_BLOCK: nat := 256
  const MAX_SIZE: int := 0x1F_FFFF_FFFF_FFFF

  datatype Metadata = Metadata(name: string, kind: string, size: int)

  predicate InRange(size: int) { 0 <= size <= MAX_SIZE }

  // ----- the text

  function HexDigit(n: nat): char
    requires n < 16
  {
    "0123456789abcdef"[n]
  }

  /** Minimal escaping: the quote, the reverse solidus and the control characters. */
  function Escaped(c: char): string {
    if c == '"' then "\\\""
    else if c == '\\' then "\\\\"
    else if c as int == 8 then "\\b"
    else if c as int == 12 then "\\f"
    else if c == '\n' then "\\n"
    else if c == '\r' then "\\r"
    else if c == '\t' then "\\t"
    else if c as int < 0x20 then "\\u00" + [HexDigit(c as int / 16), HexDigit(c as int % 16)]
    else [c]
  }

  function EscapedAll(t: string): string {
    if t == [] then [] else Escaped(t[0]) + EscapedAll(t[1..])
  }

  function Quoted(t: string): string { ['"'] + EscapedAll(t) + ['"'] }

  function Digit(n: nat): char
    requires n < 10
  {
    "0123456789"[n]
  }

  function Decimal(n: nat): (s: string)
    ensures s != []
  {
    if n < 10 then [Digit(n)] else Decimal(n / 10) + [Digit(n % 10)]
  }

  function BeforeName(): string { "{\"name\":" }
  function BeforeType(): string { ",\"type\":" }
  function BeforeSize(): string { ",\"size\":" }

  function Json(m: Metadata): string
    requires m.size >= 0
  {
    BeforeName() + Quoted(m.name) + BeforeType() + Quoted(m.kind) + BeforeSize() + Decimal(m.size) + "}"
  }

  // ----- reading a string: section 7 of RFC 8259

  datatype Read<T> = Read(value: T, rest: string)

  function HexValue(c: char): Option<nat> {
    if '0' <= c <= '9' then Some(c as int - '0' as int)
    else if 'a' <= c <= 'f' then Some(c as int - 'a' as int + 10)
    else if 'A' <= c <= 'F' then Some(c as int - 'A' as int + 10)
    else None
  }

  function Combined(h: seq<Option<nat>>): Option<nat>
    requires |h| == 4
  {
    if h[0].None? || h[1].None? || h[2].None? || h[3].None? then None
    else Some(h[0].value * 4096 + h[1].value * 256 + h[2].value * 16 + h[3].value)
  }

  /** Four hexadecimal digits. */
  function ReadHex(j: string): Option<nat> {
    if |j| < 4 then None else Combined([HexValue(j[0]), HexValue(j[1]), HexValue(j[2]), HexValue(j[3])])
  }

  function Short(c: char): Option<char> {
    if c == '"' || c == '\\' || c == '/' then Some(c)
    else if c == 'b' then Some(8 as char)
    else if c == 'f' then Some(12 as char)
    else if c == 'n' then Some('\n')
    else if c == 'r' then Some('\r')
    else if c == 't' then Some('\t')
    else None
  }

  /** A character outside the basic plane is escaped as a surrogate pair; an unpaired surrogate is refused. */
  function ReadPoint(j: string): (r: Option<Read<char>>)
    ensures r.Some? ==> |r.value.rest| < |j|
  {
    var x := ReadHex(j);
    if x.None? || x.value >= 0x1_0000 then None
    else if High(x.value) then
      if |j| >= 6 && j[4] == '\\' && j[5] == 'u' then
        var y := ReadHex(j[6..]);
        if y.None? || y.value >= 0x1_0000 || !Low(y.value) then None
        else Some(Read(Pair(x.value, y.value) as char, j[10..]))
      else None
    else if Low(x.value) then None
    else Some(Read(x.value as char, j[4..]))
  }

  function ReadChar(j: string): (r: Option<Read<char>>)
    requires j != []
    ensures r.Some? ==> |r.value.rest| < |j|
  {
    if j[0] == '\\' then
      if |j| < 2 then None
      else if j[1] == 'u' then ReadPoint(j[2..])
      else if Short(j[1]).Some? then Some(Read(Short(j[1]).value, j[2..]))
      else None
    else if j[0] as int < 0x20 then None
    else Some(Read(j[0], j[1..]))
  }

  function ReadChars(j: string): (r: Option<Read<string>>)
    ensures r.Some? ==> |r.value.rest| < |j|
    decreases |j|
  {
    if j == [] then None
    else if j[0] == '"' then Some(Read([], j[1..]))
    else
      var first := ReadChar(j);
      if first.None? then None
      else
        var more := ReadChars(first.value.rest);
        if more.None? then None else Some(Read([first.value.value] + more.value.value, more.value.rest))
  }

  function ReadString(j: string): (r: Option<Read<string>>)
    ensures r.Some? ==> |r.value.rest| < |j|
  {
    if j != [] && j[0] == '"' then ReadChars(j[1..]) else None
  }

  // ----- reading the object

  datatype Value = Text(text: string) | Number(number: nat)

  predicate IsDigit(c: char) { '0' <= c <= '9' }

  function ReadDigits(j: string, so_far: nat): (r: Read<nat>)
    ensures |r.rest| <= |j|
    decreases |j|
  {
    if j != [] && IsDigit(j[0]) then ReadDigits(j[1..], so_far * 10 + (j[0] as int - '0' as int)) else Read(so_far, j)
  }

  /** A whole number: no leading zeros. */
  function ReadNumber(j: string): (r: Option<Read<nat>>)
    ensures r.Some? ==> |r.value.rest| < |j|
  {
    if j == [] || !IsDigit(j[0]) then None
    else if j[0] == '0' then Some(Read(0, j[1..]))
    else Some(ReadDigits(j[1..], j[0] as int - '0' as int))
  }

  function ReadValue(j: string): (r: Option<Read<Value>>)
    ensures r.Some? ==> |r.value.rest| < |j|
  {
    if j != [] && j[0] == '"' then
      var s := ReadString(j);
      if s.None? then None else Some(Read(Text(s.value.value), s.value.rest))
    else
      var n := ReadNumber(j);
      if n.None? then None else Some(Read(Number(n.value.value), n.value.rest))
  }

  datatype Member = Member(key: string, value: Value)

  function ReadMember(j: string): (r: Option<Read<Member>>)
    ensures r.Some? ==> |r.value.rest| < |j|
  {
    var key := ReadString(j);
    if key.None? || key.value.rest == [] || key.value.rest[0] != ':' then None
    else
      var v := ReadValue(key.value.rest[1..]);
      if v.None? then None else Some(Read(Member(key.value.value, v.value.value), v.value.rest))
  }

  /** Members up to the closing brace, which ends the text. */
  function ReadMembers(j: string): Option<seq<Member>>
    decreases |j|
  {
    var first := ReadMember(j);
    if first.None? || first.value.rest == [] then None
    else
      var rest := first.value.rest;
      if rest == "}" then Some([first.value.value])
      else if rest[0] != ',' then None
      else
        var more := ReadMembers(rest[1..]);
        if more.None? then None else Some([first.value.value] + more.value)
  }

  function Find(ms: seq<Member>, key: string): Option<Value> {
    if ms == [] then None else if ms[0].key == key then Some(ms[0].value) else Find(ms[1..], key)
  }

  /** Exactly the three members, in any order, of the right kinds and with a size in range. */
  function ReadMetadata(j: string): Option<Metadata> {
    if j == [] || j[0] != '{' then None
    else
      var ms := ReadMembers(j[1..]);
      if ms.None? || |ms.value| != 3 then None
      else
        var n, t, s := Find(ms.value, "name"), Find(ms.value, "type"), Find(ms.value, "size");
        if n.None? || t.None? || s.None? then None
        else if !n.value.Text? || !t.value.Text? || !s.value.Number? || !InRange(s.value.number) then None
        else Some(Metadata(n.value.text, t.value.text, s.value.number))
  }

  // ----- what is written is read

  lemma EscapeIsRead(c: char, rest: string)
    ensures Escaped(c)[0] != '"' && ReadChar(Escaped(c) + rest) == Some(Read(c, rest))
  {
    var j := Escaped(c) + rest;
    if c as int < 0x20 && |Escaped(c)| == 6 {
      var x := c as int;
      HexIsRead(x / 16);
      HexIsRead(x % 16);
      HexIsRead(0);
      var h := j[2..];
      assert h[0] == '0' && h[1] == '0' && h[2] == HexDigit(x / 16) && h[3] == HexDigit(x % 16);
      hide HexValue, HexDigit;
      assert ReadHex(h) == Some(x);
      assert h[4..] == rest;
    } else {
      assert j[|Escaped(c)|..] == rest;
    }
  }

  lemma HexIsRead(n: nat)
    requires n < 16
    ensures HexValue(HexDigit(n)) == Some(n)
  {}

  lemma {:induction false} QuotedIsRead(t: string, rest: string)
    ensures ReadChars(EscapedAll(t) + ['"'] + rest) == Some(Read(t, rest))
  {
    if t == [] {
      assert (EscapedAll(t) + ['"'] + rest)[1..] == rest;
    } else {
      var after := EscapedAll(t[1..]) + ['"'] + rest;
      EscapeIsRead(t[0], after);
      QuotedIsRead(t[1..], rest);
      hide Escaped, ReadChar;
      var j := Escaped(t[0]) + after;
      assert EscapedAll(t) + ['"'] + rest == j;
      hide EscapedAll;
      assert [t[0]] + t[1..] == t;
      assert j[0] != '"' && ReadChar(j) == Some(Read(t[0], after));
      assert ReadChars(j) == Some(Read([t[0]] + t[1..], rest));
    }
  }

  lemma StringIsRead(t: string, rest: string)
    ensures ReadString(Quoted(t) + rest) == Some(Read(t, rest))
  {
    QuotedIsRead(t, rest);
    hide EscapedAll, ReadChars;
    assert (Quoted(t) + rest)[1..] == EscapedAll(t) + ['"'] + rest;
  }

  lemma DigitIsRead(d: nat, so_far: nat, rest: string)
    requires d < 10
    ensures ReadDigits([Digit(d)] + rest, so_far) == ReadDigits(rest, so_far * 10 + d)
  {}

  lemma {:induction false} DigitsAreRead(n: nat, rest: string)
    ensures ReadDigits(Decimal(n) + rest, 0) == ReadDigits(rest, n)
    decreases n
  {
    hide ReadDigits, Digit;
    if n < 10 {
      DigitIsRead(n, 0, rest);
    } else {
      var d := [Digit(n % 10)];
      assert Decimal(n) + rest == Decimal(n / 10) + (d + rest);
      DigitsAreRead(n / 10, d + rest);
      DigitIsRead(n % 10, n / 10, rest);
    }
  }

  lemma {:induction false} DecimalStart(n: nat)
    ensures IsDigit(Decimal(n)[0]) && (Decimal(n)[0] == '0' <==> n == 0) && (n == 0 ==> Decimal(n) == "0")
    decreases n
  {
    if n >= 10 {
      DecimalStart(n / 10);
    }
  }

  lemma NumberIsRead(n: nat, rest: string)
    requires rest != [] && !IsDigit(rest[0])
    ensures ReadNumber(Decimal(n) + rest) == Some(Read(n, rest))
  {
    DecimalStart(n);
    DigitsAreRead(n, rest);
    var j := Decimal(n) + rest;
    hide Decimal;
    assert j[0] == Decimal(n)[0];
    assert n == 0 ==> j[1..] == rest;
    assert ReadDigits(rest, n) == Read(n, rest);
    assert ReadDigits(j, 0) == ReadDigits(j[1..], j[0] as int - '0' as int);
  }

  function Rendered(v: Value): string { if v.Text? then Quoted(v.text) else Decimal(v.number) }

  lemma ValueIsRead(v: Value, rest: string)
    requires rest != [] && !IsDigit(rest[0])
    ensures ReadValue(Rendered(v) + rest) == Some(Read(v, rest))
  {
    if v.Text? {
      StringIsRead(v.text, rest);
      hide EscapedAll;
      assert (Quoted(v.text) + rest)[0] == '"';
    } else {
      NumberIsRead(v.number, rest);
      DecimalStart(v.number);
      hide Decimal;
      assert (Decimal(v.number) + rest)[0] == Decimal(v.number)[0];
    }
  }

  function Shown(m: Member): string { Quoted(m.key) + (":" + Rendered(m.value)) }

  lemma ReadParts(j: string, key: string, v: Value, middle: string, rest: string)
    requires ReadString(j) == Some(Read(key, ":" + middle)) && ReadValue(middle) == Some(Read(v, rest))
    ensures ReadMember(j) == Some(Read(Member(key, v), rest))
  {}

  lemma MemberIsRead(m: Member, rest: string)
    requires rest != [] && !IsDigit(rest[0])
    ensures ReadMember(Shown(m) + rest) == Some(Read(m, rest))
  {
    var middle := Rendered(m.value) + rest;
    StringIsRead(m.key, ":" + middle);
    ValueIsRead(m.value, rest);
    hide Quoted, Rendered, ReadString, ReadValue, ReadMember;
    assert Shown(m) + rest == Quoted(m.key) + (":" + middle);
    ReadParts(Shown(m) + rest, m.key, m.value, middle, rest);
  }

  lemma LastMember(m: Member)
    ensures ReadMembers(Shown(m) + "}") == Some([m])
  {
    MemberIsRead(m, "}");
    hide Shown, ReadMember;
  }

  lemma NextMember(m: Member, rest: string, more: seq<Member>)
    requires ReadMembers(rest) == Some(more)
    ensures ReadMembers(Shown(m) + ("," + rest)) == Some([m] + more)
  {
    MemberIsRead(m, "," + rest);
    hide Shown, ReadMember;
    assert ("," + rest)[1..] == rest;
  }

  lemma PlainKey(key: string)
    requires key == "name" || key == "type" || key == "size"
    ensures Quoted(key) == "\"" + key + "\""
  {
    assert EscapedAll(key[4..]) == [];
    assert key[3..][1..] == key[4..] && EscapedAll(key[3..]) == [key[3]];
    assert key[2..][1..] == key[3..] && EscapedAll(key[2..]) == [key[2], key[3]];
    assert key[1..][1..] == key[2..] && EscapedAll(key[1..]) == [key[1], key[2], key[3]];
    assert EscapedAll(key) == [key[0], key[1], key[2], key[3]] == key;
  }

  function Members(m: Metadata): seq<Member>
    requires m.size >= 0
  {
    [Member("name", Text(m.name)), Member("type", Text(m.kind)), Member("size", Number(m.size))]
  }

  lemma Regrouped(a: string, p: string, n: string, c: string, q: string, t: string, r: string, d: string, e: string)
    ensures (a + p) + n + (c + q) + t + (c + r) + d + e == a + ((p + n) + (c + ((q + t) + (c + ((r + d) + e)))))
  {}

  function KeyText(key: string): string { Quoted(key) + ":" }

  lemma NameIsNamed()
    ensures BeforeName() == "{" + KeyText("name")
  {
    PlainKey("name");
    hide Quoted;
  }

  lemma TypeIsNamed()
    ensures BeforeType() == "," + KeyText("type")
  {}

  lemma SizeIsNamed()
    ensures BeforeSize() == "," + KeyText("size")
  {
    PlainKey("size");
    hide Quoted;
  }

  lemma ShownIs(m: Member)
    ensures Shown(m) == KeyText(m.key) + Rendered(m.value)
  {}

  lemma JsonShape(m: Metadata)
    requires m.size >= 0
    ensures var ms := Members(m);
            Json(m) == "{" + (Shown(ms[0]) + ("," + (Shown(ms[1]) + ("," + (Shown(ms[2]) + "}")))))
  {
    var ms := Members(m);
    NameIsNamed();
    TypeIsNamed();
    SizeIsNamed();
    ShownIs(ms[0]);
    ShownIs(ms[1]);
    ShownIs(ms[2]);
    hide BeforeName, BeforeType, BeforeSize, KeyText, Shown, Quoted, Decimal;
    Regrouped("{", KeyText("name"), Quoted(m.name), ",", KeyText("type"), Quoted(m.kind),
              KeyText("size"), Decimal(m.size), "}");
  }

  lemma FindsMembers(m: Metadata)
    requires m.size >= 0
    ensures var ms := Members(m);
            && Find(ms, "name") == Some(Text(m.name)) && Find(ms, "type") == Some(Text(m.kind))
            && Find(ms, "size") == Some(Number(m.size))
  {
    var ms := Members(m);
    assert ms[1..][0] == ms[1] && ms[1..][1..] == ms[2..];
    assert Find(ms[2..], "size") == Some(Number(m.size));
    assert Find(ms[1..], "size") == Some(Number(m.size));
    assert "name" != "type" && "name" != "size" && "type" != "size";
  }

  lemma MembersAreRead(m: Metadata)
    requires m.size >= 0
    ensures Json(m) != [] && Json(m)[0] == '{' && ReadMembers(Json(m)[1..]) == Some(Members(m))
  {
    JsonShape(m);
    var ms := Members(m);
    hide Json, Shown, ReadMembers, Members;
    LastMember(ms[2]);
    NextMember(ms[1], Shown(ms[2]) + "}", [ms[2]]);
    var second := Shown(ms[1]) + ("," + (Shown(ms[2]) + "}"));
    NextMember(ms[0], second, [ms[1]] + [ms[2]]);
    assert [ms[0]] + ([ms[1]] + [ms[2]]) == ms;
    assert Json(m)[1..] == Shown(ms[0]) + ("," + second);
  }

  /** Reading what was written gives back the metadata. */
  lemma JsonIsRead(m: Metadata)
    requires InRange(m.size)
    ensures ReadMetadata(Json(m)) == Some(m)
  {
    MembersAreRead(m);
    FindsMembers(m);
    hide Json, ReadMembers, Find;
  }

  // ----- padding

  function Zeros(n: nat): Bytes { seq(n, i => 0) }

  /** A marker and zeros, up to a whole number of blocks. */
  function Padded(p: Bytes, total: nat): Bytes
    requires total > |p|
  {
    p + [0x80] + Zeros(total - |p| - 1)
  }

  function GoTotal(n: nat): nat { (n + 1 + PAD_BLOCK - 1) / PAD_BLOCK * PAD_BLOCK }

  function WebTotal(n: nat): int { Ceil((n + 1) as real / PAD_BLOCK as real) * PAD_BLOCK }

  /** The least multiple of the block above the length, in both clients. */
  lemma TotalIsLeast(n: nat)
    ensures GoTotal(n) % PAD_BLOCK == 0 && n < GoTotal(n) <= n + PAD_BLOCK
    ensures forall t: nat :: t > n && t % PAD_BLOCK == 0 ==> GoTotal(n) <= t
    ensures WebTotal(n) == GoTotal(n)
  {}

  method Pad(p: Bytes) returns (padded: array<byte>)
    ensures fresh(padded) && padded[..] == Padded(p, GoTotal(|p|))
  {
    TotalIsLeast(|p|);
    var total := (|p| + 1 + PAD_BLOCK - 1) / PAD_BLOCK * PAD_BLOCK;
    padded := new byte[total](_ => 0);
    forall i | 0 <= i < |p| {
      padded[i] := p[i];
    }
    padded[|p|] := 0x80;
    assert padded[..] == Padded(p, total);
  }

  /** Takes off the zeros from the end, then the marker. */
  method Unpad(padded: array<byte>) returns (p: Option<Bytes>)
    ensures p.Some? ==>
              && padded.Length % PAD_BLOCK == 0 && |p.value| < padded.Length
              && padded[..] == Padded(p.value, padded.Length)
    ensures p.None? && padded.Length % PAD_BLOCK == 0 ==>
              forall q: Bytes :: |q| < padded.Length ==> padded[..] != Padded(q, padded.Length)
  {
    if padded.Length == 0 || padded.Length % PAD_BLOCK != 0 {
      return None;
    }
    var i := padded.Length - 1;
    while i >= 0 && padded[i] == 0
      invariant -1 <= i < padded.Length && forall k :: i < k < padded.Length ==> padded[k] == 0
    {
      i := i - 1;
    }
    if i < 0 || padded[i] != 0x80 {
      NotPadded(padded[..], i);
      return None;
    }
    p := Some(padded[..i]);
    assert padded[..] == Padded(padded[..i], padded.Length);
  }

  lemma NotPadded(b: Bytes, i: int)
    requires -1 <= i < |b| && (forall k :: i < k < |b| ==> b[k] == 0) && (i >= 0 ==> b[i] != 0 && b[i] != 0x80)
    ensures forall q: Bytes :: |q| < |b| ==> b != Padded(q, |b|)
  {
    forall q: Bytes | |q| < |b| ensures b != Padded(q, |b|) {
      var e := Padded(q, |b|);
      assert e[|q|] == 0x80;
      assert i > |q| ==> e[i] == 0;
    }
  }

  /** The padding of a text can be taken off in one way only. */
  lemma PaddedInjective(p: Bytes, q: Bytes, total: nat)
    requires |p| < total && |q| < total && Padded(p, total) == Padded(q, total)
    ensures p == q
  {
    var e := Padded(p, total);
    assert e[|p|] == 0x80 && (forall k :: |p| < k < total ==> e[k] == 0);
    var f := Padded(q, total);
    assert f[|q|] == 0x80 && (forall k :: |q| < k < total ==> f[k] == 0);
    assert |p| == |q|;
    assert p == e[..|p|] && q == f[..|q|];
  }

  // ----- the two encoders

  /** The octets from i on are the characters from n on. */
  predicate Aligned(s: Bytes, i: nat, t: string, n: nat) {
    i <= |s| && n <= |t| && FromUtf8(s[i..]) == Some(t[n..])
  }

  lemma GoStep(s: Bytes, i: nat, t: string, n: nat)
    requires Aligned(s, i, t, n) && i < |s|
    ensures n < |t| && FirstChar(s[i..]) == Some(t[n]) && Aligned(s, i + |Utf8(t[n])|, t, n + 1)
  {
    var r := FirstChar(s[i..]).value;
    hide Utf8, FirstChar;
    assert t[n..][0] == r && t[n..][1..] == t[n + 1..];
    assert s[i..][|Utf8(r)|..] == s[i + |Utf8(r)|..];
  }

  function GoSoFar(t: string, n: nat): Bytes
    requires n <= |t|
  {
    ['"' as int] + Utf8All(EscapedAll(t[..n]))
  }

  lemma GoAppend(t: string, n: nat)
    requires n < |t|
    ensures GoSoFar(t, n + 1) == GoSoFar(t, n) + Utf8All(Escaped(t[n]))
  {
    EscapedNext(t, n);
    Utf8AllConcat(EscapedAll(t[..n]), Escaped(t[n]));
  }

  lemma GoStart(s: Bytes)
    requires FromUtf8(s).Some?
    ensures var t := FromUtf8(s).value; Aligned(s, 0, t, 0) && GoSoFar(t, 0) == ['"' as int]
  {}

  lemma GoEnd(s: Bytes, t: string, n: nat)
    requires Aligned(s, |s|, t, n)
    ensures n == |t| && Utf8All(Quoted(t)) == GoSoFar(t, n) + ['"' as int]
  {
    QuotedUtf8(t);
    assert t[n..] == [] && t[..n] == t;
    hide Quoted, Utf8All, EscapedAll;
  }

  /** The Go encoder's string: characters are decoded from UTF-8 and appended to a builder. */
  method EncodeStringGo(s: Bytes) returns (out: Bytes)
    requires FromUtf8(s).Some?
    ensures out == Utf8All(Quoted(FromUtf8(s).value))
  {
    hide Utf8, FirstChar, FromUtf8, Aligned, GoSoFar, Utf8All, Escaped, Quoted;
    ghost var t := FromUtf8(s).value;
    GoStart(s);
    out := ['"' as int];
    var i := 0;
    ghost var n := 0;
    while i < |s|
      invariant i <= |s| && n <= |t| && Aligned(s, i, t, n) && out == GoSoFar(t, n)
      decreases |s| - i
    {
      GoStep(s, i, t, n);
      GoAppend(t, n);
      AlignedWithin(s, i + |Utf8(t[n])|, t, n + 1);
      var r := FirstChar(s[i..]).value;
      var e := EscapeGo(r);
      out := out + e;
      i := i + |Utf8(r)|;
      n := n + 1;
    }
    GoEnd(s, t, n);
    out := out + ['"' as int];
  }

  lemma AlignedWithin(s: Bytes, i: nat, t: string, n: nat)
    requires Aligned(s, i, t, n)
    ensures i <= |s| && n <= |t|
  {}

  /** The characters with an escape of their own. */
  function ShortEscape(c: char): Option<char> {
    if c == '"' then Some('"')
    else if c == '\\' then Some('\\')
    else if c as int == 8 then Some('b')
    else if c as int == 12 then Some('f')
    else if c == '\n' then Some('n')
    else if c == '\r' then Some('r')
    else if c == '\t' then Some('t')
    else None
  }

  lemma EscapedBy(c: char)
    ensures ShortEscape(c).Some? ==> Escaped(c) == ['\\', ShortEscape(c).value]
    ensures ShortEscape(c).None? && c as int < 0x20 ==>
                Escaped(c) == ['\\', 'u', '0', '0', HexDigit(c as int / 16), HexDigit(c as int % 16)]
    ensures ShortEscape(c).None? && c as int >= 0x20 ==> Escaped(c) == [c]
  {}

  lemma HexIsAscii(n: nat)
    requires n < 16
    ensures HexDigit(n) as int < 0x80
  {}

  method EscapeGo(r: char) returns (out: Bytes)
    ensures out == Utf8All(Escaped(r))
  {
    var short := ShortEscape(r);
    EscapedBy(r);
    hide Escaped, HexDigit, Utf8;
    if short.Some? {
      assert short.value as int < 0x80;
      AsciiUtf8(['\\', short.value]);
      hide ShortEscape;
      out := ['\\' as int, short.value as int];
    } else if r as int < 0x20 {
      hide ShortEscape;
      HexIsAscii(r as int / 16);
      HexIsAscii(r as int % 16);
      AsciiUtf8(['\\', 'u', '0', '0', HexDigit(r as int / 16), HexDigit(r as int % 16)]);
      out := ['\\' as int, 'u' as int, '0' as int, '0' as int]
             + [HexDigit(r as int / 16) as int, HexDigit(r as int % 16) as int];
    } else {
      OneUtf8(r);
      out := Utf8(r);
    }
  }

  predicate Ascii(t: string) { forall i :: 0 <= i < |t| ==> t[i] as int < 0x80 }

  function Codes(t: string): Bytes
    requires Ascii(t)
  {
    seq(|t|, i requires 0 <= i < |t| => t[i] as int)
  }

  lemma {:induction false} AsciiUtf8(t: string)
    requires Ascii(t)
    ensures Utf8All(t) == Codes(t)
  {
    if t != [] {
      AsciiUtf8(t[1..]);
      assert Codes(t) == [t[0] as int] + Codes(t[1..]);
    }
  }

  lemma OneUtf8(c: char)
    ensures Utf8All([c]) == Utf8(c)
  {}

  lemma {:induction false} EscapedConcat(s: string, t: string)
    ensures EscapedAll(s + t) == EscapedAll(s) + EscapedAll(t)
  {
    hide Escaped;
    if s == [] {
      assert s + t == t;
    } else {
      EscapedConcat(s[1..], t);
      assert (s + t)[0] == s[0] && (s + t)[1..] == s[1..] + t;
      assert EscapedAll(s + t) == Escaped(s[0]) + EscapedAll(s[1..] + t);
      Regroup(Escaped(s[0]), EscapedAll(s[1..]), EscapedAll(t));
    }
  }

  lemma EscapedNext(t: string, n: nat)
    requires n < |t|
    ensures EscapedAll(t[..n + 1]) == EscapedAll(t[..n]) + Escaped(t[n])
  {
    assert t[..n + 1] == t[..n] + [t[n]];
    EscapedConcat(t[..n], [t[n]]);
    assert [t[n]][1..] == [];
    hide Escaped;
  }

  lemma QuotedUtf8(t: string)
    ensures Utf8All(Quoted(t)) == ['"' as int] + Utf8All(EscapedAll(t)) + ['"' as int]
  {
    hide EscapedAll;
    AsciiUtf8(['"']);
    Utf8AllConcat(['"'] + EscapedAll(t), ['"']);
    Utf8AllConcat(['"'], EscapedAll(t));
  }

  // ----- the browser's encoder

  function ToHex(n: nat): string {
    if n < 16 then [HexDigit(n)] else ToHex(n / 16) + [HexDigit(n % 16)]
  }

  function PadStart(t: string, width: nat): string {
    if |t| >= width then t else seq(width - |t|, i => '0') + t
  }

  lemma HexOfControl(n: nat)
    requires n < 0x20
    ensures PadStart(ToHex(n), 4) == ['0', '0', HexDigit(n / 16), HexDigit(n % 16)]
  {}

  lemma OneUtf16(c: char)
    ensures Utf16All([c]) == Utf16(c)
  {}

  method EscapeWeb(r: char) returns (out: seq<Unit>)
    ensures out == Utf16All(Escaped(r))
  {
    var short := ShortEscape(r);
    EscapedBy(r);
    hide Escaped, HexDigit, Utf16, ShortEscape;
    if short.Some? {
      out := Utf16All(['\\', short.value]);
    } else if r as int < 0x20 {
      HexOfControl(r as int);
      hide ToHex, PadStart;
      assert ['\\', 'u'] + PadStart(ToHex(r as int), 4)
          == ['\\', 'u', '0', '0', HexDigit(r as int / 16), HexDigit(r as int % 16)];
      out := Utf16All(['\\', 'u'] + PadStart(ToHex(r as int), 4));
    } else {
      OneUtf16(r);
      out := Utf16(r);
    }
  }

  /** The code units from i on are the characters from n on. */
  predicate AlignedUnits(s: seq<Unit>, i: nat, t: string, n: nat) {
    i <= |s| && n <= |t| && FromUtf16(s[i..]) == Some(t[n..])
  }

  lemma WebStep(s: seq<Unit>, i: nat, t: string, n: nat)
    requires AlignedUnits(s, i, t, n) && i < |s|
    ensures n < |t| && FirstPoint(s[i..]) == Some(t[n]) && AlignedUnits(s, i + |Utf16(t[n])|, t, n + 1)
    ensures i + |Utf16(t[n])| <= |s|
  {
    var r := FirstPoint(s[i..]).value;
    hide Utf16, FirstPoint;
    assert t[n..][0] == r && t[n..][1..] == t[n + 1..];
    assert s[i..][|Utf16(r)|..] == s[i + |Utf16(r)|..];
  }

  function WebSoFar(t: string, n: nat): seq<Unit>
    requires n <= |t|
  {
    Utf16All(['"'] + EscapedAll(t[..n]))
  }

  lemma WebAppend(t: string, n: nat)
    requires n < |t|
    ensures WebSoFar(t, n + 1) == WebSoFar(t, n) + Utf16All(Escaped(t[n]))
  {
    EscapedNext(t, n);
    hide EscapedAll, Escaped;
    assert ['"'] + EscapedAll(t[..n + 1]) == (['"'] + EscapedAll(t[..n])) + Escaped(t[n]);
    Utf16AllConcat(['"'] + EscapedAll(t[..n]), Escaped(t[n]));
  }

  lemma WebStart(s: seq<Unit>)
    requires FromUtf16(s).Some?
    ensures var t := FromUtf16(s).value; AlignedUnits(s, 0, t, 0) && WebSoFar(t, 0) == Utf16All(['"'])
  {}

  lemma WebEnd(s: seq<Unit>, t: string, n: nat)
    requires AlignedUnits(s, |s|, t, n)
    ensures n == |t| && Utf16All(Quoted(t)) == WebSoFar(t, n) + Utf16All(['"'])
  {
    assert t[n..] == [] && t[..n] == t;
    hide EscapedAll;
    Utf16AllConcat(['"'] + EscapedAll(t), ['"']);
  }

  /** The browser's string: code points of a UTF-16 string, appended to another. */
  method EncodeStringWeb(s: seq<Unit>) returns (out: seq<Unit>)
    requires FromUtf16(s).Some?
    ensures out == Utf16All(Quoted(FromUtf16(s).value))
  {
    hide Utf16, FirstPoint, FromUtf16, AlignedUnits, WebSoFar, Utf16All, Escaped, Quoted;
    ghost var t := FromUtf16(s).value;
    WebStart(s);
    out := Utf16All(['"']);
    var i := 0;
    ghost var n := 0;
    while i < |s|
      invariant i <= |s| && n <= |t| && AlignedUnits(s, i, t, n) && out == WebSoFar(t, n)
      decreases |s| - i
    {
      WebStep(s, i, t, n);
      WebAppend(t, n);
      var r := FirstPoint(s[i..]).value;
      var e := EscapeWeb(r);
      out := out + e;
      i := i + |Utf16(r)|;
      n := n + 1;
    }
    WebEnd(s, t, n);
    out := out + Utf16All(['"']);
  }

  // ----- whole metadata

  lemma JsonUtf8(m: Metadata)
    requires m.size >= 0
    ensures Utf8All(Json(m))
         == Utf8All(BeforeName()) + Utf8All(Quoted(m.name)) + Utf8All(BeforeType()) + Utf8All(Quoted(m.kind))
            + Utf8All(BeforeSize()) + Utf8All(Decimal(m.size)) + Utf8All("}")
  {
    hide Utf8All, Quoted, Decimal, BeforeName, BeforeType, BeforeSize;
    var a := BeforeName() + Quoted(m.name);
    var b := a + BeforeType();
    var c := b + Quoted(m.kind);
    var d := c + BeforeSize();
    var e := d + Decimal(m.size);
    Utf8AllConcat(BeforeName(), Quoted(m.name));
    Utf8AllConcat(a, BeforeType());
    Utf8AllConcat(b, Quoted(m.kind));
    Utf8AllConcat(c, BeforeSize());
    Utf8AllConcat(d, Decimal(m.size));
    Utf8AllConcat(e, "}");
  }

  lemma JsonUtf16(m: Metadata)
    requires m.size >= 0
    ensures Utf16All(Json(m))
         == Utf16All(BeforeName()) + Utf16All(Quoted(m.name)) + Utf16All(BeforeType()) + Utf16All(Quoted(m.kind))
            + Utf16All(BeforeSize()) + Utf16All(Decimal(m.size)) + Utf16All("}")
  {
    hide Utf16All, Quoted, Decimal, BeforeName, BeforeType, BeforeSize;
    var a := BeforeName() + Quoted(m.name);
    var b := a + BeforeType();
    var c := b + Quoted(m.kind);
    var d := c + BeforeSize();
    var e := d + Decimal(m.size);
    Utf16AllConcat(BeforeName(), Quoted(m.name));
    Utf16AllConcat(a, BeforeType());
    Utf16AllConcat(b, Quoted(m.kind));
    Utf16AllConcat(c, BeforeSize());
    Utf16AllConcat(d, Decimal(m.size));
    Utf16AllConcat(e, "}");
  }

  /** The Go encoder takes UTF-8 and refuses what is not. */
  method EncodeGo(name: Bytes, kind: Bytes, size: int) returns (r: Option<Bytes>)
    ensures r.Some? <==> FromUtf8(name).Some? && FromUtf8(kind).Some? && InRange(size)
    ensures r.Some? ==> r.value == Utf8All(Json(Metadata(FromUtf8(name).value, FromUtf8(kind).value, size)))
  {
    if FromUtf8(name).None? || FromUtf8(kind).None? {
      return None;
    }
    if size < 0 || size > MAX_SIZE {
      return None;
    }
    hide Utf8All, FromUtf8, Json, Quoted, Decimal, BeforeName, BeforeType, BeforeSize;
    JsonUtf8(Metadata(FromUtf8(name).value, FromUtf8(kind).value, size));
    var n := EncodeStringGo(name);
    var t := EncodeStringGo(kind);
    r := Some(Utf8All(BeforeName()) + n + Utf8All(BeforeType()) + t + Utf8All(BeforeSize())
              + Utf8All(Decimal(size)) + Utf8All("}"));
  }

  /** The browser takes UTF-16, refuses unpaired surrogates, and encodes the finished text as UTF-8. */
  method EncodeWeb(name: seq<Unit>, kind: seq<Unit>, size: int) returns (r: Option<Bytes>)
    ensures r.Some? <==> FromUtf16(name).Some? && FromUtf16(kind).Some? && InRange(size)
    ensures r.Some? ==> r.value == Utf8All(Json(Metadata(FromUtf16(name).value, FromUtf16(kind).value, size)))
  {
    var ok := IsWellFormed(name);
    if ok {
      ok := IsWellFormed(kind);
    }
    if !ok || size < 0 || size > MAX_SIZE {
      return None;
    }
    hide Utf8All, Utf16All, FromUtf16, Json, Quoted, Decimal, BeforeName, BeforeType, BeforeSize;
    ghost var m := Metadata(FromUtf16(name).value, FromUtf16(kind).value, size);
    JsonUtf16(m);
    FromUtf16Encoded(Json(m));
    var n := EncodeStringWeb(name);
    var t := EncodeStringWeb(kind);
    var json := Utf16All(BeforeName()) + n + Utf16All(BeforeType()) + t + Utf16All(BeforeSize())
        + Utf16All(Decimal(size)) + Utf16All("}");
    r := Some(Utf8All(FromUtf16(json).value));
  }

  /** For every name, type and size the two encoders agree, on refusing as on the octets. */
  method EncodersAgree(m: Metadata) returns (go: Option<Bytes>, web: Option<Bytes>)
    ensures go == web && (go.Some? <==> InRange(m.size)) && (go.Some? ==> go.value == Utf8All(Json(m)))
  {
    FromUtf8Encoded(m.name);
    FromUtf8Encoded(m.kind);
    FromUtf16Encoded(m.name);
    FromUtf16Encoded(m.kind);
    hide Utf8All, Utf16All, FromUtf8, FromUtf16, Json;
    go := EncodeGo(Utf8All(m.name), Utf8All(m.kind), m.size);
    web := EncodeWeb(Utf16All(m.name), Utf16All(m.kind), m.size);
  }

  /** Encoding, padding, unpadding and reading give back the metadata. */
  method RoundTrip(m: Metadata) returns (read: Option<Metadata>)
    ensures read == if InRange(m.size) then Some(m) else None
  {
    FromUtf8Encoded(m.name);
    FromUtf8Encoded(m.kind);
    hide Utf8All, FromUtf8, Json, ReadMetadata, Padded;
    var encoded := EncodeGo(Utf8All(m.name), Utf8All(m.kind), m.size);
    if encoded.None? {
      return None;
    }
    TotalIsLeast(|encoded.value|);
    var padded := Pad(encoded.value);
    PaddedLength(encoded.value, GoTotal(|encoded.value|));
    var plain := Unpad(padded);
    PaddedInjective(plain.value, encoded.value, padded.Length);
    FromUtf8Encoded(Json(m));
    JsonIsRead(m);
    var text := FromUtf8(plain.value);
    read := ReadMetadata(text.value);
  }

  lemma PaddedLength(p: Bytes, total: nat)
    requires total > |p|
    ensures |Padded(p, total)| == total
  {}
}
