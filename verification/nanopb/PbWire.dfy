/** Base 128 varints, zig-zag integers, little-endian words and field tags: the wire
    level of the protobuf encoding, as functions over byte sequences.

    A parser takes the bytes a stream may still read and gives either a value with the
    bytes it left, or the bytes left at the moment it gave up (the decoder looks at
    them to tell a clean end of message from a malformed one). */
module PbWire {

  type Byte = x: int | 0 <= x < 256

  const TWO32: int := 0x1_0000_0000
  const TWO64: int := 0x1_0000_0000_0000_0000

  datatype Option<+T> = None | Some(value: T)

  datatype Parsed<+T> = Ok(value: T, rest: seq<Byte>) | Err(left: seq<Byte>)

  // ---------------------------------------------------------------- remainders

  lemma {:induction false} MultipleMod(v: int, q: int, m: int)
    requires m > 0
    ensures (v - q * m) % m == v % m
  {
    var a, r := v / m, v % m;
    assert v - q * m == (a - q) * m + r;
    RemainderUnique(v - q * m, a - q, r, m);
  }

  lemma {:induction false} RemainderUnique(x: int, a: int, r: int, m: int)
    requires m > 0 && x == a * m + r && 0 <= r < m
    ensures x % m == r
  {
    var b, s := x / m, x % m;
    assert x == b * m + s;
    assert (a - b) * m == a * m - b * m;
    MultipleBound(a - b, m);
  }

  lemma {:induction false} MultipleBound(k: int, m: int)
    requires m > 0
    ensures k > 0 ==> k * m >= m
    ensures k < 0 ==> k * m <= -m
  {
    if k > 0 {
      assert (k - 1) * m >= 0;
    } else if k < 0 {
      assert (-k - 1) * m >= 0;
    }
  }

  lemma {:induction false} MulMod(x: nat, p: nat, c: nat)
    requires p > 0 && c > 0
    ensures p * c > 0 && x * p % (p * c) == x % c * p && x % c * p % p == 0 && x % c * p + p <= p * c
  {
    var q, r := x / c, x % c;
    assert x == q * c + r;
    ScaledBound(r, p, c);
    Distribute(q, c, r, p);
    RemainderUnique(x * p, q, r * p, p * c);
    RemainderUnique(r * p, r, 0, p);
  }

  lemma {:induction false} NonNegative(a: nat, b: nat)
    ensures a * b >= 0
    decreases b
  {
    if b > 0 {
      NonNegative(a, b - 1);
      assert a * b == a * (b - 1) + a;
    }
  }

  lemma {:induction false} ScaledBound(r: nat, p: nat, c: nat)
    requires r < c && p > 0
    ensures 0 <= r * p && r * p + p <= p * c && p * c > 0
    decreases r
  {
    if r == 0 {
      assert r * p == 0 && p * c == p + p * (c - 1);
      NonNegative(p, c - 1);
    } else {
      ScaledBound(r - 1, p, c - 1);
      assert r * p == (r - 1) * p + p;
      assert p * c == p * (c - 1) + p;
    }
  }

  lemma {:induction false} Distribute(q: int, c: int, r: int, p: int)
    ensures (q * c + r) * p == q * (p * c) + r * p
  {
    assert (q * c + r) * p == q * c * p + r * p;
    assert q * c * p == q * (c * p);
  }

  // ---------------------------------------------------------------- varints

  /** The bytes pb_encode_varint writes: seven bits a byte, least significant first,
      the top bit set on every byte but the last. */
  function EncodeVarint(v: nat): (bs: seq<Byte>)
    ensures |bs| >= 1
  {
    if v < 128 then [v] else [v % 128 + 128] + EncodeVarint(v / 128)
  }

  /** The number a run of bytes denotes in base 128, continuation bits dropped. */
  function Limbs(bs: seq<Byte>): nat
  {
    if bs == [] then 0 else bs[0] % 128 + 128 * Limbs(bs[1..])
  }

  /** How many leading bytes carry the continuation bit. */
  function Continued(bs: seq<Byte>): (n: nat)
    ensures n <= |bs|
    ensures forall i :: 0 <= i < n ==> bs[i] >= 128
    ensures n < |bs| ==> bs[n] < 128
  {
    if bs == [] || bs[0] < 128 then 0 else 1 + Continued(bs[1..])
  }

  /** A varint of at most `limit` bytes, reduced modulo `modulus`. */
  function ParseVarint(input: seq<Byte>, limit: nat, modulus: int): (r: Parsed<nat>)
    requires modulus > 0
    ensures r.Ok? ==> |r.rest| < |input| && r.value < modulus
    ensures r.Err? ==> |r.left| <= |input|
  {
    var n := Continued(input);
    if n < limit && n < |input| then Ok(Limbs(input[..n + 1]) % modulus, input[n + 1..])
    else if n < limit then Err([])
    else Err(input[limit..])
  }

  function ParseVarint64(input: seq<Byte>): (r: Parsed<nat>)
    ensures r.Ok? ==> |r.rest| < |input| && r.value < TWO64
  {
    ParseVarint(input, 10, TWO64)
  }

  function ParseVarint32(input: seq<Byte>): (r: Parsed<nat>)
    ensures r.Ok? ==> |r.rest| < |input| && r.value < TWO32
    ensures r.Err? ==> |r.left| <= |input|
  {
    ParseVarint(input, 5, TWO32)
  }

  lemma {:induction false} VarintLimbs(v: nat)
    ensures Limbs(EncodeVarint(v)) == v
  {
    var e := EncodeVarint(v);
    if v < 128 {
      assert e[1..] == [];
    } else {
      VarintLimbs(v / 128);
      assert e[1..] == EncodeVarint(v / 128);
    }
  }

  lemma {:induction false} VarintContinued(v: nat, more: seq<Byte>)
    ensures Continued(EncodeVarint(v) + more) == |EncodeVarint(v)| - 1
  {
    var e := EncodeVarint(v);
    if v >= 128 {
      VarintContinued(v / 128, more);
      assert (e + more)[1..] == EncodeVarint(v / 128) + more;
      assert (e + more)[0] >= 128;
    }
  }

  /** Whatever pb_encode_varint writes is one run of continued bytes and a last byte,
      and denotes the number it was given. */
  lemma {:induction false} VarintShape(v: nat, more: seq<Byte>)
    ensures Continued(EncodeVarint(v) + more) == |EncodeVarint(v)| - 1
    ensures Limbs(EncodeVarint(v)) == v
  {
    hide Limbs, Continued, EncodeVarint;
    VarintLimbs(v);
    VarintContinued(v, more);
  }

  /** An upper bound on the bytes a varint takes. */
  lemma {:induction false} VarintLength(v: nat, n: nat)
    requires v < Pow128(n) && n > 0
    ensures |EncodeVarint(v)| <= n
  {
    Pow128Values();
    if v >= 128 {
      assert Pow128(n) == 128 * Pow128(n - 1);
      VarintLength(v / 128, n - 1);
    }
  }

  function Pow128(n: nat): (p: nat)
    ensures p > 0
  {
    if n == 0 then 1 else 128 * Pow128(n - 1)
  }

  lemma {:induction false} Pow128Values()
    ensures Pow128(0) == 1 && Pow128(1) == 0x80 && Pow128(2) == 0x4000
    ensures Pow128(3) == 0x20_0000 && Pow128(4) == 0x1000_0000 && Pow128(5) == 0x8_0000_0000
    ensures Pow128(6) == 0x400_0000_0000 && Pow128(7) == 0x2_0000_0000_0000
    ensures Pow128(8) == 0x100_0000_0000_0000 && Pow128(9) == 0x8000_0000_0000_0000
    ensures Pow128(10) == 0x40_0000_0000_0000_0000
  {
    assert Pow128(1) == 0x80;
    assert Pow128(2) == 0x4000;
    assert Pow128(3) == 0x20_0000;
    assert Pow128(4) == 0x1000_0000;
    assert Pow128(5) == 0x8_0000_0000;
    assert Pow128(6) == 0x400_0000_0000;
    assert Pow128(7) == 0x2_0000_0000_0000;
    assert Pow128(8) == 0x100_0000_0000_0000;
    assert Pow128(9) == 0x8000_0000_0000_0000;
  }

  /** pb_decode_varint undoes pb_encode_varint on every 64-bit value, leaving whatever follows. */
  lemma {:induction false} VarintRoundTrip(v: nat, more: seq<Byte>)
    requires v < TWO64
    ensures ParseVarint64(EncodeVarint(v) + more) == Ok(v, more)
  {
    hide Limbs, Continued, EncodeVarint, Pow128;
    var e := EncodeVarint(v);
    VarintShape(v, more);
    Pow128Values();
    VarintLength(v, 10);
    assert (e + more)[..|e|] == e;
    assert (e + more)[|e|..] == more;
  }

  /** So does the 32-bit decoder on every 32-bit value. */
  lemma {:induction false} Varint32RoundTrip(v: nat, more: seq<Byte>)
    requires v < TWO32
    ensures ParseVarint32(EncodeVarint(v) + more) == Ok(v, more)
  {
    hide Limbs, Continued, EncodeVarint, Pow128;
    var e := EncodeVarint(v);
    VarintShape(v, more);
    Pow128Values();
    VarintLength(v, 5);
    assert (e + more)[..|e|] == e;
    assert (e + more)[|e|..] == more;
  }

  /** On any bytes at all, when the 32-bit decoder succeeds the 64-bit one reads the same
      bytes, and the 32-bit value is the low half of the 64-bit one. */
  lemma {:induction false} Varint32IsLowHalf(input: seq<Byte>)
    requires ParseVarint32(input).Ok?
    ensures ParseVarint64(input).Ok?
    ensures ParseVarint64(input).rest == ParseVarint32(input).rest
    ensures ParseVarint32(input).value == ParseVarint64(input).value % TWO32
  {
    var x := Limbs(input[..Continued(input) + 1]);
    ModOfMod(x);
  }

  lemma {:induction false} ModOfMod(x: nat)
    ensures x % TWO64 % TWO32 == x % TWO32
  {
    var q := x / TWO64;
    assert x == TWO32 * (TWO32 * q) + x % TWO64;
    ModAdd(TWO32 * q, x % TWO64);
  }

  lemma {:induction false} ModAdd(k: int, x: int)
    ensures (TWO32 * k + x) % TWO32 == x % TWO32
  {
    var q, r := x / TWO32, x % TWO32;
    assert TWO32 * k + x == TWO32 * (k + q) + r;
  }

  /** A parse that succeeded is not disturbed by more bytes behind its input. */
  lemma {:induction false} ContinuedAppend(a: seq<Byte>, b: seq<Byte>)
    requires Continued(a) < |a|
    ensures Continued(a + b) == Continued(a)
  {
    if a[0] >= 128 {
      ContinuedAppend(a[1..], b);
      assert (a + b)[1..] == a[1..] + b;
    }
  }

  lemma {:induction false} VarintAppend(a: seq<Byte>, b: seq<Byte>, limit: nat, modulus: int)
    requires modulus > 0 && ParseVarint(a, limit, modulus).Ok?
    ensures var r := ParseVarint(a, limit, modulus);
            ParseVarint(a + b, limit, modulus) == Ok(r.value, r.rest + b)
  {
    ContinuedAppend(a, b);
    var n := Continued(a);
    assert (a + b)[..n + 1] == a[..n + 1];
    assert (a + b)[n + 1..] == a[n + 1..] + b;
  }

  // ---------------------------------------------------------------- fixed-width casts

  /** The unsigned 64-bit pattern of an integer. */
  function U64(v: int): (u: nat)
    ensures u < TWO64
  {
    v % TWO64
  }

  /** The value of a bit pattern read as a signed integer of `bytes` bytes. */
  function Signed(bytes: nat, v: int): int
  {
    var m := Modulus(bytes);
    var u := v % m;
    if u < m / 2 then u else u - m
  }

  function Unsigned(bytes: nat, v: int): int
  {
    v % Modulus(bytes)
  }

  function Modulus(bytes: nat): (m: int)
    ensures m >= 0x100
  {
    if bytes == 1 then 0x100 else if bytes == 2 then 0x1_0000 else if bytes == 4 then TWO32 else TWO64
  }

  predicate InSigned(bytes: nat, v: int) { -(Modulus(bytes) / 2) <= v < Modulus(bytes) / 2 }

  predicate InUnsigned(bytes: nat, v: int) { 0 <= v < Modulus(bytes) }

  /** Stored with a width and read back, every integer is in its range. */
  lemma {:induction false} WidthsFit(bytes: nat)
    requires IntSize(bytes)
    ensures forall v :: InSigned(bytes, Signed(bytes, v)) && InUnsigned(bytes, Unsigned(bytes, v))
  {
    forall v ensures InSigned(bytes, Signed(bytes, v)) && InUnsigned(bytes, Unsigned(bytes, v)) {
      WidthFits(bytes, v);
    }
  }

  lemma {:induction false} WidthFits(bytes: nat, v: int)
    requires IntSize(bytes)
    ensures InSigned(bytes, Signed(bytes, v)) && InUnsigned(bytes, Unsigned(bytes, v))
  {
  }

  predicate IntSize(bytes: nat) { bytes == 1 || bytes == 2 || bytes == 4 || bytes == 8 }

  // ---------------------------------------------------------------- zig-zag

  /** `~x` on 64 bits. */
  function Not64(x: nat): nat
    requires x < TWO64
  {
    TWO64 - 1 - x
  }

  /** `x << 1` on 64 bits. */
  function Shl64(x: nat): (y: nat)
    ensures y < TWO64
  {
    2 * x % TWO64
  }

  function ZigZag(v: int): (u: nat)
    ensures u < TWO64
  {
    if v < 0 then Not64(Shl64(U64(v))) else Shl64(U64(v))
  }

  function UnZigZag(u: nat): int
    requires u < TWO64
  {
    if u % 2 == 1 then Signed(8, Not64(u / 2)) else Signed(8, u / 2)
  }

  /** Zig-zag is a bijection between the signed and the unsigned 64-bit integers that sends
      small magnitudes to small codes. */
  lemma {:induction false} ZigZagBijection(v: int, u: nat)
    requires InSigned(8, v) && u < TWO64
    ensures UnZigZag(ZigZag(v)) == v
    ensures InSigned(8, UnZigZag(u)) && ZigZag(UnZigZag(u)) == u
    ensures ZigZag(v) == if v < 0 then -2 * v - 1 else 2 * v
  {
    ZigZagValue(v);
    UnZigZagValue(ZigZag(v));
    UnZigZagValue(u);
    ZigZagValue(UnZigZag(u));
  }

  lemma {:induction false} UnZigZagValue(u: nat)
    requires u < TWO64
    ensures UnZigZag(u) == if u % 2 == 1 then -(u / 2) - 1 else u / 2
  {
    var h := u / 2;
    assert h < TWO64 / 2;
    SignedValue(h);
    SignedValue(Not64(h));
  }

  lemma {:induction false} SignedValue(u: nat)
    requires u < TWO64
    ensures Signed(8, u) == if u < TWO64 / 2 then u else u - TWO64
  {
    assert u % TWO64 == u;
  }

  lemma {:induction false} ZigZagValue(v: int)
    requires InSigned(8, v)
    ensures ZigZag(v) == if v < 0 then -2 * v - 1 else 2 * v
  {
    if v < 0 {
      assert U64(v) == v + TWO64;
      assert 2 * (v + TWO64) == TWO64 + (2 * v + TWO64);
      assert Shl64(U64(v)) == 2 * v + TWO64;
    } else {
      assert U64(v) == v;
      assert Shl64(v) == 2 * v;
    }
  }

  // ---------------------------------------------------------------- little-endian words

  /** The low `n` bytes of a bit pattern, least significant first. */
  function LittleEndian(v: nat, n: nat): (bs: seq<Byte>)
    ensures |bs| == n
  {
    if n == 0 then [] else [v % 256] + LittleEndian(v / 256, n - 1)
  }

  function FromLittleEndian(bs: seq<Byte>): nat
  {
    if bs == [] then 0 else bs[0] + 256 * FromLittleEndian(bs[1..])
  }

  function Pow256(n: nat): (p: nat)
    ensures p > 0
  {
    if n == 0 then 1 else 256 * Pow256(n - 1)
  }

  lemma {:induction false} LittleEndianRoundTrip(v: nat, n: nat)
    requires v < Pow256(n)
    ensures FromLittleEndian(LittleEndian(v, n)) == v
  {
    if n > 0 {
      LittleEndianRoundTrip(v / 256, n - 1);
      assert LittleEndian(v, n)[1..] == LittleEndian(v / 256, n - 1);
    }
  }

  lemma {:induction false} Pow256Values()
    ensures Pow256(4) == TWO32 && Pow256(8) == TWO64
  {
    assert Pow256(1) == 256 && Pow256(2) == 0x1_0000 && Pow256(3) == 0x100_0000;
    assert Pow256(4) == TWO32;
    assert Pow256(5) == 256 * TWO32 && Pow256(6) == 0x1_0000 * TWO32 && Pow256(7) == 0x100_0000 * TWO32;
  }

  /** Reading a run of bytes: pb_read into a buffer. */
  function ParseRaw(input: seq<Byte>, n: nat): (r: Parsed<seq<Byte>>)
    ensures r.Ok? ==> |r.rest| == |input| - n && |r.value| == n
    ensures r.Err? ==> r.left == input
  {
    if |input| < n then Err(input) else Ok(input[..n], input[n..])
  }

  // ---------------------------------------------------------------- tags and skipping

  const WT_VARINT: nat := 0
  const WT_64BIT: nat := 1
  const WT_STRING: nat := 2
  const WT_32BIT: nat := 5

  function EncodeTag(wiretype: nat, tag: nat): (bs: seq<Byte>)
    ensures |bs| >= 1
  {
    EncodeVarint(tag * 8 + wiretype)
  }

  datatype TagResult = Tag(wiretype: nat, tag: nat, rest: seq<Byte>) | Eof(left: seq<Byte>) | BadTag

  /** pb_decode_tag: a varint that fails with nothing left, or a zero, is the end of the message. */
  function ParseTag(input: seq<Byte>): (r: TagResult)
    ensures r.Tag? ==> |r.rest| < |input|
  {
    match ParseVarint32(input)
    case Err(left) => if left == [] then Eof([]) else BadTag
    case Ok(v, rest) => if v == 0 then Eof(rest) else Tag(v % 8, v / 8, rest)
  }

  /** Exactly what ends a message: bytes cut off inside a tag, none included, or a tag of zero. */
  lemma {:induction false} EndOfMessage(input: seq<Byte>)
    ensures var n := Continued(input);
            ParseTag(input).Eof? <==>
              (n == |input| <= 5) || (n < 5 && n < |input| && Limbs(input[..n + 1]) % TWO32 == 0)
  {
  }

  lemma {:induction false} TagRoundTrip(wiretype: nat, tag: nat, more: seq<Byte>)
    requires wiretype < 8 && 0 < tag && tag * 8 + 7 < TWO32
    ensures ParseTag(EncodeTag(wiretype, tag) + more) == Tag(wiretype, tag, more)
  {
    Varint32RoundTrip(tag * 8 + wiretype, more);
  }

  lemma {:induction false} TagAppend(a: seq<Byte>, b: seq<Byte>)
    requires ParseTag(a).Tag?
    ensures var r := ParseTag(a); ParseTag(a + b) == Tag(r.wiretype, r.tag, r.rest + b)
  {
    VarintAppend(a, b, 5, TWO32);
  }

  /** pb_skip_field: drop one payload, going by the wire type alone. */
  function Skip(wiretype: nat, input: seq<Byte>): (r: Option<seq<Byte>>)
    ensures r.Some? ==> |r.value| <= |input|
  {
    if wiretype == WT_VARINT then
      var n := Continued(input);
      if n < |input| then Some(input[n + 1..]) else None
    else if wiretype == WT_64BIT then SkipRaw(input, 8)
    else if wiretype == WT_STRING then
      match ParseVarint32(input)
      case Err(_) => None
      case Ok(n, rest) => SkipRaw(rest, n)
    else if wiretype == WT_32BIT then SkipRaw(input, 4)
    else None
  }

  function SkipRaw(input: seq<Byte>, n: nat): (r: Option<seq<Byte>>)
    ensures r.Some? ==> |r.value| <= |input|
  {
    if |input| < n then None else Some(input[n..])
  }

  lemma {:induction false} SkipAppend(wiretype: nat, a: seq<Byte>, b: seq<Byte>)
    requires Skip(wiretype, a).Some?
    ensures Skip(wiretype, a + b) == Some(Skip(wiretype, a).value + b)
  {
    hide ParseVarint, Limbs;
    if wiretype == WT_VARINT {
      ContinuedAppend(a, b);
      var n := Continued(a);
      assert (a + b)[n + 1..] == a[n + 1..] + b;
    } else if wiretype == WT_64BIT {
      SkipRawAppend(a, b, 8);
    } else if wiretype == WT_STRING {
      VarintAppend(a, b, 5, TWO32);
      SkipRawAppend(ParseVarint32(a).rest, b, ParseVarint32(a).value);
    } else {
      SkipRawAppend(a, b, 4);
    }
  }

  lemma {:induction false} SkipRawAppend(a: seq<Byte>, b: seq<Byte>, n: nat)
    requires n <= |a|
    ensures SkipRaw(a + b, n) == Some(a[n..] + b) && SkipRaw(a, n) == Some(a[n..])
  {
    assert (a + b)[n..] == a[n..] + b;
  }

  /** A length-prefixed payload: pb_make_string_substream, as the substream's bytes and
      the bytes behind it. */
  function ParseDelimited(input: seq<Byte>): (r: Parsed<seq<Byte>>)
    ensures r.Ok? ==> |r.rest| + |r.value| < |input|
  {
    match ParseVarint32(input)
    case Err(left) => Err(left)
    case Ok(n, rest) => ParseRaw(rest, n)
  }

  function EncodeDelimited(body: seq<Byte>): (bs: seq<Byte>)
    ensures |bs| > |body|
  {
    EncodeVarint(|body|) + body
  }

  lemma {:induction false} DelimitedRoundTrip(body: seq<Byte>, more: seq<Byte>)
    requires |body| < TWO32
    ensures ParseDelimited(EncodeDelimited(body) + more) == Ok(body, more)
    ensures Skip(WT_STRING, EncodeDelimited(body) + more) == Some(more)
  {
    assert EncodeDelimited(body) + more == EncodeVarint(|body|) + (body + more);
    Varint32RoundTrip(|body|, body + more);
    assert (body + more)[..|body|] == body;
    assert (body + more)[|body|..] == more;
  }

  lemma {:induction false} DelimitedAppend(a: seq<Byte>, b: seq<Byte>)
    requires ParseDelimited(a).Ok?
    ensures var r := ParseDelimited(a); ParseDelimited(a + b) == Ok(r.value, r.rest + b)
  {
    VarintAppend(a, b, 5, TWO32);
    var r := ParseVarint32(a);
    RawAppend(r.rest, b, r.value);
  }

  lemma {:induction false} RawAppend(a: seq<Byte>, b: seq<Byte>, n: nat)
    requires ParseRaw(a, n).Ok?
    ensures var r := ParseRaw(a, n); ParseRaw(a + b, n) == Ok(r.value, r.rest + b)
  {
    assert (a + b)[..n] == a[..n];
    assert (a + b)[n..] == a[n..] + b;
  }
}
