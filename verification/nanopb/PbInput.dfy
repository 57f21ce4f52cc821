/** pb_istream_t over a buffer, and the readers of pb_decode.c up to pb_skip_field. */
module PbInput {
  import opened PbWire

  function Pow2(n: nat): (p: nat)
    ensures p > 0
  {
    if n == 0 then 1 else 2 * Pow2(n - 1)
  }

  lemma {:induction false} Pow2Of7(n: nat)
    ensures Pow2(7 * n) == Pow128(n)
  {
    if n > 0 {
      Pow2Of7(n - 1);
      var k := 7 * n;
      assert Pow2(k) == 2 * Pow2(k - 1) && Pow2(k - 1) == 2 * Pow2(k - 2) && Pow2(k - 2) == 2 * Pow2(k - 3);
      assert Pow2(k - 3) == 2 * Pow2(k - 4) && Pow2(k - 4) == 2 * Pow2(k - 5) && Pow2(k - 5) == 2 * Pow2(k - 6);
      assert Pow2(k - 6) == 2 * Pow2(k - 7);
    }
  }

  /** `(x << at)` in a word of `modulus` values. */
  function Shl(x: nat, at: nat, modulus: nat): nat
    requires modulus > 0
  {
    x * Pow2(at) % modulus
  }

  /** `low | high` where `high` only has bits from `at` up and `low` only bits below. */
  function Or(low: nat, high: nat, at: nat): nat
    requires low < Pow2(at) && high % Pow2(at) == 0
  {
    low + high
  }

  lemma {:induction false} LimbsAppend(bs: seq<Byte>, b: Byte)
    ensures Limbs(bs + [b]) == Limbs(bs) + (b % 128) * Pow128(|bs|)
  {
    if bs == [] {
      assert [b][1..] == [];
    } else {
      LimbsAppend(bs[1..], b);
      assert (bs + [b])[1..] == bs[1..] + [b];
      assert 128 * ((b % 128) * Pow128(|bs| - 1)) == (b % 128) * (128 * Pow128(|bs| - 1));
    }
  }

  lemma {:induction false} LimbsSmall(b: Byte)
    ensures Limbs([]) == 0 && Limbs([b]) == b % 128
  {
    assert [b][1..] == [];
  }

  lemma {:induction false} LimbsBound(bs: seq<Byte>)
    ensures Limbs(bs) < Pow128(|bs|)
  {
    if bs != [] {
      LimbsBound(bs[1..]);
    }
  }

  /** Accumulating limb `n` (of at most ten, or five) by shift and OR. */
  lemma {:induction false} Accumulate(bs: seq<Byte>, b: Byte, modulus: nat)
    requires (modulus == TWO64 && |bs| <= 9) || (modulus == TWO32 && |bs| <= 4)
    ensures var at := 7 * |bs|;
            && Limbs(bs) < Pow2(at) && Shl(b % 128, at, modulus) % Pow2(at) == 0
            && Or(Limbs(bs), Shl(b % 128, at, modulus), at) == Limbs(bs + [b]) % modulus
    ensures |bs| < (if modulus == TWO64 then 9 else 4) ==> Limbs(bs + [b]) < modulus
  {
    hide Limbs, Pow128, Pow2;
    var n, x := |bs|, b % 128;
    var p := Pow128(n);
    LimbsAppend(bs, b);
    LimbsBound(bs);
    LimbsBound(bs + [b]);
    Pow2Of7(n);
    var c := Cofactor(n, modulus);
    MulMod(x, p, c);
    var low, high := Limbs(bs), x * p;
    var q := high / modulus;
    assert low + high == q * modulus + (low + high % modulus);
    RemainderUnique(low + high, q, low + high % modulus, modulus);
    if |bs| < (if modulus == TWO64 then 9 else 4) {
      var d := Cofactor(n + 1, modulus);
    }
  }

  lemma {:induction false} AccumulateAt(input: seq<Byte>, n: nat, modulus: nat)
    requires n < |input| && ((modulus == TWO64 && n <= 9) || (modulus == TWO32 && n <= 4))
    ensures var at, x := 7 * n, Limbs(input[..n]);
            && x < Pow2(at) && Shl(input[n] % 128, at, modulus) % Pow2(at) == 0
            && Or(x, Shl(input[n] % 128, at, modulus), at) == Limbs(input[..n + 1]) % modulus
    ensures n < (if modulus == TWO64 then 9 else 4) ==> Limbs(input[..n + 1]) % modulus == Limbs(input[..n + 1])
  {
    hide Limbs, Pow2, Shl, Or;
    Accumulate(input[..n], input[n], modulus);
    assert input[..n] + [input[n]] == input[..n + 1];
  }

  /** 128 to the power `n` divides the modulus, up to the last limb. */
  lemma {:induction false} Cofactor(n: nat, modulus: nat) returns (c: nat)
    requires (modulus == TWO64 && n <= 9) || (modulus == TWO32 && n <= 4)
    ensures c > 0 && modulus == Pow128(n) * c && Pow128(n) <= modulus
  {
    Pow128Values();
    if n == 9 { c := 2; }
    else if n == 8 { c := 0x100; }
    else if n == 7 { c := 0x8000; }
    else if n == 6 { c := 0x40_0000; }
    else if n == 5 { c := 0x2000_0000; }
    else if n == 4 { c := modulus / 0x1000_0000; }
    else if n == 3 { c := modulus / 0x20_0000; }
    else if n == 2 { c := modulus / 0x4000; }
    else if n == 1 { c := modulus / 0x80; }
    else { c := modulus; }
  }

  class IStream {
    const buf: seq<Byte>
    var state: nat
    var bytesLeft: nat

    ghost predicate Valid()
      reads this
    {
      state + bytesLeft <= |buf|
    }

    /** The bytes the stream may still give. */
    function Rest(): seq<Byte>
      requires Valid()
      reads this
    {
      buf[state..state + bytesLeft]
    }

    ghost function End(): nat
      reads this
    {
      state + bytesLeft
    }

    /** pb_istream_from_buffer. */
    constructor (bytes: seq<Byte>)
      ensures Valid() && buf == bytes && Rest() == bytes && state == 0
    {
      buf := bytes;
      state := 0;
      bytesLeft := |bytes|;
    }

    /** pb_read into a buffer. */
    method Read(count: nat) returns (ok: bool, bytes: seq<Byte>)
      requires Valid()
      modifies this
      ensures Valid() && End() == old(End())
      ensures match ParseRaw(old(Rest()), count)
              case Ok(bs, rest) => ok && bytes == bs && Rest() == rest
              case Err(left) => !ok && Rest() == left
    {
      if bytesLeft < count {
        return false, [];
      }
      bytes := buf[state..state + count];
      state := state + count;
      bytesLeft := bytesLeft - count;
      ok := true;
    }

    /** pb_readbyte. */
    method ReadByte() returns (ok: bool, byte: Byte)
      requires Valid()
      modifies this
      ensures Valid() && End() == old(End())
      ensures ok <==> old(Rest()) != []
      ensures ok ==> byte == old(Rest())[0] && Rest() == old(Rest())[1..]
      ensures !ok ==> Rest() == old(Rest())
    {
      if bytesLeft == 0 {
        return false, 0;
      }
      byte := buf[state];
      state := state + 1;
      bytesLeft := bytesLeft - 1;
      ok := true;
    }

    /** pb_decode_varint. */
    method DecodeVarint() returns (ok: bool, dest: nat)
      requires Valid()
      modifies this
      ensures Valid() && End() == old(End())
      ensures match ParseVarint64(old(Rest()))
              case Ok(v, rest) => ok && dest == v && Rest() == rest
              case Err(left) => !ok && Rest() == left
    {
      hide Limbs, Pow2, Shl, Or, ParseVarint;
      ghost var input := Rest();
      ghost var n := 0;
      var bitpos, result := 0, 0;
      LimbsSmall(0);
      while true
        invariant Valid() && End() == old(End())
        invariant n <= 10 && n <= |input| && bitpos == 7 * n && Rest() == input[n..]
        invariant forall i :: 0 <= i < n ==> input[i] >= 128
        invariant n <= 9 ==> result == Limbs(input[..n])
        decreases bytesLeft
      {
        if bitpos >= 64 {
          ParsedNever(input, n, 10, TWO64);
          return false, 0;
        }
        var got, byte := ReadByte();
        if !got {
          ParsedNever(input, n, 10, TWO64);
          return false, 0;
        }
        AccumulateAt(input, n, TWO64);
        result := Or(result, Shl(byte % 128, bitpos, TWO64), bitpos);
        bitpos := bitpos + 7;
        n := n + 1;
        if byte < 128 {
          ParsedExactly(input, n - 1, 10, TWO64);
          return true, result;
        }
      }
    }

    /** pb_decode_varint32, with its quick case for one byte. */
    method DecodeVarint32() returns (ok: bool, dest: nat)
      requires Valid()
      modifies this
      ensures Valid() && End() == old(End())
      ensures match ParseVarint32(old(Rest()))
              case Ok(v, rest) => ok && dest == v && Rest() == rest
              case Err(left) => !ok && Rest() == left
    {
      hide Limbs, Pow2, Shl, Or, ParseVarint;
      ghost var input := Rest();
      var got, byte := ReadByte();
      if !got {
        ParsedNever(input, 0, 5, TWO32);
        return false, 0;
      }
      if byte < 128 {
        assert input[..1] == [byte];
        LimbsSmall(byte);
        ParsedExactly(input, 0, 5, TWO32);
        return true, byte;
      }
      ok, dest := DecodeMore32(input, byte);
    }

    /** The loop of pb_decode_varint32, behind a first byte that is continued. */
    method DecodeMore32(ghost input: seq<Byte>, first: Byte) returns (ok: bool, dest: nat)
      requires Valid() && input != [] && first == input[0] >= 128 && Rest() == input[1..]
      modifies this
      ensures Valid() && End() == old(End())
      ensures match ParseVarint32(input)
              case Ok(v, rest) => ok && dest == v && Rest() == rest
              case Err(left) => !ok && Rest() == left
    {
      hide Limbs, Pow2, Shl, Or, ParseVarint;
      assert input[..1] == [first];
      LimbsSmall(first);
      ghost var n := 1;
      var bitpos, result := 7, first % 128;
      while true
        invariant Valid() && End() == old(End())
        invariant 1 <= n <= 5 && n <= |input| && bitpos == 7 * n && Rest() == input[n..]
        invariant forall i :: 0 <= i < n ==> input[i] >= 128
        invariant n <= 4 ==> result == Limbs(input[..n])
        decreases bytesLeft
      {
        if bitpos >= 32 {
          ParsedNever(input, n, 5, TWO32);
          return false, 0;
        }
        var got, byte := ReadByte();
        if !got {
          ParsedNever(input, n, 5, TWO32);
          return false, 0;
        }
        AccumulateAt(input, n, TWO32);
        result := Or(result, Shl(byte % 128, bitpos, TWO32), bitpos);
        bitpos := bitpos + 7;
        n := n + 1;
        if byte < 128 {
          ParsedExactly(input, n - 1, 5, TWO32);
          return true, result;
        }
      }
    }

    /** pb_decode_svarint. */
    method DecodeSvarint() returns (ok: bool, dest: int)
      requires Valid()
      modifies this
      ensures Valid() && End() == old(End())
      ensures match ParseVarint64(old(Rest()))
              case Ok(u, rest) => ok && dest == UnZigZag(u) && Rest() == rest
              case Err(left) => !ok && Rest() == left
    {
      var value: nat;
      ok, value := DecodeVarint();
      if !ok {
        return false, 0;
      }
      if value % 2 == 1 {
        dest := Signed(8, Not64(value / 2));
      } else {
        dest := Signed(8, value / 2);
      }
    }

    /** pb_decode_fixed32 and pb_decode_fixed64. */
    method DecodeFixed(width: nat) returns (ok: bool, dest: nat)
      requires Valid()
      modifies this
      ensures Valid() && End() == old(End())
      ensures match ParseRaw(old(Rest()), width)
              case Ok(bs, rest) => ok && dest == FromLittleEndian(bs) && Rest() == rest
              case Err(left) => !ok && Rest() == left
    {
      var bytes;
      ok, bytes := Read(width);
      if !ok {
        return false, 0;
      }
      var i := width;
      dest := 0;
      while i > 0
        invariant 0 <= i <= width
        invariant dest == FromLittleEndian(bytes[i..])
      {
        i := i - 1;
        assert bytes[i..][1..] == bytes[i + 1..];
        dest := bytes[i] + 256 * dest;
      }
      assert bytes[0..] == bytes;
    }

    /** pb_skip_varint. */
    method SkipVarint() returns (ok: bool)
      requires Valid()
      modifies this
      ensures Valid() && End() == old(End())
      ensures ok <==> Skip(WT_VARINT, old(Rest())).Some?
      ensures ok ==> Rest() == Skip(WT_VARINT, old(Rest())).value
    {
      ghost var input := Rest();
      ghost var n := 0;
      while true
        invariant Valid() && End() == old(End())
        invariant n <= |input| && Rest() == input[n..]
        invariant forall i :: 0 <= i < n ==> input[i] >= 128
        decreases bytesLeft
      {
        var got, byte := Read(1);
        if !got {
          ContinuedAtLeast(input, n);
          return false;
        }
        n := n + 1;
        if byte[0] < 128 {
          ContinuedExactly(input, n - 1);
          return true;
        }
      }
    }

    /** pb_skip_string. */
    method SkipString() returns (ok: bool)
      requires Valid()
      modifies this
      ensures Valid() && End() == old(End())
      ensures ok <==> Skip(WT_STRING, old(Rest())).Some?
      ensures ok ==> Rest() == Skip(WT_STRING, old(Rest())).value
    {
      var length: nat;
      ok, length := DecodeVarint32();
      if !ok {
        return false;
      }
      var skipped;
      ok, skipped := Read(length);
    }

    /** pb_decode_tag. */
    method DecodeTag() returns (ok: bool, wiretype: nat, tag: nat, eof: bool)
      requires Valid()
      modifies this
      ensures Valid() && End() == old(End())
      ensures match ParseTag(old(Rest()))
              case Tag(w, t, rest) => ok && wiretype == w && tag == t && Rest() == rest
              case Eof(left) => !ok && eof && Rest() == left
              case BadTag => !ok && !eof
    {
      eof := false;
      wiretype, tag := 0, 0;
      var temp: nat;
      ok, temp := DecodeVarint32();
      if !ok {
        if bytesLeft == 0 {
          eof := true;
        }
        return;
      }
      if temp == 0 {
        eof := true;
        ok := false;
        return;
      }
      tag := temp / 8;
      wiretype := temp % 8;
    }

    /** pb_skip_field. */
    method SkipField(wiretype: nat) returns (ok: bool)
      requires Valid()
      modifies this
      ensures Valid() && End() == old(End())
      ensures ok <==> Skip(wiretype, old(Rest())).Some?
      ensures ok ==> Rest() == Skip(wiretype, old(Rest())).value
    {
      var skipped;
      if wiretype == WT_VARINT {
        ok := SkipVarint();
      } else if wiretype == WT_64BIT {
        ok, skipped := Read(8);
      } else if wiretype == WT_STRING {
        ok := SkipString();
      } else if wiretype == WT_32BIT {
        ok, skipped := Read(4);
      } else {
        ok := false;
      }
    }

    /** pb_make_string_substream: the substream takes `size` bytes off this one, which keeps its
        position at their start until the substream is closed. */
    method MakeSubstream() returns (ok: bool, sub: IStream)
      requires Valid()
      modifies this
      ensures Valid() && sub.Valid() && fresh(sub) && sub.buf == buf && End() <= old(End())
      ensures match ParseDelimited(old(Rest()))
              case Ok(body, rest) =>
                && ok && sub.Rest() == body && sub.state == state && sub.End() + bytesLeft == old(End())
                && buf[sub.End()..old(End())] == rest && bytesLeft == |rest|
              case Err(_) => !ok
    {
      sub := new IStream(buf);
      var size: nat;
      ok, size := DecodeVarint32();
      if !ok {
        return;
      }
      sub.state, sub.bytesLeft := state, bytesLeft;
      if sub.bytesLeft < size {
        ok := false;
        return;
      }
      sub.bytesLeft := size;
      bytesLeft := bytesLeft - size;
    }

    /** pb_close_string_substream: read off what the substream did not use and go on behind it. */
    method CloseSubstream(sub: IStream) returns (ok: bool)
      requires Valid() && sub.Valid() && sub != this && sub.buf == buf && sub.End() + bytesLeft <= |buf|
      modifies this, sub
      ensures Valid() && ok && state == old(sub.End()) && bytesLeft == old(bytesLeft)
    {
      if sub.bytesLeft > 0 {
        var skipped;
        ok, skipped := sub.Read(sub.bytesLeft);
        if !ok {
          return false;
        }
      }
      state := sub.state;
      return true;
    }
  }

  /** A varint ends at its first byte without the continuation bit. */
  lemma {:induction false} ParsedExactly(input: seq<Byte>, n: nat, limit: nat, modulus: int)
    requires n < |input| && n < limit && modulus > 0 && input[n] < 128 && forall i :: 0 <= i < n ==> input[i] >= 128
    ensures ParseVarint(input, limit, modulus) == Ok(Limbs(input[..n + 1]) % modulus, input[n + 1..])
  {
    hide Limbs;
    ContinuedExactly(input, n);
  }

  /** And there is none if the input or the limit ends before. */
  lemma {:induction false} ParsedNever(input: seq<Byte>, n: nat, limit: nat, modulus: int)
    requires n <= |input| && n <= limit && modulus > 0 && (n == |input| || n == limit) && forall i :: 0 <= i < n ==>
             input[i] >= 128
    ensures ParseVarint(input, limit, modulus) == Err(input[n..])
  {
    hide Limbs;
    ContinuedAtLeast(input, n);
  }

  lemma {:induction false} ContinuedAtLeast(bs: seq<Byte>, n: nat)
    requires n <= |bs| && forall i :: 0 <= i < n ==> bs[i] >= 128
    ensures Continued(bs) >= n
  {
    if n > 0 {
      ContinuedAtLeast(bs[1..], n - 1);
    }
  }

  lemma {:induction false} ContinuedExactly(bs: seq<Byte>, n: nat)
    requires n < |bs| && bs[n] < 128 && forall i :: 0 <= i < n ==> bs[i] >= 128
    ensures Continued(bs) == n
  {
    ContinuedAtLeast(bs, n);
  }
}
