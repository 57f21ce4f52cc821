/** pb_ostream_t over a buffer or for sizing only, and the writers of pb_encode.c below the
    level of fields. A stream without a callback counts bytes and is never full. */
module PbOutput {
  import opened PbWire
  import opened PbEncode

  /** What a stream looks like at one moment. */
  datatype Snapshot = Snapshot(
    buf: array<Byte>, sizing: bool, maxSize: nat, written: nat, before: seq<Byte>, beyond: seq<Byte>)

  /** Whether `n` more bytes fit. */
  ghost predicate Room(a: Snapshot, n: nat)
  {
    a.sizing || a.written + n <= a.maxSize
  }

  /** From `a` to `b` by a writer of `bs` (None for data it cannot encode): it is successful
      exactly when there is something to write and room for it; then just `bs` is appended.
      In any case nothing before the write position or beyond the room is changed. */
  ghost predicate Step(a: Snapshot, b: Snapshot, ok: bool, bs: Option<seq<Byte>>)
  {
    && b.buf == a.buf && b.sizing == a.sizing && b.maxSize == a.maxSize
    && (ok <==> bs.Some? && Room(a, |bs.value|))
    && (ok ==> b.written == a.written + |bs.value| && b.before == a.before + if a.sizing then [] else bs.value)
    && a.before <= b.before && b.beyond == a.beyond
  }

  lemma {:induction false} StepCompose(a: Snapshot, b: Snapshot, c: Snapshot, ok: bool, x: seq<Byte>,
      y: Option<seq<Byte>>)
    requires Step(a, b, true, Some(x)) && Step(b, c, ok, y)
    ensures Step(a, c, ok, Append(Some(x), y))
  {
    if ok && !a.sizing {
      assert a.before + x + y.value == a.before + (x + y.value);
    }
  }

  lemma {:induction false} StepFails(a: Snapshot, b: Snapshot, x: Option<seq<Byte>>, y: Option<seq<Byte>>)
    requires Step(a, b, false, x)
    ensures Step(a, b, false, Append(x, y))
  {
  }

  lemma {:induction false} StepNothing(a: Snapshot)
    requires !a.sizing ==> a.written <= a.maxSize
    ensures Step(a, a, true, Some([]))
  {
    assert a.before + [] == a.before;
  }

  class OStream {
    var buf: array<Byte>
    var sizing: bool
    var state: nat
    var maxSize: nat
    var bytesWritten: nat

    ghost predicate Valid()
      reads this
    {
      !sizing ==> bytesWritten <= maxSize && state + (maxSize - bytesWritten) <= buf.Length
    }

    /** Everything in the buffer before the write position. */
    ghost function Out(): seq<Byte>
      requires Valid()
      reads this, buf
    {
      if sizing then [] else buf[..state]
    }

    /** The buffer from where the stream's room ends; no writer ever touches it. */
    ghost function Beyond(): seq<Byte>
      requires Valid()
      reads this, buf
    {
      if sizing then [] else buf[state + (maxSize - bytesWritten)..]
    }

    ghost function Snap(): Snapshot
      requires Valid()
      reads this, buf
    {
      Snapshot(buf, sizing, maxSize, bytesWritten, Out(), Beyond())
    }

    /** The whole contract of a writer of `bs`. */
    twostate predicate Wrote(ok: bool, new bs: Option<seq<Byte>>)
      requires old(Valid()) && Valid()
      reads this, buf
    {
      buf == old(buf) && Step(old(Snap()), Snap(), ok, bs)
    }

    /** pb_ostream_from_buffer. */
    constructor FromBuffer(b: array<Byte>, size: nat)
      requires size <= b.Length
      ensures Valid() && buf == b && !sizing && state == 0 && maxSize == size && bytesWritten == 0
    {
      buf, sizing, state, maxSize, bytesWritten := b, false, 0, size, 0;
    }

    /** PB_OSTREAM_SIZING. */
    constructor Sizing()
      ensures Valid() && sizing && bytesWritten == 0 && fresh(buf)
    {
      buf := new Byte[0];
      sizing, state, maxSize, bytesWritten := true, 0, 0, 0;
    }

    /** The loop of buf_write. */
    static method Copy(buf: array<Byte>, dest: nat, bytes: seq<Byte>)
      requires dest + |bytes| <= buf.Length
      modifies buf
      ensures buf[..dest + |bytes|] == old(buf[..dest]) + bytes && buf[dest + |bytes|..] == old(buf[dest + |bytes|..])
    {
      ghost var before := buf[..];
      for i := 0 to |bytes|
        invariant forall k :: 0 <= k < buf.Length ==>
                  buf[k] == if dest <= k < dest + i then bytes[k - dest] else before[k]
      {
        buf[dest + i] := bytes[i];
      }
    }

    /** pb_write, with buf_write inlined. */
    method Write(bytes: seq<Byte>) returns (ok: bool)
      requires Valid()
      modifies this, buf
      ensures Valid() && Wrote(ok, Some(bytes))
    {
      if !sizing {
        if bytesWritten + |bytes| > maxSize {
          return false;
        }
        var dest := state;
        state := dest + |bytes|;
        ghost var after := buf[state..];
        Copy(buf, dest, bytes);
        LaterSuffix(after, buf[state..], maxSize - bytesWritten - |bytes|);
      }
      bytesWritten := bytesWritten + |bytes|;
      return true;
    }

    static lemma {:induction false} LaterSuffix(a: seq<Byte>, b: seq<Byte>, n: nat)
      requires a == b && n <= |a|
      ensures a[n..] == b[n..]
    {
    }

    /** pb_write with no data, which only a sizing stream is ever asked for. */
    method Count(n: nat) returns (ok: bool)
      requires Valid() && sizing
      modifies this
      ensures Valid() && ok && sizing && buf == old(buf) && maxSize == old(maxSize)
              && bytesWritten == old(bytesWritten) + n
    {
      bytesWritten := bytesWritten + n;
      return true;
    }

    /** pb_encode_varint: the bytes are assembled in a local buffer, the last one loses its
        continuation bit. */
    method WriteVarint(v: nat) returns (ok: bool)
      requires Valid() && v < TWO64
      modifies this, buf
      ensures Valid() && Wrote(ok, Some(EncodeVarint(v)))
    {
      if v <= 0x7F {
        ok := Write([v]);
        return;
      }
      var bytes := VarintBytes(v);
      ok := Write(bytes);
    }

    /** pb_encode_svarint. */
    method WriteSvarint(v: int) returns (ok: bool)
      requires Valid()
      modifies this, buf
      ensures Valid() && Wrote(ok, Some(EncodeVarint(ZigZag(v))))
    {
      var zigzagged: nat;
      if v < 0 {
        zigzagged := Not64(Shl64(U64(v)));
      } else {
        zigzagged := Shl64(U64(v));
      }
      ok := WriteVarint(zigzagged);
    }

    /** pb_encode_fixed32 and pb_encode_fixed64. */
    method WriteFixed(v: nat, width: nat) returns (ok: bool)
      requires Valid()
      modifies this, buf
      ensures Valid() && Wrote(ok, Some(LittleEndian(v, width)))
    {
      var bytes: seq<Byte>, rest := [], v;
      for i := 0 to width
        invariant LittleEndian(v, width) == bytes + LittleEndian(rest, width - i)
      {
        bytes := bytes + [rest % 256];
        rest := rest / 256;
      }
      assert bytes + LittleEndian(rest, 0) == bytes;
      ok := Write(bytes);
    }

    /** pb_encode_tag. */
    method WriteTag(wiretype: nat, tag: nat) returns (ok: bool)
      requires Valid() && tag * 8 + wiretype < TWO64
      modifies this, buf
      ensures Valid() && Wrote(ok, Some(EncodeTag(wiretype, tag)))
    {
      ok := WriteVarint(tag * 8 + wiretype);
    }

    /** pb_encode_string. */
    method WriteString(bytes: seq<Byte>) returns (ok: bool)
      requires Valid() && |bytes| < TWO64
      modifies this, buf
      ensures Valid() && Wrote(ok, Some(EncodeDelimited(bytes)))
    {
      hide EncodeVarint;
      ghost var a := Snap();
      ok := WriteVarint(|bytes|);
      ghost var b := Snap();
      if !ok {
        StepFails(a, b, Some(EncodeVarint(|bytes|)), Some(bytes));
        return;
      }
      ok := Write(bytes);
      StepCompose(a, b, Snap(), ok, EncodeVarint(|bytes|), Some(bytes));
    }
  }

  /** The loop of pb_encode_varint, over its ten byte buffer. */
  method VarintBytes(v: nat) returns (bytes: seq<Byte>)
    requires 0x7F < v < TWO64
    ensures bytes == EncodeVarint(v)
  {
    hide Pow128, EncodeVarint;
    var buffer := new Byte[10];
    var value: nat, i: nat := v, 0;
    TenLimbs(v);
    while value > 0
      invariant 0 <= i <= 10 && value < Pow128(10 - i)
      invariant value > 0 ==> i < 10 && EncodeVarint(v) == buffer[..i] + EncodeVarint(value)
      invariant value == 0 ==> i > 0 && EncodeVarint(v) == buffer[..i - 1] + [buffer[i - 1] % 128]
      decreases value
    {
      ghost var before := buffer[..i];
      VarintLimb(before, value, 10 - i);
      buffer[i] := value % 128 + 128;
      assert buffer[..i + 1] == before + [buffer[i]];
      value := value / 128;
      i := i + 1;
    }
    buffer[i - 1] := buffer[i - 1] % 128;
    bytes := buffer[..i];
  }

  lemma {:induction false} TenLimbs(v: nat)
    requires v < TWO64
    ensures v < Pow128(10)
    ensures EncodeVarint(v) == [] + EncodeVarint(v)
  {
    Pow128Values();
  }

  /** Taking seven bits off a number of at most `n` limbs. */
  lemma {:induction false} VarintLimb(before: seq<Byte>, value: nat, n: nat)
    requires 0 < value < Pow128(n) && n > 0
    ensures value / 128 < Pow128(n - 1) && (value / 128 > 0 ==> n > 1)
    ensures value >= 128 ==> before + EncodeVarint(value) == before + [value % 128 + 128] + EncodeVarint(value / 128)
    ensures value < 128 ==> before + EncodeVarint(value) == before + [(value % 128 + 128) % 128]
  {
    assert Pow128(n) == 128 * Pow128(n - 1);
    if n == 1 {
      assert Pow128(0) == 1;
    }
  }
}
