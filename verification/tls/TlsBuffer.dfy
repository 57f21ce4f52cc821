/** SSLBuffer of ssl_buffer.cc, with its 16-bit fields. */
module TlsBuffer {
  type Byte = x: int | 0 <= x < 256

  const SSL3_ALIGN_PAYLOAD: nat := 8

  class SSLBuffer {
    var buf: array?<Byte>
    var offset: nat
    var size: nat
    var cap: nat

    ghost predicate Valid()
      reads this
    {
      && offset < 0x1_0000 && size <= cap < 0x1_0000
      && (if buf == null then cap == 0 && offset == 0 else offset + cap <= buf.Length)
    }

    /** The memory behind the buffer. */
    ghost function Arr(): set<object>
      reads this
    {
      if buf == null then {} else {buf}
    }

    ghost function Contents(): seq<Byte>
      requires Valid()
      reads this, Arr()
    {
      if buf == null then [] else buf[offset..offset + size]
    }

    /** The end of what the buffer holds is within reach of its 16-bit offset. */
    ghost predicate Reachable()
      reads this
    {
      offset + size <= 0x1_0000
    }

    lemma {:induction false} EmptyContents()
      requires Valid()
      ensures |Contents()| == size && (size == 0 ==> Contents() == [])
    {
    }

    constructor ()
      ensures Valid() && size == 0 && cap == 0 && Reachable() && Arr() == {}
    {
      buf, offset, size, cap := null, 0, 0, 0;
    }

    method Clear()
      modifies this
      ensures Valid() && size == 0 && cap == 0 && Reachable() && Arr() == {}
    {
      buf, offset, size, cap := null, 0, 0, 0;
    }

    /** EnsureCap: more room, the same contents. The alignment of new memory is up to the
        allocator. */
    method EnsureCap(newCap: nat) returns (ok: bool)
      requires Valid()
      modifies this
      ensures Valid() && ok == (newCap <= 0xFFFF) && (buf == old(buf) || (buf != null && fresh(buf)))
      ensures Contents() == old(Contents()) && size == old(size)
      ensures if ok then cap == (if old(cap) >= newCap then old(cap) else newCap)
              else buf == old(buf) && offset == old(offset) && cap == old(cap)
      ensures offset == old(offset) || offset < SSL3_ALIGN_PAYLOAD
    {
      if newCap > 0xFFFF {
        return false;
      }
      if cap >= newCap {
        return true;
      }
      var newOffset: nat :| newOffset < SSL3_ALIGN_PAYLOAD;
      Move(newCap, newOffset);
      return true;
    }

    /** The end of EnsureCap, with the offset that aligns the memory the allocator gave. */
    method Move(newCap: nat, newOffset: nat)
      requires Valid() && cap < newCap <= 0xFFFF && newOffset < SSL3_ALIGN_PAYLOAD
      modifies this
      ensures Valid() && buf != null && fresh(buf) && offset == newOffset && cap == newCap
      ensures Contents() == old(Contents()) && size == old(size)
    {
      var newBuf := new Byte[newCap + SSL3_ALIGN_PAYLOAD - 1];
      CopyTo(newBuf, newOffset);
      buf, offset, cap := newBuf, newOffset, newCap;
    }

    /** The memcpy of EnsureCap. */
    method CopyTo(newBuf: array<Byte>, newOffset: nat)
      requires Valid() && newOffset + size <= newBuf.Length && newBuf != buf
      modifies newBuf
      ensures newBuf[newOffset..newOffset + size] == Contents()
    {
      if buf != null {
        forall i | newOffset <= i < newOffset + size {
          newBuf[i] := buf[offset + (i - newOffset)];
        }
        SameStretch(newBuf[..], newOffset, buf[..], offset, size);
        assert newBuf[newOffset..newOffset + size] == newBuf[..][newOffset..newOffset + size];
        assert buf[offset..offset + size] == buf[..][offset..offset + size];
      }
    }

    /** Filling the remaining space, and DidWrite, which aborts when there is not enough. */
    method Append(data: seq<Byte>)
      requires Valid() && |data| <= cap - size
      modifies this`size, Arr()
      ensures Valid() && Contents() == old(Contents()) + data && size == old(size) + |data|
      ensures buf != null ==> buf[..offset] == old(buf[..offset])
    {
      if buf != null {
        ghost var mem := buf[..];
        forall i | offset + size <= i < offset + size + |data| {
          buf[i] := data[i - offset - size];
        }
        Filled(mem, buf[..], offset, size, data);
      }
      size := size + |data|;
    }

    static lemma {:induction false} Filled(a: seq<Byte>, b: seq<Byte>, offset: nat, size: nat, data: seq<Byte>)
      requires offset + size + |data| <= |a| == |b|
      requires forall i :: 0 <= i < offset + size ==> b[i] == a[i]
      requires forall i :: offset + size <= i < offset + size + |data| ==> b[i] == data[i - offset - size]
      ensures b[offset..offset + size + |data|] == a[offset..offset + size] + data && b[..offset] == a[..offset]
    {
    }

    /** What is left after consuming `len` bytes: the offset has 16 bits. */
    ghost function AfterConsume(len: nat): seq<Byte>
      requires Valid() && len <= size
      reads this, Arr()
    {
      if buf == null then []
      else
        WrapWithin(offset, len, cap, buf.Length);
        Stretch(buf[..], Wrapped(offset, len), size - len)
    }

    /** The sum of an offset of 16 bits. */
    static function Wrapped(offset: nat, len: nat): (r: nat)
      requires offset < 0x1_0000 && len < 0x1_0000
      ensures r == if offset + len < 0x1_0000 then offset + len else offset + len - 0x1_0000
    {
      (offset + len) % 0x1_0000
    }

    static function Stretch(mem: seq<Byte>, at: nat, n: nat): seq<Byte>
      requires at + n <= |mem|
    {
      mem[at..at + n]
    }

    /** Consuming any part of a buffer leaves the rest of it exactly when the buffer ends within
        reach of 16 bits, or happens to repeat, past 2^16, the bytes the memory begins with. */
    lemma {:induction false} ConsumeExactly()
      requires Valid()
      ensures (forall len :: 0 <= len <= size ==> AfterConsume(len) == Contents()[len..])
              <==> offset + size <= 0x1_0000 || buf[..offset + size - 0x1_0000] == buf[0x1_0000..offset + size]
    {
      hide Contents, AfterConsume;
      EmptyContents();
      if offset + size > 0x1_0000 {
        AtTheWrap();
      }
      if offset + size <= 0x1_0000 || buf[..offset + size - 0x1_0000] == buf[0x1_0000..offset + size] {
        forall len | 0 <= len <= size ensures AfterConsume(len) == Contents()[len..] {
          ConsumeInPlace(len);
        }
      }
    }

    /** Consuming up to 2^16 leaves the beginning of the memory in place of the rest. */
    lemma {:induction false} AtTheWrap()
      requires Valid() && offset + size > 0x1_0000
      ensures AfterConsume(0x1_0000 - offset) == buf[..offset + size - 0x1_0000]
      ensures |Contents()| == size && Contents()[0x1_0000 - offset..] == buf[0x1_0000..offset + size]
    {
    }

    lemma {:induction false} ConsumeInPlace(len: nat)
      requires Valid() && len <= size
      requires offset + size <= 0x1_0000 || buf[..offset + size - 0x1_0000] == buf[0x1_0000..offset + size]
      ensures AfterConsume(len) == Contents()[len..]
    {
      if buf != null {
        var mem := buf[..];
        WrapWithin(offset, len, cap, |mem|);
        assert buf[offset..offset + size] == mem[offset..offset + size];
        if offset + size > 0x1_0000 {
          assert buf[..offset + size - 0x1_0000] == mem[..offset + size - 0x1_0000];
          assert buf[0x1_0000..offset + size] == mem[0x1_0000..offset + size];
        }
        WrapsTo(mem, offset, size, len);
      }
    }

    static lemma {:induction false} WrapsTo(mem: seq<Byte>, offset: nat, size: nat, len: nat)
      requires offset < 0x1_0000 && size < 0x1_0000 && offset + size <= |mem| && len <= size
      requires Wrapped(offset, len) + (size - len) <= |mem|
      requires offset + size <= 0x1_0000 || mem[..offset + size - 0x1_0000] == mem[0x1_0000..offset + size]
      ensures Stretch(mem, Wrapped(offset, len), size - len) == mem[offset..offset + size][len..]
    {
      assert mem[offset..offset + size][len..] == mem[offset + len..offset + size];
      if offset + len >= 0x1_0000 && len < size {
        var k, over := offset + len - 0x1_0000, offset + size - 0x1_0000;
        assert Stretch(mem, k, size - len) == mem[..over][k..];
        assert mem[offset + len..offset + size] == mem[0x1_0000..offset + size][k..];
      }
    }

    /** With the offset at 7 and 0xFFFA bytes, the last one is lost when all others were consumed,
        unless it is the byte the memory begins with. */
    lemma {:induction false} LastLost()
      requires Valid() && offset == 7 && size == 0xFFFA && Contents()[0xFFF9] != buf[0]
      ensures AfterConsume(0xFFF9) != Contents()[0xFFF9..]
    {
      assert AfterConsume(0xFFF9)[0] == buf[0];
      assert Contents()[0xFFF9..][0] == Contents()[0xFFF9];
    }

    /** Consume, which aborts when there is not that much. */
    method Consume(len: nat)
      requires Valid() && len <= size
      modifies this`offset, this`size, this`cap
      ensures Valid() && size == old(size) - len && cap == old(cap) - len && offset == Wrapped(old(offset), len)
      ensures Contents() == old(AfterConsume(len))
      ensures old(Reachable()) ==> Contents() == old(Contents())[len..] && Reachable()
    {
      hide Contents, AfterConsume, Wrapped, Stretch;
      if Reachable() {
        ConsumeInPlace(len);
      }
      ConsumedIs(len);
      offset := Wrapped(offset, len);
      size := size - len;
      cap := cap - len;
      ContentsIs();
    }

    lemma {:induction false} ConsumedIs(len: nat)
      requires Valid() && len <= size
      ensures if buf == null then Wrapped(offset, len) == 0 && AfterConsume(len) == []
              else
                && Wrapped(offset, len) + (cap - len) <= buf.Length
                && AfterConsume(len) == Stretch(buf[..], Wrapped(offset, len), size - len)
    {
      if buf != null {
        WrapWithin(offset, len, cap, buf.Length);
      }
    }

    lemma {:induction false} ContentsIs()
      requires Valid()
      ensures Contents() == if buf == null then [] else Stretch(buf[..], offset, size)
    {
    }

    static lemma {:induction false} SameStretch(a: seq<Byte>, i: nat, b: seq<Byte>, j: nat, n: nat)
      requires i + n <= |a| && j + n <= |b| && forall k :: i <= k < i + n ==> a[k] == b[j + (k - i)]
      ensures a[i..i + n] == b[j..j + n]
    {
    }

    static lemma {:induction false} WrapWithin(offset: nat, len: nat, cap: nat, room: nat)
      requires len <= cap && offset + cap <= room && offset < 0x1_0000 && cap < 0x1_0000
      ensures Wrapped(offset, len) + (cap - len) <= room
    {
    }
  }
}
