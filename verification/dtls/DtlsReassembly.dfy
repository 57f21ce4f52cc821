/** hm_fragment: one incoming message and the bit mask of the bytes received so far. */
module DtlsReassembly {
  import opened DtlsWire

  // ---------------------------------------------------------------- bits of a byte

  predicate Bit(w: bv8, i: nat)
    requires i < 8
  {
    (w >> i) & 1 == 1
  }

  /** bit_range: bits `start`, inclusive, to `end`, exclusive. The shifts are done on 32 bits
      and the result is cut to eight. */
  function BitRange(start: nat, end: nat): bv8
    requires start <= 8 && end <= 8
  {
    (!(((1 as bv32) << start) - 1) & (((1 as bv32) << end) - 1) & 0xFF) as bv8
  }

  lemma {:induction false} BitRangeBit(start: nat, end: nat, i: nat)
    requires start <= end <= 8 && i < 8
    ensures Bit(BitRange(start, end), i) <==> start <= i < end
  {
  }

  lemma {:induction false} OrBit(a: bv8, b: bv8, i: nat)
    requires i < 8
    ensures Bit(a | b, i) <==> Bit(a, i) || Bit(b, i)
  {
  }

  lemma {:induction false} SameBits(a: bv8, b: bv8)
    requires forall i :: 0 <= i < 8 ==> (Bit(a, i) <==> Bit(b, i))
    ensures a == b
  {
    assert Bit(a, 0) <==> Bit(b, 0);
    assert Bit(a, 1) <==> Bit(b, 1);
    assert Bit(a, 2) <==> Bit(b, 2);
    assert Bit(a, 3) <==> Bit(b, 3);
    assert Bit(a, 4) <==> Bit(b, 4);
    assert Bit(a, 5) <==> Bit(b, 5);
    assert Bit(a, 6) <==> Bit(b, 6);
    assert Bit(a, 7) <==> Bit(b, 7);
  }

  /** Bit `k` of a mask, least significant bit of the first byte first. */
  predicate BitAt(mask: seq<bv8>, k: nat)
    requires k < 8 * |mask|
  {
    Bit(mask[k / 8], k % 8)
  }

  /** OR-ing bits `start` to `end` into byte `at` of the mask. */
  lemma {:induction false} OrRange(mask: seq<bv8>, at: nat, start: nat, end: nat, k: nat)
    requires at < |mask| && start <= end <= 8 && k < 8 * |mask|
    ensures BitAt(mask[at := mask[at] | BitRange(start, end)], k)
       <==> BitAt(mask, k) || 8 * at + start <= k < 8 * at + end
  {
    if k / 8 == at {
      OrBit(mask[at], BitRange(start, end), k % 8);
      BitRangeBit(start, end, k % 8);
    }
  }

  lemma {:induction false} AllOnes(i: nat)
    requires i < 8
    ensures Bit(0xFF, i)
  {
    BitRangeBit(0, 8, i);
    assert BitRange(0, 8) == 0xFF;
  }

  /** The completeness test on whole bytes and a last partial one. */
  predicate FullPrefix(mask: seq<bv8>, len: nat)
    requires |mask| == (len + 7) / 8
  {
    (forall i :: 0 <= i < len / 8 ==> mask[i] == 0xFF) && (len % 8 != 0 ==> mask[len / 8] == BitRange(0, len % 8))
  }

  /** It holds exactly when all `len` bits are set, provided no bit beyond them is. */
  lemma {:induction false} FullMeansAll(mask: seq<bv8>, len: nat)
    requires |mask| == (len + 7) / 8
    requires forall k :: len <= k < 8 * |mask| ==> !BitAt(mask, k)
    ensures FullPrefix(mask, len) <==> forall k :: 0 <= k < len ==> BitAt(mask, k)
  {
    if FullPrefix(mask, len) {
      forall k | 0 <= k < len ensures BitAt(mask, k) {
        if k / 8 < len / 8 {
          AllOnes(k % 8);
        } else {
          BitRangeBit(0, len % 8, k % 8);
        }
      }
    }
    if forall k :: 0 <= k < len ==> BitAt(mask, k) {
      forall i | 0 <= i < len / 8 ensures mask[i] == 0xFF {
        forall b | 0 <= b < 8 ensures Bit(mask[i], b) <==> Bit(0xFF, b) {
          assert (8 * i + b) / 8 == i && (8 * i + b) % 8 == b;
          assert BitAt(mask, 8 * i + b);
          AllOnes(b);
        }
        SameBits(mask[i], 0xFF);
      }
      if len % 8 != 0 {
        var i := len / 8;
        forall b | 0 <= b < 8 ensures Bit(mask[i], b) <==> Bit(BitRange(0, len % 8), b) {
          assert (8 * i + b) / 8 == i && (8 * i + b) % 8 == b;
          assert BitAt(mask, 8 * i + b) <==> Bit(mask[i], b);
          BitRangeBit(0, len % 8, b);
        }
        SameBits(mask[i], BitRange(0, len % 8));
      }
    }
  }

  // ---------------------------------------------------------------- a message being reassembled

  /** What a fragment buffer stands for: the message's type, number and length, and the bytes
      received so far by position. */
  datatype Partial = Partial(typ: nat, num: nat, len: nat, bytes: map<nat, Byte>)
  {
    predicate Complete() { forall k :: 0 <= k < len ==> k in bytes }

    /** The body of a complete message. */
    function Body(): (bs: seq<Byte>)
      requires Complete()
      ensures |bs| == len && forall k :: 0 <= k < len ==> bs[k] == bytes[k]
    {
      seq(len, k requires 0 <= k < len => bytes[k])
    }
  }

  /** The bytes of a fragment by position. */
  function Placed(off: nat, body: seq<Byte>): map<nat, Byte>
  {
    map k | off <= k < off + |body| && InFragment(off, body, k) :: body[k - off]
  }

  predicate InFragment(off: nat, body: seq<Byte>, k: nat) { off <= k < off + |body| }

  /** The effect of a fragment on its message; one for a complete message is ignored. */
  function AddFragment(p: Partial, off: nat, body: seq<Byte>): Partial
  {
    if p.Complete() then p else p.(bytes := p.bytes + Placed(off, body))
  }

  predicate Within(start: nat, end: nat, k: nat) { start <= k < end }

  /** The positions from `start`, inclusive, to `end`, exclusive. */
  function Range(start: nat, end: nat): set<nat>
  {
    set k | start <= k < end && Within(start, end, k)
  }

  class HmFragment {
    var typ: nat
    var seqNo: nat
    var msgLen: nat
    var data: array<Byte>
    var reassembly: array?<bv8>

    /** The objects a fragment buffer is made of. */
    ghost function Foot(): set<object>
      reads this
    {
      if reassembly == null then {this, data}
      else
        var mask: array<bv8> := reassembly;
        {this, data, mask}
    }

    ghost predicate Valid()
      reads Foot()
    {
      && typ < 0x100 && seqNo < 0x1_0000 && msgLen < 0x100_0000
      && data.Length == HM_HEADER_LENGTH + msgLen
      && data[..HM_HEADER_LENGTH] == HeaderBytes(Header(typ, msgLen, seqNo, 0, msgLen))
      && (reassembly != null ==>
            && reassembly.Length == (msgLen + 7) / 8
            && (forall k :: msgLen <= k < 8 * reassembly.Length ==> !BitAt(reassembly[..], k))
            && exists k :: 0 <= k < msgLen && !BitAt(reassembly[..], k))
    }

    ghost function Got(): set<nat>
      requires Valid()
      reads Foot()
    {
      set k | 0 <= k < msgLen && (reassembly == null || BitAt(reassembly[..], k))
    }

    ghost function Abs(): Partial
      requires Valid()
      reads Foot()
    {
      Partial(typ, seqNo, msgLen, map k | k in Got() :: data[HM_HEADER_LENGTH + k])
    }

    /** A NULL mask stands for a complete message, and for nothing else. */
    lemma {:induction false} CompleteIsNull()
      requires Valid()
      ensures Abs().Complete() <==> reassembly == null
    {
      if reassembly != null {
        var k :| 0 <= k < msgLen && !BitAt(reassembly[..], k);
        assert k !in Abs().bytes;
      } else {
        assert forall k :: 0 <= k < msgLen ==> k in Abs().bytes;
      }
    }

    /** A complete buffer is its header and the message. */
    lemma {:induction false} CompleteParts()
      requires Valid() && reassembly == null
      ensures data.Length >= HM_HEADER_LENGTH
      ensures data[..] == HeaderBytes(Header(typ, msgLen, seqNo, 0, msgLen)) + data[HM_HEADER_LENGTH..]
      ensures Abs().Complete() && Abs().Body() == data[HM_HEADER_LENGTH..]
      ensures Header(typ, msgLen, seqNo, 0, msgLen).Encodable() && Abs().typ == typ && Abs().num == seqNo
              && Abs().len == msgLen
    {
      hide HeaderBytes;
      CompleteIsNull();
      assert data[..] == data[..HM_HEADER_LENGTH] + data[HM_HEADER_LENGTH..];
    }

    /** dtls1_hm_fragment_new: the header is written as that of one whole fragment. What the body
        holds before it is received is arbitrary. */
    constructor (hdr: Header)
      requires hdr.Encodable()
      ensures Valid() && fresh(Foot())
      ensures typ == hdr.typ && seqNo == hdr.num && msgLen == hdr.msgLen
      ensures Abs() == Partial(hdr.typ, hdr.num, hdr.msgLen, map[])
      ensures reassembly == null <==> hdr.msgLen == 0
    {
      typ, seqNo, msgLen := hdr.typ, hdr.num, hdr.msgLen;
      data := new Byte[HM_HEADER_LENGTH + hdr.msgLen];
      reassembly := null;
      new;
      var header := HeaderBytes(Header(hdr.typ, hdr.msgLen, hdr.num, 0, hdr.msgLen));
      for i := 0 to HM_HEADER_LENGTH
        invariant fresh(data) && data.Length == HM_HEADER_LENGTH + hdr.msgLen
        invariant data[..i] == header[..i]
        invariant typ == hdr.typ && seqNo == hdr.num && msgLen == hdr.msgLen && reassembly == null
      {
        data[i] := header[i];
      }
      if msgLen > 0 {
        reassembly := new bv8[(msgLen + 7) / 8](_ => 0);
        forall k | 0 <= k < 8 * reassembly.Length ensures !BitAt(reassembly[..], k) {
          NoBit(k % 8);
        }
        assert !BitAt(reassembly[..], 0);
      }
    }

    /** Setting the bits of a range: within one byte of the mask, or over a first, some whole and a
        last one. */
    static method SetBits(mask: array<bv8>, start: nat, end: nat)
      requires start < end <= 8 * mask.Length
      modifies mask
      ensures forall k :: 0 <= k < 8 * mask.Length ==>
              (BitAt(mask[..], k) <==> BitAt(old(mask[..]), k) || start <= k < end)
    {
      hide BitAt, BitRange;
      ghost var before := mask[..];
      if start / 8 == end / 8 {
        mask[start / 8] := mask[start / 8] | BitRange(start % 8, end % 8);
        MarkInside(before, start, end, mask[..]);
      } else {
        mask[start / 8] := mask[start / 8] | BitRange(start % 8, 8);
        ghost var first := mask[..];
        for i := start / 8 + 1 to end / 8
          invariant forall j :: 0 <= j < mask.Length ==> mask[j] == if start / 8 < j < i then 0xFF else first[j]
        {
          mask[i] := 0xFF;
        }
        ghost var middle := mask[..];
        if end % 8 != 0 {
          mask[end / 8] := mask[end / 8] | BitRange(0, end % 8);
        }
        MarkAcross(before, first, middle, start, end, mask[..]);
      }
    }

    /** dtls1_hm_fragment_mark: the bytes from `start` to `end` are received, and the mask goes
        when that completes the message. */
    method Mark(start: nat, end: nat)
      requires Valid() && reassembly != null && start <= end <= msgLen
      modifies this`reassembly, reassembly
      ensures Valid() && Foot() <= old(Foot())
      ensures Got() == old(Got()) + Range(start, end)
    {
      hide BitAt, BitRange, FullPrefix, HeaderBytes;
      if start == end {
        return;
      }
      var mask := reassembly;
      SetBits(mask, start, end);
      FullMeansAll(mask[..], msgLen);
      var full := IsFull(mask);
      if full {
        reassembly := null;
      }
    }

    /** The loop that checks for completeness. */
    method IsFull(mask: array<bv8>) returns (full: bool)
      requires mask.Length == (msgLen + 7) / 8
      ensures full <==> FullPrefix(mask[..], msgLen)
    {
      for i := 0 to msgLen / 8
        invariant forall j :: 0 <= j < i ==> mask[j] == 0xFF
      {
        if mask[i] != 0xFF {
          return false;
        }
      }
      if msgLen % 8 != 0 && mask[msgLen / 8] != BitRange(0, msgLen % 8) {
        return false;
      }
      return true;
    }

    /** The copy of a fragment's body into its place, and the mark: the end of
        dtls1_open_handshake's loop. */
    method Accept(off: nat, body: seq<Byte>)
      requires Valid() && reassembly != null && off + |body| <= msgLen
      modifies this`reassembly, data, reassembly
      ensures Valid() && Foot() <= old(Foot())
      ensures Abs() == AddFragment(old(Abs()), off, body)
    {
      hide BitAt, HeaderBytes;
      ghost var before, mask, was := data[..], reassembly[..], Abs();
      CompleteIsNull();
      for i := 0 to |body|
        invariant data == old(data) && reassembly == old(reassembly) && msgLen == old(msgLen)
        invariant reassembly[..] == mask
        invariant forall k :: 0 <= k < data.Length ==>
                    data[k] == if HM_HEADER_LENGTH + off <= k < HM_HEADER_LENGTH + off + i then
                        body[k - HM_HEADER_LENGTH - off] else before[k]
        modifies data
      {
        data[HM_HEADER_LENGTH + off + i] := body[i];
      }
      assert data[..HM_HEADER_LENGTH] == before[..HM_HEADER_LENGTH];
      ghost var now := data[..];
      Mark(off, off + |body|);
      BytesAfter(before, now, was.bytes, Abs().bytes, off, body);
    }
  }

  lemma {:induction false} BytesAfter(before: seq<Byte>, now: seq<Byte>, was: map<nat, Byte>, after: map<nat, Byte>,
      off: nat, body: seq<Byte>)
    requires HM_HEADER_LENGTH + off + |body| <= |before| == |now|
    requires forall k :: 0 <= k < |now| ==>
               now[k] == if HM_HEADER_LENGTH + off <= k < HM_HEADER_LENGTH + off + |body| then
                   body[k - HM_HEADER_LENGTH - off] else before[k]
    requires after.Keys == was.Keys + Range(off, off + |body|)
    requires forall k :: k in after ==> HM_HEADER_LENGTH + k < |now| && after[k] == now[HM_HEADER_LENGTH + k]
    requires forall k :: k in was ==> HM_HEADER_LENGTH + k < |now| && was[k] == before[HM_HEADER_LENGTH + k]
    ensures after == was + Placed(off, body)
  {
    var all := was + Placed(off, body);
    assert after.Keys == all.Keys;
    forall k | k in after ensures after[k] == all[k] {
    }
  }

  lemma {:induction false} NoBit(i: nat)
    requires i < 8
    ensures !Bit(0, i)
  {
  }

  lemma {:induction false} MarkInside(before: seq<bv8>, start: nat, end: nat, after: seq<bv8>)
    requires start / 8 == end / 8 < |before| && start < end
    requires after == before[start / 8 := before[start / 8] | BitRange(start % 8, end % 8)]
    ensures forall k :: 0 <= k < 8 * |before| ==> (BitAt(after, k) <==> BitAt(before, k) || start <= k < end)
  {
    forall k | 0 <= k < 8 * |before| ensures BitAt(after, k) <==> BitAt(before, k) || start <= k < end {
      OrRange(before, start / 8, start % 8, end % 8, k);
    }
  }

  /** The first byte and the whole bytes after it. */
  lemma {:induction false} WholeRange(start: nat, last: nat, k: nat)
    requires start / 8 < last
    ensures start <= k < 8 * last <==>
              (8 * (start / 8) + start % 8 <= k < 8 * (start / 8) + 8) || start / 8 < k / 8 < last
  {
  }

  lemma {:induction false} MarkWhole(before: seq<bv8>, first: seq<bv8>, middle: seq<bv8>, start: nat, last: nat, k: nat)
    requires start / 8 < last <= |before| && k < 8 * |before|
    requires first == before[start / 8 := before[start / 8] | BitRange(start % 8, 8)]
    requires |middle| == |before| && forall j :: 0 <= j < |before| ==>
             middle[j] == if start / 8 < j < last then 0xFF else first[j]
    ensures BitAt(middle, k) <==> BitAt(before, k) || start <= k < 8 * last
  {
    hide Bit, BitRange, BitAt;
    OrRange(before, start / 8, start % 8, 8, k);
    BitOf(middle, k);
    BitOf(first, k);
    AllOnes(k % 8);
    WholeRange(start, last, k);
  }

  lemma {:induction false} BitOf(mask: seq<bv8>, k: nat)
    requires k < 8 * |mask|
    ensures BitAt(mask, k) == Bit(mask[k / 8], k % 8)
  {
  }

  lemma {:induction false} MarkAcross(before: seq<bv8>, first: seq<bv8>, middle: seq<bv8>, start: nat, end: nat,
      after: seq<bv8>)
    requires start / 8 < end / 8 && start < end <= 8 * |before|
    requires first == before[start / 8 := before[start / 8] | BitRange(start % 8, 8)]
    requires |middle| == |before| && forall j :: 0 <= j < |before| ==>
             middle[j] == if start / 8 < j < end / 8 then 0xFF else first[j]
    requires after == if end % 8 != 0 then middle[end / 8 := middle[end / 8] | BitRange(0, end % 8)] else middle
    ensures forall k :: 0 <= k < 8 * |before| ==> (BitAt(after, k) <==> BitAt(before, k) || start <= k < end)
  {
    hide BitAt, BitRange;
    forall k | 0 <= k < 8 * |before| ensures BitAt(after, k) <==> BitAt(before, k) || start <= k < end {
      MarkWhole(before, first, middle, start, end / 8, k);
      if end % 8 != 0 {
        OrRange(middle, end / 8, 0, end % 8, k);
      }
    }
  }
}
