/** Handshake fragments on the wire: the 12-byte header of section 4.2.2 of RFC 6347 and
    the body behind it. */
module DtlsWire {

  type Byte = x: int | 0 <= x < 256

  datatype Option<+T> = None | Some(value: T)

  const HM_HEADER_LENGTH: nat := 12

  /** hm_header_st. */
  datatype Header = Header(typ: nat, msgLen: nat, num: nat, fragOff: nat, fragLen: nat)
  {
    predicate Encodable()
    {
      typ < 0x100 && msgLen < 0x100_0000 && num < 0x1_0000 && fragOff < 0x100_0000 && fragLen < 0x100_0000
    }
  }

  function U24(v: nat): (bs: seq<Byte>)
    requires v < 0x100_0000
    ensures |bs| == 3
  {
    [v / 0x1_0000, v / 0x100 % 0x100, v % 0x100]
  }

  function U16(v: nat): (bs: seq<Byte>)
    requires v < 0x1_0000
    ensures |bs| == 2
  {
    [v / 0x100, v % 0x100]
  }

  function GetU24(bs: seq<Byte>, at: nat): nat
    requires at + 3 <= |bs|
  {
    0x1_0000 * (bs[at] as int) + 0x100 * (bs[at + 1] as int) + bs[at + 2] as int
  }

  function GetU16(bs: seq<Byte>, at: nat): nat
    requires at + 2 <= |bs|
  {
    0x100 * (bs[at] as int) + bs[at + 1] as int
  }

  function HeaderBytes(h: Header): (bs: seq<Byte>)
    requires h.Encodable()
    ensures |bs| == HM_HEADER_LENGTH
  {
    [h.typ] + U24(h.msgLen) + U16(h.num) + U24(h.fragOff) + U24(h.fragLen)
  }

  /** A handshake message; message number `n` of a sender is element `n` of its messages. */
  datatype Msg = Msg(typ: nat, body: seq<Byte>)

  datatype Fragment = Fragment(hdr: Header, body: seq<Byte>)

  function FragmentBytes(f: Fragment): seq<Byte>
    requires f.hdr.Encodable()
  {
    HeaderBytes(f.hdr) + f.body
  }

  /** dtls1_parse_fragment: one fragment and what follows it. */
  function ParseFragment(bs: seq<Byte>): (r: Option<(Fragment, seq<Byte>)>)
    ensures r.Some? ==> |r.value.1| < |bs| && r.value.0.hdr.Encodable() && |r.value.0.body| == r.value.0.hdr.fragLen
  {
    if |bs| < HM_HEADER_LENGTH then None
    else
      var h := Header(bs[0], GetU24(bs, 1), GetU16(bs, 4), GetU24(bs, 6), GetU24(bs, 9));
      if |bs| < HM_HEADER_LENGTH + h.fragLen then None
      else Some((Fragment(h, bs[12..12 + h.fragLen]), bs[12 + h.fragLen..]))
  }

  /** Parsing undoes writing, whatever follows. */
  lemma {:induction false} FragmentRoundTrip(f: Fragment, more: seq<Byte>)
    requires f.hdr.Encodable() && |f.body| == f.hdr.fragLen
    ensures ParseFragment(FragmentBytes(f) + more) == Some((f, more))
  {
    var h, bs := f.hdr, FragmentBytes(f) + more;
    assert bs[0] == h.typ;
    assert bs[1..4] == U24(h.msgLen) && bs[4..6] == U16(h.num) && bs[6..9] == U24(h.fragOff)
        && bs[9..12] == U24(h.fragLen);
    U24At(bs, 1, h.msgLen);
    U24At(bs, 6, h.fragOff);
    U24At(bs, 9, h.fragLen);
    U16At(bs, 4, h.num);
    assert bs[12..12 + h.fragLen] == f.body;
    assert bs[12 + h.fragLen..] == more;
  }

  lemma {:induction false} U24At(bs: seq<Byte>, at: nat, v: nat)
    requires v < 0x100_0000 && at + 3 <= |bs| && bs[at..at + 3] == U24(v)
    ensures GetU24(bs, at) == v
  {
    assert bs[at] == bs[at..at + 3][0] && bs[at + 1] == bs[at..at + 3][1] && bs[at + 2] == bs[at..at + 3][2];
  }

  lemma {:induction false} U16At(bs: seq<Byte>, at: nat, v: nat)
    requires v < 0x1_0000 && at + 2 <= |bs| && bs[at..at + 2] == U16(v)
    ensures GetU16(bs, at) == v
  {
    assert bs[at] == bs[at..at + 2][0] && bs[at + 1] == bs[at..at + 2][1];
  }
}
