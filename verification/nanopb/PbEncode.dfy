/** pb_encode as a function: the bytes of a struct under a table, or None where the
    encoder reports a data error. A full stream is not an error here; see PbOutput. */
module PbEncode {
  import opened PbWire
  import opened PbSchema

  function WireType(l: LType): nat
  {
    match l
    case Varint => WT_VARINT
    case UVarint => WT_VARINT
    case SVarint => WT_VARINT
    case Fixed32 => WT_32BIT
    case Fixed64 => WT_64BIT
    case _ => WT_STRING
  }

  function Take(bs: seq<Byte>, n: nat): seq<Byte>
  {
    if |bs| <= n then bs else bs[..n]
  }

  /** The payload of one item, without its tag. */
  function EncodeValue(f: Field, v: Value): (r: Option<seq<Byte>>)
    decreases f, 0
  {
    match f.ltype
    case Varint => if v.Int? && IntSize(f.dataSize) then Some(EncodeVarint(U64(v.v))) else None
    case UVarint => if v.Int? && IntSize(f.dataSize) then Some(EncodeVarint(U64(v.v))) else None
    case SVarint => if v.Int? && IntSize(f.dataSize) then Some(EncodeVarint(ZigZag(v.v))) else None
    case Fixed32 => if v.Int? then Some(LittleEndian(v.v % TWO32, 4)) else None
    case Fixed64 => if v.Int? then Some(LittleEndian(v.v % TWO64, 8)) else None
    case Bytes => if v.Blob? && |v.bs| + BYTES_HEADER <= f.dataSize then Some(EncodeDelimited(v.bs)) else None
    case String => if v.Blob? then Some(EncodeDelimited(CString(Take(v.bs, f.dataSize)))) else None
    case Submessage(sub) =>
      if !v.Msg? then None else
      (match EncodeFrom(sub, v.slots, 0)
       case None => None
       case Some(body) => Some(EncodeDelimited(body)))
    case FixedBytes => if v.Blob? && |v.bs| == f.dataSize then Some(EncodeDelimited(v.bs)) else None
  }

  /** The items of a packed array, one after another. */
  function EncodePacked(f: Field, items: seq<Value>): Option<seq<Byte>>
    decreases f, 1, |items|
  {
    if items == [] then Some([]) else Append(EncodeValue(f, items[0]), EncodePacked(f, items[1..]))
  }

  /** Items each under a tag of its own. */
  function EncodeTagged(f: Field, items: seq<Value>): Option<seq<Byte>>
    decreases f, 1, |items|
  {
    if items == [] then Some([])
    else Append(Append(Some(EncodeTag(WireType(f.ltype), f.tag)), EncodeValue(f, items[0])),
        EncodeTagged(f, items[1..]))
  }

  function Append(a: Option<seq<Byte>>, b: Option<seq<Byte>>): (r: Option<seq<Byte>>)
    ensures r.Some? <==> a.Some? && b.Some?
  {
    if a.Some? && b.Some? then Some(a.value + b.value) else None
  }

  function EncodeField(f: Field, s: Slot): Option<seq<Byte>>
    decreases f, 2
  {
    var items := View(f, s);
    if !f.htype.Repeated? then EncodeTagged(f, items)
    else if items == [] then Some([])
    else if |items| > f.arraySize then None
    else if f.Packable() then
      (match EncodePacked(f, items)
       case None => None
       case Some(body) => Some(EncodeTag(WT_STRING, f.tag) + EncodeDelimited(body)))
    else EncodeTagged(f, items)
  }

  /** The fields of a message from field `i` on. */
  function EncodeFrom(t: Table, m: Struct, i: nat): Option<seq<Byte>>
    requires i <= |t|
    decreases t, 0, |t| - i
  {
    if i == |t| then Some([]) else Append(EncodeField(t[i], At(m, Offset(t, i))), EncodeFrom(t, m, i + 1))
  }

  function Encode(t: Table, m: Struct): Option<seq<Byte>>
  {
    EncodeFrom(t, m, 0)
  }

  /** A valid struct always encodes. */
  lemma {:induction false} ValidEncodes(t: Table, m: Struct, i: nat)
    requires ValidStruct(t, m) && WellFormed(t) && i <= |t|
    ensures EncodeFrom(t, m, i).Some?
    decreases t, 2, |t| - i
  {
    hide EncodeField, ValidStruct, WellFormed;
    if i < |t| {
      ValidParts(t, m, i);
      ValidFieldEncodes(t[i], At(m, Offset(t, i)));
      ValidEncodes(t, m, i + 1);
    }
  }

  lemma {:induction false} ValidParts(t: Table, m: Struct, i: nat)
    requires ValidStruct(t, m) && WellFormed(t) && i < |t|
    ensures WellFormedField(t[i]) && ValidSlot(t[i], At(m, Offset(t, i)))
  {
  }

  lemma {:induction false} ValidFieldEncodes(f: Field, s: Slot)
    requires WellFormedField(f) && ValidSlot(f, s)
    ensures EncodeField(f, s).Some?
    decreases f, 2
  {
    assert forall v :: v in View(f, s) ==> ValidValue(f, v);
    ValidItemsEncode(f, View(f, s));
  }

  lemma {:induction false} ValidItemsEncode(f: Field, items: seq<Value>)
    requires WellFormedField(f) && forall v :: v in items ==> ValidValue(f, v)
    ensures EncodePacked(f, items).Some? && EncodeTagged(f, items).Some?
    decreases f, 1, |items|
  {
    if items != [] {
      ValidValueEncodes(f, items[0]);
      ValidItemsEncode(f, items[1..]);
    }
  }

  lemma {:induction false} ValidValueEncodes(f: Field, v: Value)
    requires WellFormedField(f) && ValidValue(f, v)
    ensures EncodeValue(f, v).Some?
    decreases f, 0
  {
    if f.ltype.Submessage? {
      ValidEncodes(f.ltype.fields, v.slots, 0);
    }
  }

  /** The closed forms the encoder uses for the size of a packed array of fixed-width words. */
  lemma {:induction false} FixedPackedSize(f: Field, items: seq<Value>)
    requires f.ltype.Fixed32? || f.ltype.Fixed64?
    requires EncodePacked(f, items).Some?
    ensures |EncodePacked(f, items).value| == (if f.ltype.Fixed32? then 4 else 8) * |items|
  {
    if items != [] {
      FixedPackedSize(f, items[1..]);
    }
  }
}
