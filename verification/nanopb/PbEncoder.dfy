/** pb_encode.c: the encoder as it runs. Every method carries the contract of a writer
    (PbOutput.Step) for the bytes PbEncode gives its data, so it succeeds exactly when the
    data encodes and the stream is sizing or has room for all of it. */
module PbEncoder {
  import opened PbWire
  import opened PbSchema
  import opened PbEncode
  import opened PbOutput
  import opened PbIterator

  // ---------------------------------------------------------------- what a C struct can hold

  /** A slot of the shape its field's memory has, with encodings a size_t can count. Counts and
      byte lengths may still be out of their bounds. */
  ghost predicate Stored(t: Table, m: Struct)
    decreases t
  {
    forall i :: 0 <= i < |t| ==> StoredSlot(t[i], At(m, Offset(t, i)))
  }

  ghost predicate StoredSlot(f: Field, s: Slot)
    decreases f, 1
  {
    && (match f.htype
        case Required => s.One?
        case Optional => if f.sizeOffset == 0 then s.One? else s.Opt?
        case Repeated => s.Rep?
        case OneOf => s.NoArm? || s.Arm?)
    && (forall v :: v in View(f, s) ==> StoredValue(f, v))
    && (f.Packable() ==> Countable(EncodePacked(f, View(f, s))))
  }

  ghost predicate StoredValue(f: Field, v: Value)
    decreases f, 0
  {
    match f.ltype
    case Bytes => v.Blob? && |v.bs| < TWO64
    case String => v.Blob? && |v.bs| <= f.dataSize
    case Submessage(sub) => v.Msg? && Stored(sub, v.slots) && Countable(Encode(sub, v.slots))
    case FixedBytes => v.Blob? && |v.bs| == f.dataSize
    case _ => v.Int?
  }

  ghost predicate Countable(r: Option<seq<Byte>>)
  {
    r.Some? ==> |r.value| < TWO64
  }

  // ---------------------------------------------------------------- items

  /** pb_encode_tag_for_field. */
  method WriteTagForField(stream: OStream, f: Field) returns (ok: bool)
    requires stream.Valid() && WellFormedField(f)
    modifies stream, stream.buf
    ensures stream.Valid() && stream.Wrote(ok, Some(EncodeTag(WireType(f.ltype), f.tag)))
  {
    var wiretype: nat;
    match f.ltype {
      case Varint => wiretype := WT_VARINT;
      case UVarint => wiretype := WT_VARINT;
      case SVarint => wiretype := WT_VARINT;
      case Fixed32 => wiretype := WT_32BIT;
      case Fixed64 => wiretype := WT_64BIT;
      case _ => wiretype := WT_STRING;
    }
    ok := stream.WriteTag(wiretype, f.tag);
  }

  /** The length loop of pb_enc_string. */
  method StringLength(bs: seq<Byte>, maxSize: nat) returns (size: nat)
    requires |bs| <= maxSize
    ensures size <= |bs| && bs[..size] == CString(Take(bs, maxSize))
  {
    size := 0;
    while size < |bs| && bs[size] != 0
      invariant size <= |bs| && forall i :: 0 <= i < size ==> bs[i] != 0
    {
      size := size + 1;
    }
    CStringEnds(bs, size);
  }

  lemma {:induction false} CStringEnds(bs: seq<Byte>, size: nat)
    requires size <= |bs| && forall i :: 0 <= i < size ==> bs[i] != 0
    requires size < |bs| ==> bs[size] == 0
    ensures CString(bs) == bs[..size]
  {
    if size > 0 {
      CStringEnds(bs[1..], size - 1);
      assert bs[..size] == [bs[0]] + bs[1..][..size - 1];
    }
  }

  /** The PB_ENCODERS entry of the field's type. */
  method WriteItem(stream: OStream, f: Field, v: Value) returns (ok: bool)
    requires stream.Valid() && WellFormedField(f) && StoredValue(f, v)
    modifies stream, stream.buf
    ensures stream.Valid() && stream.Wrote(ok, EncodeValue(f, v))
    decreases f, 0
  {
    hide EncodeFrom, EncodeVarint, LittleEndian, Step, Stored, WellFormed, ValidValue;
    if f.ltype.Submessage? {
      ok := WriteSubmessage(stream, f.ltype.fields, v.slots);
    } else if f.ltype.Bytes? {
      if |v.bs| + BYTES_HEADER > f.dataSize {
        NoBytes(stream.Snap());
        return false;
      }
      ok := stream.WriteString(v.bs);
    } else if f.ltype.String? {
      var size := StringLength(v.bs, f.dataSize);
      ok := stream.WriteString(v.bs[..size]);
    } else if f.ltype.FixedBytes? {
      ok := stream.WriteString(v.bs);
    } else {
      ok := WriteNumber(stream, f, v);
    }
  }

  lemma {:induction false} NoBytes(a: Snapshot)
    ensures Step(a, a, false, None)
  {
  }

  /** pb_enc_varint, pb_enc_uvarint, pb_enc_svarint, pb_enc_fixed32 and pb_enc_fixed64. */
  method WriteNumber(stream: OStream, f: Field, v: Value) returns (ok: bool)
    requires stream.Valid() && f.Packable() && StoredValue(f, v)
    modifies stream, stream.buf
    ensures stream.Valid() && stream.Wrote(ok, EncodeValue(f, v))
  {
    hide EncodeVarint, LittleEndian, Step, ZigZag, Stored, WellFormed, ValidValue;
    if f.ltype.Fixed32? {
      ok := stream.WriteFixed(v.v % TWO32, 4);
    } else if f.ltype.Fixed64? {
      ok := stream.WriteFixed(v.v % TWO64, 8);
    } else if !IntSize(f.dataSize) {
      NoBytes(stream.Snap());
      return false;
    } else if f.ltype.SVarint? {
      ok := stream.WriteSvarint(v.v);
    } else {
      ok := stream.WriteVarint(U64(v.v));
    }
  }

  /** pb_encode_submessage: size the message with one stream, then write it with the same stream
      turned into a window of exactly that size on the caller's buffer. The second pass never
      finds another size. */
  method WriteSubmessage(stream: OStream, t: Table, m: Struct) returns (ok: bool)
    requires stream.Valid() && WellFormed(t) && Stored(t, m) && Countable(Encode(t, m))
    modifies stream, stream.buf
    ensures stream.Valid()
    ensures stream.Wrote(ok, match Encode(t, m) case None => None case Some(body) => Some(EncodeDelimited(body)))
    decreases t, 2
  {
    hide EncodeFrom, EncodeVarint, Stored, WellFormed, Step;
    ghost var a := stream.Snap();
    var substream := new OStream.Sizing();
    ghost var z := substream.Snap();
    ok := WriteMessage(substream, t, m);
    SizingStep(z, substream.Snap(), ok, Encode(t, m));
    if !ok {
      NoBytes(a);
      return;
    }
    ghost var body := Encode(t, m).value;
    var size := substream.bytesWritten;
    ok := stream.WriteVarint(size);
    ghost var b := stream.Snap();
    if !ok {
      StepFails(a, b, Some(EncodeVarint(size)), Some(body));
      return;
    }
    if stream.sizing {
      ok := stream.Count(size);
      CountStep(b, stream.Snap(), body);
    } else if stream.bytesWritten + size > stream.maxSize {
      NoRoom(b, body);
      ok := false;
    } else {
      ok := WriteBody(stream, substream, t, m);
    }
    StepCompose(a, b, stream.Snap(), ok, EncodeVarint(size), Some(body));
  }

  /** The second pass of pb_encode_submessage. */
  method WriteBody(stream: OStream, substream: OStream, t: Table, m: Struct) returns (ok: bool)
    requires stream.Valid() && WellFormed(t) && Stored(t, m) && substream != stream
    requires Encode(t, m).Some? && substream.bytesWritten == |Encode(t, m).value|
    requires !stream.sizing && stream.bytesWritten + |Encode(t, m).value| <= stream.maxSize
    modifies stream, stream.buf, substream
    ensures stream.Valid() && stream.Wrote(ok, Encode(t, m))
    decreases t, 1
  {
    hide EncodeFrom, Stored, WellFormed;
    ghost var a, body := stream.Snap(), Encode(t, m).value;
    var size := substream.bytesWritten;
    substream.sizing := stream.sizing;
    substream.buf := stream.buf;
    substream.state := stream.state;
    substream.maxSize := size;
    substream.bytesWritten := 0;
    ghost var w := substream.Snap();
    ok := WriteMessage(substream, t, m);
    stream.bytesWritten := stream.bytesWritten + substream.bytesWritten;
    stream.state := substream.state;
    if substream.bytesWritten != size {
      assert false;
    }
    ghost var gap := stream.maxSize - stream.bytesWritten;
    assert w.beyond[gap..] == a.beyond;
    assert substream.Beyond()[gap..] == stream.Beyond();
    WindowStep(a, stream.Snap(), body);
  }

  lemma {:induction false} CountStep(a: Snapshot, b: Snapshot, body: seq<Byte>)
    requires a.sizing && b == a.(written := a.written + |body|)
    ensures Step(a, b, true, Some(body))
  {
    assert a.before + [] == a.before;
  }

  lemma {:induction false} NoRoom(a: Snapshot, body: seq<Byte>)
    requires !Room(a, |body|)
    ensures Step(a, a, false, Some(body))
  {
  }

  lemma {:induction false} WindowStep(a: Snapshot, b: Snapshot, body: seq<Byte>)
    requires !a.sizing && Room(a, |body|)
    requires b == a.(written := a.written + |body|, before := a.before + body)
    ensures Step(a, b, true, Some(body))
  {
  }

  // ---------------------------------------------------------------- fields

  /** encode_array. Packed arrays are sized first, by a closed form for fixed-width words. */
  method WriteArray(stream: OStream, f: Field, s: Slot) returns (ok: bool)
    requires stream.Valid() && WellFormedField(f) && f.htype.Repeated? && StoredSlot(f, s)
    modifies stream, stream.buf
    ensures stream.Valid() && stream.Wrote(ok, EncodeField(f, s))
    decreases f, 2
  {
    hide Step, EncodeTagged, EncodePacked, WellFormed, ValidValue, StoredValue, EncodeVarint;
    var items := s.items;
    if |items| == 0 {
      NothingStep(stream);
      return true;
    }
    if |items| > f.arraySize {
      NoBytes(stream.Snap());
      return false;
    }
    if f.Packable() {
      ok := WritePacked(stream, f, items);
    } else {
      ok := WriteTagged(stream, f, items);
    }
  }

  lemma {:induction false} NothingStep(stream: OStream)
    requires stream.Valid()
    ensures Step(stream.Snap(), stream.Snap(), true, Some([]))
  {
    StepNothing(stream.Snap());
  }

  /** Items each under its own tag: the unpacked case of encode_array, and the single item of
      any other field. */
  method WriteTagged(stream: OStream, f: Field, items: seq<Value>) returns (ok: bool)
    requires stream.Valid() && WellFormedField(f) && forall v :: v in items ==> StoredValue(f, v)
    modifies stream, stream.buf
    ensures stream.Valid() && stream.Wrote(ok, EncodeTagged(f, items))
    decreases f, 1
  {
    hide Step, EncodeValue, WellFormed, ValidValue, StoredValue, EncodeVarint, WellFormedField;
    ghost var a := stream.Snap();
    ghost var done: seq<Byte> := [];
    NothingStep(stream);
    assert items[0..] == items;
    AppendNothing(EncodeTagged(f, items));
    for i := 0 to |items|
      invariant stream.Valid() && stream.buf == old(stream.buf)
      invariant Step(a, stream.Snap(), true, Some(done))
      invariant EncodeTagged(f, items) == Append(Some(done), EncodeTagged(f, items[i..]))
    {
      ghost var b := stream.Snap();
      ghost var tag, val, rest := Some(EncodeTag(WireType(f.ltype), f.tag)), EncodeValue(f, items[i]),
          EncodeTagged(f, items[i + 1..]);
      assert items[i..][1..] == items[i + 1..];
      assert EncodeTagged(f, items[i..]) == Append(Append(tag, val), rest);
      ok := WriteTagForField(stream, f);
      ghost var c := stream.Snap();
      if ok {
        ok := WriteItem(stream, f, items[i]);
        StepCompose(b, c, stream.Snap(), ok, tag.value, val);
      } else {
        StepFails(b, c, tag, val);
      }
      done := StepNext(a, b, stream.Snap(), ok, done, Append(tag, val), rest, EncodeTagged(f, items));
      if !ok {
        return;
      }
    }
    assert items[|items|..] == [];
    AppendNothing(Some(done));
    ok := true;
  }

  /** One more part of a whole written, or not. */
  lemma {:induction false} StepNext(
    a: Snapshot, b: Snapshot, c: Snapshot, ok: bool,
    done: seq<Byte>, x: Option<seq<Byte>>, rest: Option<seq<Byte>>, all: Option<seq<Byte>>)
    returns (done': seq<Byte>)
    requires Step(a, b, true, Some(done)) && Step(b, c, ok, x) && all == Append(Some(done), Append(x, rest))
    ensures !ok ==> Step(a, c, false, all)
    ensures ok ==> Step(a, c, true, Some(done')) && all == Append(Some(done'), rest)
  {
    done' := done;
    if ok {
      StepCompose(a, b, c, true, done, x);
      AppendAssociative(done, x, rest);
      done' := done + x.value;
    } else {
      StepFails(b, c, x, rest);
      StepCompose(a, b, c, false, done, Append(x, rest));
    }
  }

  lemma {:induction false} AppendAssociative(x: seq<Byte>, y: Option<seq<Byte>>, z: Option<seq<Byte>>)
    requires y.Some?
    ensures Append(Some(x), Append(y, z)) == Append(Some(x + y.value), z)
  {
    if z.Some? {
      assert x + (y.value + z.value) == x + y.value + z.value;
    }
  }

  lemma {:induction false} AppendNothing(x: Option<seq<Byte>>)
    ensures Append(Some([]), x) == x && Append(x, Some([])) == x
  {
    if x.Some? {
      assert [] + x.value == x.value && x.value + [] == x.value;
    }
  }

  /** The items of a packed array, onto a sizing stream or the real one. */
  method WriteItems(stream: OStream, f: Field, items: seq<Value>) returns (ok: bool)
    requires stream.Valid() && f.Packable() && forall v :: v in items ==> StoredValue(f, v)
    modifies stream, stream.buf
    ensures stream.Valid() && stream.Wrote(ok, EncodePacked(f, items))
  {
    hide Step, EncodeValue, WellFormed, ValidValue, StoredValue, WellFormedField;
    ghost var a := stream.Snap();
    ghost var done: seq<Byte> := [];
    NothingStep(stream);
    assert items[0..] == items;
    AppendNothing(EncodePacked(f, items));
    for i := 0 to |items|
      invariant stream.Valid() && stream.buf == old(stream.buf)
      invariant Step(a, stream.Snap(), true, Some(done))
      invariant EncodePacked(f, items) == Append(Some(done), EncodePacked(f, items[i..]))
    {
      ghost var b := stream.Snap();
      ghost var val, rest := EncodeValue(f, items[i]), EncodePacked(f, items[i + 1..]);
      assert items[i..][1..] == items[i + 1..];
      assert EncodePacked(f, items[i..]) == Append(val, rest);
      ok := WriteNumber(stream, f, items[i]);
      done := StepNext(a, b, stream.Snap(), ok, done, val, rest, EncodePacked(f, items));
      if !ok {
        return;
      }
    }
    assert items[|items|..] == [];
    AppendNothing(Some(done));
    ok := true;
  }

  /** The size of a packed array: a closed form for fixed-width words, a sizing pass for others. */
  method PackedSize(f: Field, items: seq<Value>) returns (ok: bool, size: nat)
    requires WellFormedField(f) && f.Packable() && forall v :: v in items ==> StoredValue(f, v)
    requires Countable(EncodePacked(f, items))
    ensures ok <==> EncodePacked(f, items).Some?
    ensures ok ==> size == |EncodePacked(f, items).value|
  {
    hide EncodePacked, WellFormed, WellFormedField, ValidValue, StoredValue, Step;
    if f.ltype.Fixed32? {
      FixedItems(f, items);
      return true, 4 * |items|;
    } else if f.ltype.Fixed64? {
      FixedItems(f, items);
      return true, 8 * |items|;
    }
    var sizestream := new OStream.Sizing();
    ghost var z := sizestream.Snap();
    ok := WriteItems(sizestream, f, items);
    SizingStep(z, sizestream.Snap(), ok, EncodePacked(f, items));
    size := sizestream.bytesWritten;
  }

  /** The packed case of encode_array. */
  method WritePacked(stream: OStream, f: Field, items: seq<Value>) returns (ok: bool)
    requires stream.Valid() && WellFormedField(f) && f.Packable() && forall v :: v in items ==> StoredValue(f, v)
    requires Countable(EncodePacked(f, items))
    modifies stream, stream.buf
    ensures stream.Valid()
    ensures stream.Wrote(ok, match EncodePacked(f, items)
                             case None => None
                             case Some(body) => Some(EncodeTag(WT_STRING, f.tag) + EncodeDelimited(body)))
  {
    hide EncodePacked, EncodeVarint, WellFormed, ValidValue, StoredValue, Step, EncodeDelimited, EncodeTag;
    TagBound(f);
    hide WellFormedField;
    ghost var a := stream.Snap();
    ghost var tag := EncodeTag(WT_STRING, f.tag);
    ghost var body := EncodePacked(f, items);
    ghost var delimited := match body case None => None case Some(bs) => Some(EncodeDelimited(bs));
    ok := stream.WriteTag(WT_STRING, f.tag);
    ghost var b := stream.Snap();
    if !ok {
      StepFails(a, b, Some(tag), delimited);
      return;
    }
    var size: nat;
    ok, size := PackedSize(f, items);
    if !ok {
      NoBytes(b);
      StepCompose(a, b, b, false, tag, delimited);
      return;
    }
    ok := stream.WriteVarint(size);
    ghost var c := stream.Snap();
    if !ok {
      StepFails(b, c, Some(EncodeVarint(size)), body);
      DelimitedIs(body.value);
      StepCompose(a, b, c, false, tag, delimited);
      return;
    }
    if stream.sizing {
      ok := stream.Count(size);
      CountStep(c, stream.Snap(), body.value);
    } else {
      ok := WriteItems(stream, f, items);
    }
    StepCompose(b, c, stream.Snap(), ok, EncodeVarint(size), body);
    DelimitedIs(body.value);
    StepCompose(a, b, stream.Snap(), ok, tag, delimited);
  }

  lemma {:induction false} DelimitedIs(body: seq<Byte>)
    ensures Append(Some(EncodeVarint(|body|)), Some(body)) == Some(EncodeDelimited(body))
  {
  }

  lemma {:induction false} TagBound(f: Field)
    requires WellFormedField(f)
    ensures f.tag * 8 + 7 < TWO32
  {
  }

  lemma {:induction false} SizingStep(a: Snapshot, b: Snapshot, ok: bool, x: Option<seq<Byte>>)
    requires a.sizing && Step(a, b, ok, x)
    ensures ok <==> x.Some?
    ensures ok ==> b.written == a.written + |x.value|
  {
  }

  lemma {:induction false} FixedItems(f: Field, items: seq<Value>)
    requires (f.ltype.Fixed32? || f.ltype.Fixed64?) && forall v :: v in items ==> StoredValue(f, v)
    ensures EncodePacked(f, items).Some?
    ensures |EncodePacked(f, items).value| == (if f.ltype.Fixed32? then 4 else 8) * |items|
  {
    FixedEncodes(f, items);
    FixedPackedSize(f, items);
  }

  lemma {:induction false} FixedEncodes(f: Field, items: seq<Value>)
    requires (f.ltype.Fixed32? || f.ltype.Fixed64?) && forall v :: v in items ==> StoredValue(f, v)
    ensures EncodePacked(f, items).Some?
  {
    if items != [] {
      assert StoredValue(f, items[0]);
      FixedEncodes(f, items[1..]);
    }
  }

  /** encode_basic_field, on static fields. */
  method WriteField(stream: OStream, f: Field, s: Slot) returns (ok: bool)
    requires stream.Valid() && WellFormedField(f) && StoredSlot(f, s)
    modifies stream, stream.buf
    ensures stream.Valid() && stream.Wrote(ok, EncodeField(f, s))
    decreases f, 3
  {
    hide Step, EncodeTagged, EncodePacked, WellFormed, ValidValue, StoredValue;
    var present: bool, items: seq<Value> := true, [];
    match f.htype {
      case Required =>
        items := [s.v];
      case Optional =>
        if f.sizeOffset != 0 {
          present := s.has;
        } else {
          present := !IsDefault(f, s.v);
        }
        items := [s.v];
      case Repeated =>
        ok := WriteArray(stream, f, s);
        return;
      case OneOf =>
        present := s.Arm? && s.which == f.tag;
        if present {
          items := [s.v];
        }
    }
    if !present {
      items := [];
    }
    assert items == View(f, s);
    ok := WriteTagged(stream, f, items);
  }

  // ---------------------------------------------------------------- messages

  /** pb_encode. */
  method WriteMessage(stream: OStream, t: Table, m: Struct) returns (ok: bool)
    requires stream.Valid() && WellFormed(t) && Stored(t, m)
    modifies stream, stream.buf
    ensures stream.Valid() && stream.Wrote(ok, Encode(t, m))
    decreases t, 0
  {
    hide Step, EncodeField, EncodeFrom, WellFormed, WellFormedField, Stored, StoredSlot, Offset, ReqIndex, SizeAt,
      Joins, FieldAt, FieldIter.Valid, OStream.Snap;
    ghost var a := stream.Snap();
    NothingStep(stream);
    TagsNonZero(t);
    var iter := new FieldIter();
    var more := iter.Begin(t, 0);
    NoMoreFields(t, m);
    if !more {
      return true;
    }
    ghost var done: seq<Byte> := [];
    AppendNothing(Encode(t, m));
    while more
      invariant stream.Valid() && stream.buf == old(stream.buf)
      invariant iter.Valid() && iter.start == t && iter.dest == 0
      invariant Step(a, stream.Snap(), true, Some(done))
      invariant more ==> iter.pos < |t| && Encode(t, m) == Append(Some(done), EncodeFrom(t, m, iter.pos))
      invariant !more ==> Encode(t, m) == Some(done)
      decreases if more then |t| - iter.pos else 0
    {
      ghost var b := stream.Snap();
      var i := iter.pos;
      StoredAt(t, m, i);
      iter.PointsAt();
      FieldFirst(t, m, i);
      ghost var field, rest := EncodeField(t[i], At(m, Offset(t, i))), EncodeFrom(t, m, i + 1);
      ok := WriteField(stream, t[i], At(m, iter.pData));
      done := StepNext(a, b, stream.Snap(), ok, done, field, rest, Encode(t, m));
      if !ok {
        return;
      }
      AppendNothing(Some(done));
      more := iter.Next();
    }
    return true;
  }

  lemma {:induction false} FieldFirst(t: Table, m: Struct, i: nat)
    requires i < |t|
    ensures EncodeFrom(t, m, i) == Append(EncodeField(t[i], At(m, Offset(t, i))), EncodeFrom(t, m, i + 1))
  {
  }

  lemma {:induction false} NoMoreFields(t: Table, m: Struct)
    ensures EncodeFrom(t, m, |t|) == Some([]) && Encode(t, m) == EncodeFrom(t, m, 0)
  {
  }

  lemma {:induction false} StoredAt(t: Table, m: Struct, i: nat)
    requires WellFormed(t) && Stored(t, m) && i < |t|
    ensures WellFormedField(t[i]) && StoredSlot(t[i], At(m, Offset(t, i)))
  {
  }

  lemma {:induction false} TagsNonZero(t: Table)
    requires WellFormed(t)
    ensures forall f :: f in t ==> f.tag != 0
  {
    forall i | 0 <= i < |t| ensures t[i].tag != 0 {
      assert WellFormedField(t[i]);
    }
  }

  /** pb_get_encoded_size: the number of bytes pb_encode would write. */
  method EncodedSize(t: Table, m: Struct) returns (ok: bool, size: nat)
    requires WellFormed(t) && Stored(t, m)
    ensures ok <==> Encode(t, m).Some?
    ensures ok ==> size == |Encode(t, m).value|
  {
    var stream := new OStream.Sizing();
    ghost var a := stream.Snap();
    ok := WriteMessage(stream, t, m);
    SizingStep(a, stream.Snap(), ok, Encode(t, m));
    size := stream.bytesWritten;
  }

  /** Sizing equals writing: into a fresh buffer the encoder succeeds exactly when the size it
      would report fits, and then fills exactly that much of it. */
  method EncodeToBuffer(buffer: array<Byte>, bufsize: nat, t: Table, m: Struct) returns (ok: bool, written: nat)
    requires bufsize <= buffer.Length && WellFormed(t) && Stored(t, m)
    modifies buffer
    ensures ok <==> Encode(t, m).Some? && |Encode(t, m).value| <= bufsize
    ensures ok ==> written == |Encode(t, m).value| && buffer[..written] == Encode(t, m).value
    ensures buffer[bufsize..] == old(buffer[bufsize..])
  {
    var stream := new OStream.FromBuffer(buffer, bufsize);
    ok := WriteMessage(stream, t, m);
    written := stream.bytesWritten;
    assert buffer[stream.state + (bufsize - written)..] == old(buffer[bufsize..]);
    assert stream.Out() == if ok then [] + Encode(t, m).value else stream.Out();
  }
}
