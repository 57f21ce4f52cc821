/** pb_decode as a function from bytes to structs, on arbitrary bytes. */
module PbDecode {
  import opened PbWire
  import opened PbSchema

  /** The struct so far and the indices of the required fields met so far. */
  datatype State = State(m: Struct, seen: set<nat>)

  /** How the loop over the fields ended: with the input used up at a field boundary, at a
      zero or truncated tag with some bytes unread, or with an error. */
  datatype Outcome = Done(st: State) | Stopped(st: State, left: seq<Byte>) | Failed

  // ---------------------------------------------------------------- single values

  /** pb_dec_varint, pb_dec_uvarint and pb_dec_svarint: a 64-bit varint that must fit the
      member. A varint member of at most 32 bits takes the value as an int32 first. */
  function FitInteger(f: Field, u: nat): Option<Value>
    requires u < TWO64
  {
    if !IntSize(f.dataSize) then None
    else match f.ltype
         case Varint =>
           var s := if f.dataSize == 8 then Signed(8, u) else Signed(4, u);
           if Signed(f.dataSize, s) == s then Some(Int(s)) else None
         case UVarint => if Unsigned(f.dataSize, u) == u then Some(Int(u)) else None
         case _ =>
           var s := UnZigZag(u);
           if Signed(f.dataSize, s) == s then Some(Int(s)) else None
  }

  function ParseInteger(f: Field, input: seq<Byte>): (r: Parsed<Value>)
    ensures r.Ok? ==> |r.rest| < |input|
  {
    match ParseVarint64(input)
    case Err(left) => Err(left)
    case Ok(u, rest) =>
      match FitInteger(f, u)
      case None => Err(rest)
      case Some(v) => Ok(v, rest)
  }

  function ParseFixed(input: seq<Byte>, n: nat): (r: Parsed<Value>)
    ensures r.Ok? ==> |r.rest| == |input| - n
  {
    match ParseRaw(input, n)
    case Err(left) => Err(left)
    case Ok(bs, rest) => Ok(Int(FromLittleEndian(bs)), rest)
  }

  function ParseBlob(f: Field, input: seq<Byte>): (r: Parsed<Value>)
    ensures r.Ok? ==> |r.rest| < |input|
  {
    match ParseVarint32(input)
    case Err(left) => Err(left)
    case Ok(n, rest) =>
      if f.ltype.Bytes? && (n > PB_SIZE_MAX || n + BYTES_HEADER > f.dataSize) then Err(rest)
      else if f.ltype.String? && (n == TWO32 - 1 || n + 1 > f.dataSize) then Err(rest)
      else if f.ltype.FixedBytes? && n > PB_SIZE_MAX then Err(rest)
      else if f.ltype.FixedBytes? && n == 0 then Ok(Blob(Zeros(f.dataSize)), rest)
      else if f.ltype.FixedBytes? && n != f.dataSize then Err(rest)
      else match ParseRaw(rest, n)
           case Err(left) => Err(left)
           case Ok(bs, rest') => Ok(Blob(bs), rest')
  }

  function ParseLeaf(f: Field, input: seq<Byte>): (r: Parsed<Value>)
    requires !f.ltype.Submessage?
    ensures r.Ok? ==> |r.rest| < |input|
  {
    match f.ltype
    case Fixed32 => ParseFixed(input, 4)
    case Fixed64 => ParseFixed(input, 8)
    case Bytes => ParseBlob(f, input)
    case String => ParseBlob(f, input)
    case FixedBytes => ParseBlob(f, input)
    case _ => ParseInteger(f, input)
  }

  /** The items of a packed array, appended to those already there. */
  function ParsePacked(f: Field, items: seq<Value>, body: seq<Byte>): (r: Option<seq<Value>>)
    requires f.Packable()
    decreases |body|
  {
    if body == [] then Some(items)
    else if |items| >= f.arraySize then None
    else match ParseLeaf(f, body)
         case Err(_) => None
         case Ok(v, rest) => ParsePacked(f, items + [v], rest)
  }

  function Slots(v: Value): Struct
  {
    if v.Msg? then v.slots else map[]
  }

  /** What a single member held before; a submessage is decoded on top of it. */
  function Held(s: Slot): Value
  {
    match s
    case One(v) => v
    case Opt(_, v) => v
    case _ => Int(0)
  }

  function Items(s: Slot): seq<Value>
  {
    if s.Rep? then s.items else []
  }

  // ---------------------------------------------------------------- fields and messages

  /** One item: the PB_DECODERS entry of the field's type. New array entries and oneof
      arms start from their defaults, other submessages from what is there. */
  function ParseValue(f: Field, prior: Value, input: seq<Byte>): (r: Parsed<Value>)
    ensures r.Ok? ==> |r.rest| < |input|
    decreases |input|, 0
  {
    match f.ltype
    case Submessage(sub) =>
      (match ParseDelimited(input)
       case Err(left) => Err(left)
       case Ok(body, rest) =>
         var start := if f.htype.Repeated? || f.htype.OneOf? then Default(sub) else Slots(prior);
         match DecodeNoInit(sub, start, body)
         case None => Err(rest)
         case Some(m) => Ok(Msg(m), rest))
    case _ => ParseLeaf(f, input)
  }

  /** decode_static_field. The wire type only matters for telling a packed array. */
  function ParseField(f: Field, wiretype: nat, s: Slot, input: seq<Byte>): (r: Parsed<Slot>)
    ensures r.Ok? ==> |r.rest| < |input|
    decreases |input|, 1
  {
    if f.htype.Repeated? && wiretype == WT_STRING && f.Packable() then
      (match ParseDelimited(input)
       case Err(left) => Err(left)
       case Ok(body, rest) =>
         match ParsePacked(f, Items(s), body)
         case None => Err(rest)
         case Some(items) => Ok(Rep(items), rest))
    else if f.htype.Repeated? && |Items(s)| >= f.arraySize then Err(input)
    else match ParseValue(f, Held(s), input)
         case Err(left) => Err(left)
         case Ok(v, rest) => Ok(Store(f, s, v), rest)
  }

  function Store(f: Field, s: Slot, v: Value): Slot
  {
    match f.htype
    case Required => One(v)
    case Optional => if f.sizeOffset == 0 then One(v) else Opt(true, v)
    case Repeated => Rep(Items(s) + [v])
    case OneOf => Arm(f.tag, v)
  }

  /** The effect of meeting field `i`. */
  function Meet(t: Table, st: State, i: nat, s: Slot): State
    requires i < |t|
  {
    State(st.m[Offset(t, i) := s], if t[i].htype.Required? then st.seen + {ReqIndex(t, i)} else st.seen)
  }

  /** The loop of pb_decode_noinit. On an empty table a zero tag finds the terminator
      itself, which has no data size to decode into. */
  function Loop(t: Table, st: State, input: seq<Byte>): Outcome
    decreases |input|, 2
  {
    if input == [] then Done(st)
    else match ParseTag(input)
         case BadTag => Failed
         case Eof(left) => Stopped(st, left)
         case Tag(wiretype, tag, rest) =>
           var i := Find(t, tag);
           if t == [] && tag == 0 then Failed
           else if i == |t| then
             (match Skip(wiretype, rest)
              case None => Failed
              case Some(rest') => Loop(t, st, rest'))
           else
             (match ParseField(t[i], wiretype, At(st.m, Offset(t, i)), rest)
              case Err(_) => Failed
              case Ok(s, rest') => Loop(t, Meet(t, st, i, s), rest'))
  }

  predicate AllSeen(t: Table, seen: set<nat>)
  {
    forall n :: 0 <= n < ReqIndex(t, |t|) ==> n in seen
  }

  function Conclude(t: Table, o: Outcome): Option<Struct>
  {
    if o.Failed? || !AllSeen(t, o.st.seen) then None else Some(o.st.m)
  }

  function DecodeNoInit(t: Table, m: Struct, input: seq<Byte>): Option<Struct>
    decreases |input|, 3
  {
    Conclude(t, Loop(t, State(m, {}), input))
  }

  function Decode(t: Table, input: seq<Byte>): Option<Struct>
  {
    DecodeNoInit(t, Default(t), input)
  }

  lemma {:induction false} IgnoresPrior(f: Field, v: Value, w: Value, input: seq<Byte>)
    requires f.htype.Repeated? || f.htype.OneOf? || !f.ltype.Submessage?
    ensures ParseValue(f, v, input) == ParseValue(f, w, input)
  {
  }

  // ---------------------------------------------------------------- arbitrary input

  /** Whatever the bytes, what is decoded is within its type and size: counts stay within
      array_size, bytes and strings within data_size. */
  lemma {:induction false} LoopKeepsValid(t: Table, st: State, input: seq<Byte>)
    requires WellFormed(t) && ValidStruct(t, st.m)
    ensures var o := Loop(t, st, input); !o.Failed? ==> ValidStruct(t, o.st.m)
    decreases |input|, 2
  {
    if input == [] || !ParseTag(input).Tag? { return; }
    var Tag(wiretype, tag, rest) := ParseTag(input);
    var i := Find(t, tag);
    if t == [] && tag == 0 { return; }
    if i == |t| {
      if Skip(wiretype, rest).Some? {
        LoopKeepsValid(t, st, Skip(wiretype, rest).value);
      }
      return;
    }
    var s := At(st.m, Offset(t, i));
    assert ValidSlot(t[i], s) && WellFormedField(t[i]);
    FieldKeepsValid(t[i], wiretype, s, rest);
    var r := ParseField(t[i], wiretype, s, rest);
    if r.Err? { return; }
    var st' := Meet(t, st, i, r.value);
    StoreKeepsValid(t, st.m, i, r.value);
    LoopKeepsValid(t, st', r.rest);
  }

  lemma {:induction false} StoreKeepsValid(t: Table, m: Struct, i: nat, s: Slot)
    requires WellFormed(t) && ValidStruct(t, m) && i < |t|
    requires ValidSlot(t[i], s) && (t[i].htype.OneOf? ==> s.Arm? && s.which == t[i].tag)
    ensures ValidStruct(t, m[Offset(t, i) := s])
  {
    var m' := m[Offset(t, i) := s];
    forall k | 0 <= k < |t| ensures ValidSlot(t[k], At(m', Offset(t, k))) {
      assert ValidSlot(t[k], At(m, Offset(t, k)));
      if k != i && Offset(t, k) == Offset(t, i) {
        SameOffset(t, k, i);
        assert t[k].tag != t[i].tag;
      }
    }
  }

  lemma {:induction false} FieldKeepsValid(f: Field, wiretype: nat, s: Slot, input: seq<Byte>)
    requires WellFormedField(f) && ValidSlot(f, s)
    ensures var r := ParseField(f, wiretype, s, input);
            r.Ok? ==> ValidSlot(f, r.value) && (f.htype.OneOf? ==> r.value.Arm? && r.value.which == f.tag)
    decreases |input|, 1
  {
    if f.htype.Repeated? && wiretype == WT_STRING && f.Packable() {
      var r := ParseDelimited(input);
      if r.Ok? {
        PackedKeepsValid(f, Items(s), r.value);
      }
    } else {
      if !f.htype.Repeated? && !f.htype.OneOf? {
        assert ValidValue(f, Held(s));
      }
      ValueKeepsValid(f, Held(s), input);
    }
  }

  lemma {:induction false} PackedKeepsValid(f: Field, items: seq<Value>, body: seq<Byte>)
    requires WellFormedField(f) && f.Packable()
    requires |items| <= f.arraySize && forall v :: v in items ==> ValidValue(f, v)
    ensures var r := ParsePacked(f, items, body);
            r.Some? ==> items <= r.value && |r.value| <= f.arraySize && forall v :: v in r.value ==> ValidValue(f, v)
    decreases |body|
  {
    if body == [] || |items| >= f.arraySize || ParseLeaf(f, body).Err? { return; }
    var r := ParseLeaf(f, body);
    LeafValid(f, body);
    PackedKeepsValid(f, items + [r.value], r.rest);
  }

  lemma {:induction false} ValueKeepsValid(f: Field, prior: Value, input: seq<Byte>)
    requires WellFormedField(f)
    requires !f.htype.Repeated? && !f.htype.OneOf? ==> ValidValue(f, prior)
    ensures var r := ParseValue(f, prior, input); r.Ok? ==> ValidValue(f, r.value)
    decreases |input|, 0
  {
    if f.ltype.Submessage? {
      var r := ParseDelimited(input);
      if r.Ok? {
        var sub := f.ltype.fields;
        DefaultValid(sub);
        var start := if f.htype.Repeated? || f.htype.OneOf? then Default(sub) else Slots(prior);
        LoopKeepsValid(sub, State(start, {}), r.value);
      }
    } else {
      LeafValid(f, input);
    }
  }

  lemma {:induction false} LeafValid(f: Field, input: seq<Byte>)
    requires WellFormedField(f) && !f.ltype.Submessage?
    ensures var r := ParseLeaf(f, input); r.Ok? ==> ValidValue(f, r.value)
  {
    if f.ltype.Fixed32? {
      if ParseFixed(input, 4).Ok? { FixedInRange(input, 4); }
    } else if f.ltype.Fixed64? {
      if ParseFixed(input, 8).Ok? { FixedInRange(input, 8); }
    } else if f.ltype.Bytes? || f.ltype.String? || f.ltype.FixedBytes? {
    } else {
      IntegerValid(f, input);
    }
  }

  lemma {:induction false} IntegerValid(f: Field, input: seq<Byte>)
    requires f.ltype.Varint? || f.ltype.UVarint? || f.ltype.SVarint?
    ensures var r := ParseInteger(f, input); r.Ok? ==> ValidValue(f, r.value)
  {
    hide ParseVarint64, Signed, Unsigned, UnZigZag, Modulus, InSigned, InUnsigned;
    if IntSize(f.dataSize) {
      WidthsFit(f.dataSize);
    }
  }

  lemma {:induction false} FixedInRange(input: seq<Byte>, n: nat)
    requires ParseFixed(input, n).Ok?
    ensures 0 <= ParseFixed(input, n).value.v < Pow256(n)
    ensures Pow256(4) == TWO32 && Pow256(8) == TWO64
  {
    Pow256Values();
    FromLittleEndianBound(input[..n]);
  }

  lemma {:induction false} FromLittleEndianBound(bs: seq<Byte>)
    ensures FromLittleEndian(bs) < Pow256(|bs|)
  {
    if bs != [] {
      FromLittleEndianBound(bs[1..]);
    }
  }
}
