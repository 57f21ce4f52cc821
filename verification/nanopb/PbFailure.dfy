/** What a decode that fails leaves in the caller's struct: pb_decode.c writes members, counts and
    flags in place as it goes, and stops where the first error is.

    One place can then show memory that the decoder has not written: the array entry that was
    counted, or the oneof arm that was selected, before its decoder failed. */
module PbFailure {
  import opened PbWire
  import opened PbSchema
  import opened PbEncode
  import opened PbDecode

  /** What memory holds where the struct has no value yet: the entry behind the counted ones of an
      array, or the bytes of a union, read as the member they are to be; and the bytes of a
      buffer behind those in use. */
  datatype Memory = Memory(entry: Field -> Value, byte: nat -> Byte)

  // ---------------------------------------------------------------- what is left behind

  /** pb_dec_varint, pb_dec_uvarint and pb_dec_svarint store before they compare. */
  function IntegerLeft(f: Field, prior: Value, input: seq<Byte>): Value
  {
    match ParseVarint64(input)
    case Err(_) => prior
    case Ok(u, _) =>
      if !IntSize(f.dataSize) then prior
      else match f.ltype
           case Varint => Int(Signed(f.dataSize, if f.dataSize == 8 then Signed(8, u) else Signed(4, u)))
           case UVarint => Int(Unsigned(f.dataSize, u))
           case _ => Int(Signed(f.dataSize, UnZigZag(u)))
  }

  function BytesOf(v: Value): seq<Byte>
  {
    if v.Blob? then v.bs else []
  }

  function Resized(bs: seq<Byte>, n: nat, mem: Memory): (r: seq<Byte>)
    ensures |r| == n
  {
    seq(n, i requires 0 <= i < n => ByteAt(bs, i, mem))
  }

  function ByteAt(bs: seq<Byte>, i: nat, mem: Memory): Byte
  {
    if i < |bs| then bs[i] else mem.byte(i)
  }

  /** pb_dec_bytes sets the size before it reads the bytes, pb_dec_string the terminator after it. */
  function BlobLeft(f: Field, prior: Value, input: seq<Byte>, mem: Memory): Value
  {
    match ParseVarint32(input)
    case Err(_) => prior
    case Ok(n, rest) =>
      if f.ltype.Bytes? && (n > PB_SIZE_MAX || n + BYTES_HEADER > f.dataSize) then prior
      else if f.ltype.String? && (n == TWO32 - 1 || n + 1 > f.dataSize) then prior
      else if f.ltype.FixedBytes? && n > PB_SIZE_MAX then prior
      else if f.ltype.FixedBytes? && n == 0 then Blob(Zeros(f.dataSize))
      else if f.ltype.FixedBytes? && n != f.dataSize then prior
      else match ParseRaw(rest, n)
           case Err(_) => if f.ltype.FixedBytes? then prior else Blob(Resized(BytesOf(prior), n, mem))
           case Ok(bs, _) => Blob(bs)
  }

  function LeafLeft(f: Field, prior: Value, input: seq<Byte>, mem: Memory): Value
    requires !f.ltype.Submessage?
  {
    match f.ltype
    case Fixed32 => if ParseFixed(input, 4).Ok? then ParseFixed(input, 4).value else prior
    case Fixed64 => if ParseFixed(input, 8).Ok? then ParseFixed(input, 8).value else prior
    case Bytes => BlobLeft(f, prior, input, mem)
    case String => BlobLeft(f, prior, input, mem)
    case FixedBytes => BlobLeft(f, prior, input, mem)
    case _ => IntegerLeft(f, prior, input)
  }

  /** The items of a packed array that were counted. */
  function PackedLeft(f: Field, items: seq<Value>, body: seq<Byte>): seq<Value>
    requires f.Packable()
    decreases |body|
  {
    if body == [] || |items| >= f.arraySize then items
    else match ParseLeaf(f, body)
         case Err(_) => items
         case Ok(v, rest) => PackedLeft(f, items + [v], rest)
  }

  /** What the decoder of an item finds in its place. */
  function Prior(f: Field, s: Slot, mem: Memory): Value
  {
    match f.htype
    case Repeated => mem.entry(f)
    case OneOf =>
      if f.ltype.Submessage? then Msg(Default(f.ltype.fields))
      else if s.Arm? && s.which == f.tag then s.v
      else mem.entry(f)
    case _ => Held(s)
  }

  function ValueLeft(f: Field, prior: Value, input: seq<Byte>, mem: Memory): Value
    decreases |input|, 0
  {
    match f.ltype
    case Submessage(sub) =>
      (match ParseDelimited(input)
       case Err(_) => prior
       case Ok(body, _) =>
         Msg(LoopLeft(sub, if f.htype.Repeated? || f.htype.OneOf? then Default(sub) else Slots(prior), body, mem)))
    case _ => LeafLeft(f, prior, input, mem)
  }

  /** The member after decode_static_field failed: has flags, counts and which tags are set first. */
  function SlotLeft(f: Field, wiretype: nat, s: Slot, input: seq<Byte>, mem: Memory): Slot
    decreases |input|, 1
  {
    if f.htype.Repeated? && wiretype == WT_STRING && f.Packable() then
      (match ParseDelimited(input)
       case Err(_) => s
       case Ok(body, _) => Rep(PackedLeft(f, Items(s), body)))
    else if f.htype.Repeated? && |Items(s)| >= f.arraySize then s
    else Store(f, s, ValueLeft(f, Prior(f, s, mem), input, mem))
  }

  /** The struct when the loop of pb_decode_noinit ends, for whatever reason. */
  function LoopLeft(t: Table, m: Struct, input: seq<Byte>, mem: Memory): Struct
    decreases |input|, 2
  {
    if input == [] || !ParseTag(input).Tag? then m
    else
      var Tag(wiretype, tag, rest) := ParseTag(input);
      var i := Find(t, tag);
      if t == [] && tag == 0 then m
      else if i == |t| then
        (match Skip(wiretype, rest)
         case None => m
         case Some(rest') => LoopLeft(t, m, rest', mem))
      else
        var s := At(m, Offset(t, i));
        match ParseField(t[i], wiretype, s, rest)
        case Err(_) => m[Offset(t, i) := SlotLeft(t[i], wiretype, s, rest, mem)]
        case Ok(s', rest') => LoopLeft(t, m[Offset(t, i) := s'], rest', mem)
  }

  // ---------------------------------------------------------------- without an error

  /** Where there was no error, what is left is what was decoded. */
  lemma {:induction false} LoopLeftAgrees(t: Table, st: State, input: seq<Byte>, mem: Memory)
    ensures var o := Loop(t, st, input); !o.Failed? ==> LoopLeft(t, st.m, input, mem) == o.st.m
    decreases |input|
  {
    hide ParseTag, ParseField, Skip, Offset, Find, SlotLeft;
    if input == [] || !ParseTag(input).Tag? { return; }
    var Tag(wiretype, tag, rest) := ParseTag(input);
    var i := Find(t, tag);
    if t == [] && tag == 0 { return; }
    if i == |t| {
      if Skip(wiretype, rest).Some? {
        LoopLeftAgrees(t, st, Skip(wiretype, rest).value, mem);
      }
    } else {
      var r := ParseField(t[i], wiretype, At(st.m, Offset(t, i)), rest);
      if r.Ok? {
        LoopLeftAgrees(t, Meet(t, st, i, r.value), r.rest, mem);
      }
    }
  }

  lemma {:induction false} ValueLeftAgrees(f: Field, prior: Value, input: seq<Byte>, mem: Memory)
    ensures var r := ParseValue(f, prior, input); r.Ok? ==> ValueLeft(f, prior, input, mem) == r.value
  {
    if f.ltype.Submessage? {
      var r := ParseDelimited(input);
      if r.Ok? {
        var sub := f.ltype.fields;
        var start := if f.htype.Repeated? || f.htype.OneOf? then Default(sub) else Slots(prior);
        LoopLeftAgrees(sub, State(start, {}), r.value, mem);
      }
    }
  }

  // ---------------------------------------------------------------- on arbitrary bytes

  /** Entries and unions hold values of their members' types and sizes also before they are
      written, at every depth, as in a struct that was once cleared or decoded into. */
  ghost predicate SoundMemory(t: Table, mem: Memory)
    decreases t
  {
    forall i :: 0 <= i < |t| ==> SoundEntry(t[i], mem)
  }

  ghost predicate SoundEntry(f: Field, mem: Memory)
    decreases f
  {
    && (f.htype.Repeated? || (f.htype.OneOf? && !f.ltype.Submessage?) ==> ValidValue(f, mem.entry(f)))
    && (f.ltype.Submessage? ==> SoundMemory(f.ltype.fields, mem))
  }

  lemma {:induction false} LeafLeftValid(f: Field, prior: Value, input: seq<Byte>, mem: Memory)
    requires WellFormedField(f) && !f.ltype.Submessage? && ValidValue(f, prior)
    ensures ValidValue(f, LeafLeft(f, prior, input, mem))
  {
    hide ParseVarint64, ParseVarint32;
    if f.ltype.Fixed32? || f.ltype.Fixed64? {
      LeafValid(f, input);
    } else if !f.ltype.Bytes? && !f.ltype.String? && !f.ltype.FixedBytes? {
      IntegerLeftValid(f, prior, input);
    }
  }

  lemma {:induction false} IntegerLeftValid(f: Field, prior: Value, input: seq<Byte>)
    requires WellFormedField(f) && (f.ltype.Varint? || f.ltype.UVarint? || f.ltype.SVarint?) && ValidValue(f, prior)
    ensures ValidValue(f, IntegerLeft(f, prior, input))
  {
    hide ParseVarint64, Signed, Unsigned, UnZigZag, Modulus, InSigned, InUnsigned;
    WidthsFit(f.dataSize);
  }

  lemma {:induction false} PackedLeftValid(f: Field, items: seq<Value>, body: seq<Byte>)
    requires WellFormedField(f) && f.Packable()
    requires |items| <= f.arraySize && forall v :: v in items ==> ValidValue(f, v)
    ensures var r := PackedLeft(f, items, body); |r| <= f.arraySize && forall v :: v in r ==> ValidValue(f, v)
    decreases |body|
  {
    if body == [] || |items| >= f.arraySize || ParseLeaf(f, body).Err? { return; }
    var r := ParseLeaf(f, body);
    LeafValid(f, body);
    PackedLeftValid(f, items + [r.value], r.rest);
  }

  lemma {:induction false} ValueLeftValid(f: Field, prior: Value, input: seq<Byte>, mem: Memory)
    requires WellFormedField(f) && SoundEntry(f, mem) && ValidValue(f, prior)
    ensures ValidValue(f, ValueLeft(f, prior, input, mem))
    decreases |input|, 0
  {
    if f.ltype.Submessage? {
      var r := ParseDelimited(input);
      if r.Ok? {
        var sub := f.ltype.fields;
        DefaultValid(sub);
        LoopLeftValid(sub, if f.htype.Repeated? || f.htype.OneOf? then Default(sub) else Slots(prior), r.value, mem);
      }
    } else {
      LeafLeftValid(f, prior, input, mem);
    }
  }

  lemma {:induction false} SlotLeftValid(f: Field, wiretype: nat, s: Slot, input: seq<Byte>, mem: Memory)
    requires WellFormedField(f) && SoundEntry(f, mem) && ValidSlot(f, s)
    ensures var r := SlotLeft(f, wiretype, s, input, mem);
            ValidSlot(f, r) && (f.htype.OneOf? ==> r.Arm? && r.which == f.tag)
    decreases |input|, 1
  {
    if f.htype.Repeated? && wiretype == WT_STRING && f.Packable() {
      if ParseDelimited(input).Ok? {
        PackedLeftValid(f, Items(s), ParseDelimited(input).value);
      }
    } else if !(f.htype.Repeated? && |Items(s)| >= f.arraySize) {
      if f.htype.OneOf? && f.ltype.Submessage? {
        DefaultValid(f.ltype.fields);
      }
      assert ValidValue(f, Prior(f, s, mem));
      ValueLeftValid(f, Prior(f, s, mem), input, mem);
    }
  }

  /** Whatever the bytes, and wherever decoding stops, the struct is left with counts within
      array_size and bytes and strings within data_size, if memory was within them. */
  lemma {:induction false} LoopLeftValid(t: Table, m: Struct, input: seq<Byte>, mem: Memory)
    requires WellFormed(t) && ValidStruct(t, m) && SoundMemory(t, mem)
    ensures ValidStruct(t, LoopLeft(t, m, input, mem))
    decreases |input|, 2
  {
    if input == [] || !ParseTag(input).Tag? { return; }
    var Tag(wiretype, tag, rest) := ParseTag(input);
    var i := Find(t, tag);
    if t == [] && tag == 0 { return; }
    if i == |t| {
      if Skip(wiretype, rest).Some? {
        LoopLeftValid(t, m, Skip(wiretype, rest).value, mem);
      }
      return;
    }
    var s := At(m, Offset(t, i));
    assert ValidSlot(t[i], s) && WellFormedField(t[i]) && SoundEntry(t[i], mem);
    FieldKeepsValid(t[i], wiretype, s, rest);
    var r := ParseField(t[i], wiretype, s, rest);
    if r.Err? {
      SlotLeftValid(t[i], wiretype, s, rest, mem);
      StoreKeepsValid(t, m, i, SlotLeft(t[i], wiretype, s, rest, mem));
    } else {
      StoreKeepsValid(t, m, i, r.value);
      LoopLeftValid(t, m[Offset(t, i) := r.value], r.rest, mem);
    }
  }

  // ---------------------------------------------------------------- exactly then

  function Depth(t: Table): nat
    decreases t
  {
    if t == [] then 0
    else
      var (d, e) := (FieldDepth(t[0]), Depth(t[1..]));
      if d > e then d else e
  }

  function FieldDepth(f: Field): nat
    decreases f
  {
    if f.ltype.Submessage? then 1 + Depth(f.ltype.fields) else 0
  }

  lemma {:induction false} DepthOf(t: Table, i: nat)
    requires i < |t| && t[i].ltype.Submessage?
    ensures Depth(t[i].ltype.fields) < Depth(t)
    decreases i
  {
    if i > 0 {
      DepthOf(t[1..], i - 1);
    }
  }

  lemma {:induction false} TagLength(wiretype: nat, tag: nat)
    requires wiretype < 8 && tag * 8 + 7 < TWO32
    ensures |EncodeTag(wiretype, tag)| <= 5
  {
    Pow128Values();
    VarintLength(tag * 8 + wiretype, 5);
  }

  lemma {:induction false} DelimitedLength(body: seq<Byte>)
    requires |body| < TWO32
    ensures |EncodeDelimited(body)| <= 5 + |body|
  {
    Pow128Values();
    VarintLength(|body|, 5);
  }

  /** One field whose decoder fails: what the loop leaves. */
  lemma {:induction false} FailsAt(t: Table, m: Struct, i: nat, wiretype: nat, payload: seq<Byte>, mem: Memory)
    requires WellFormed(t) && i < |t| && wiretype < 8
    requires ParseField(t[i], wiretype, At(m, Offset(t, i)), payload).Err?
    ensures LoopLeft(t, m, EncodeTag(wiretype, t[i].tag) + payload, mem)
         == m[Offset(t, i) := SlotLeft(t[i], wiretype, At(m, Offset(t, i)), payload, mem)]
  {
    assert WellFormedField(t[i]);
    TagRoundTrip(wiretype, t[i].tag, payload);
    FindIs(t, i);
  }

  lemma {:induction false} NothingToRead(f: Field, s: Slot, prior: Value, mem: Memory)
    ensures ParseValue(f, prior, []).Err? && ValueLeft(f, prior, [], mem) == prior
    ensures ParseField(f, WT_VARINT, s, []).Err?
  {
    assert Continued([]) == 0;
    assert ParseVarint64([]).Err? && ParseVarint32([]).Err? && ParseDelimited([]).Err?;
  }

  /** A tag with nothing behind it: the entry is counted, or the arm selected, and never written. */
  lemma {:induction false} BareTag(t: Table, i: nat, mem: Memory)
    requires WellFormed(t) && i < |t| && !ValidValue(t[i], mem.entry(t[i]))
    requires t[i].htype.Repeated? || (t[i].htype.OneOf? && !t[i].ltype.Submessage?)
    ensures !ValidStruct(t, LoopLeft(t, Default(t), EncodeTag(WT_VARINT, t[i].tag), mem))
  {
    hide ParseValue, ValueLeft, EncodeTag, LoopLeft, DefaultFrom, Offset, ParseField, ValidValue;
    var f, m := t[i], Default(t);
    var s := At(m, Offset(t, i));
    assert WellFormedField(f);
    DefaultAt(t, i);
    NothingToRead(f, s, mem.entry(f), mem);
    assert EncodeTag(WT_VARINT, f.tag) + [] == EncodeTag(WT_VARINT, f.tag);
    FailsAt(t, m, i, WT_VARINT, [], mem);
    var left := SlotLeft(f, WT_VARINT, s, [], mem);
    assert left == Store(f, s, mem.entry(f));
    if f.htype.Repeated? {
      assert left.items[0] in left.items;
    }
    assert At(m[Offset(t, i) := left], Offset(t, i)) == left;
  }

  /** And one in a submessage, which then fails as a whole. */
  lemma {:induction false} InSubmessage(t: Table, i: nat, inner: seq<Byte>, mem: Memory)
    requires WellFormed(t) && i < |t| && t[i].ltype.Submessage? && |inner| < TWO32
    requires Loop(t[i].ltype.fields, State(Default(t[i].ltype.fields), {}), inner).Failed?
    requires !ValidStruct(t[i].ltype.fields, LoopLeft(t[i].ltype.fields, Default(t[i].ltype.fields), inner, mem))
    ensures var input := EncodeTag(WT_STRING, t[i].tag) + EncodeDelimited(inner);
            !ValidStruct(t, LoopLeft(t, Default(t), input, mem)) && Loop(t, State(Default(t), {}), input).Failed?
  {
    hide EncodeTag, EncodeDelimited, LoopLeft, Loop, DefaultFrom, Offset, ParseDelimited;
    var f, m, sub := t[i], Default(t), t[i].ltype.fields;
    var s, payload := At(m, Offset(t, i)), EncodeDelimited(inner);
    assert WellFormedField(f);
    DefaultAt(t, i);
    DelimitedRoundTrip(inner, []);
    assert payload + [] == payload;
    assert ParseDelimited(payload) == Ok(inner, []);
    assert !f.htype.Repeated? && !f.htype.OneOf? ==> Held(s) == Msg(Default(sub));
    assert DecodeNoInit(sub, Default(sub), inner).None?;
    assert ParseValue(f, Held(s), payload).Err?;
    assert ParseField(f, WT_STRING, s, payload).Err?;
    FailsAt(t, m, i, WT_STRING, payload, mem);
    LoopFails(t, m, i, WT_STRING, payload);
    var left := SlotLeft(f, WT_STRING, s, payload, mem);
    var v := Msg(LoopLeft(sub, Default(sub), inner, mem));
    assert left == Store(f, s, v);
    assert !ValidValue(f, v);
    if f.htype.Repeated? {
      assert left.items[0] in left.items;
    }
    assert At(m[Offset(t, i) := left], Offset(t, i)) == left;
  }

  lemma {:induction false} LoopFails(t: Table, m: Struct, i: nat, wiretype: nat, payload: seq<Byte>)
    requires WellFormed(t) && i < |t| && wiretype < 8
    requires ParseField(t[i], wiretype, At(m, Offset(t, i)), payload).Err?
    ensures Loop(t, State(m, {}), EncodeTag(wiretype, t[i].tag) + payload).Failed?
  {
    assert WellFormedField(t[i]);
    TagRoundTrip(wiretype, t[i].tag, payload);
    FindIs(t, i);
  }

  lemma {:induction false} BadInput(t: Table, mem: Memory) returns (input: seq<Byte>)
    requires WellFormed(t) && !SoundMemory(t, mem) && 10 * (Depth(t) + 1) < TWO32
    ensures |input| <= 10 * (Depth(t) + 1)
    ensures !ValidStruct(t, LoopLeft(t, Default(t), input, mem)) && Loop(t, State(Default(t), {}), input).Failed?
    decreases t
  {
    hide LoopLeft, Loop, EncodeTag, EncodeDelimited, ValidStruct, DefaultFrom;
    var i :| 0 <= i < |t| && !SoundEntry(t[i], mem);
    var f := t[i];
    assert WellFormedField(f);
    if (f.htype.Repeated? || (f.htype.OneOf? && !f.ltype.Submessage?)) && !ValidValue(f, mem.entry(f)) {
      input := EncodeTag(WT_VARINT, f.tag);
      TagLength(WT_VARINT, f.tag);
      BareTag(t, i, mem);
      NothingToRead(f, At(Default(t), Offset(t, i)), mem.entry(f), mem);
      assert input + [] == input;
      LoopFails(t, Default(t), i, WT_VARINT, []);
    } else {
      DepthOf(t, i);
      var inner := BadSubmessage(f, mem);
      TagLength(WT_STRING, f.tag);
      DelimitedLength(inner);
      InSubmessage(t, i, inner, mem);
      input := EncodeTag(WT_STRING, f.tag) + EncodeDelimited(inner);
    }
  }

  lemma {:induction false} BadSubmessage(f: Field, mem: Memory) returns (inner: seq<Byte>)
    requires WellFormedField(f) && f.ltype.Submessage? && !SoundMemory(f.ltype.fields, mem)
    requires 10 * (Depth(f.ltype.fields) + 1) < TWO32
    ensures |inner| <= 10 * (Depth(f.ltype.fields) + 1)
    ensures var sub := f.ltype.fields;
            && !ValidStruct(sub, LoopLeft(sub, Default(sub), inner, mem))
            && Loop(sub, State(Default(sub), {}), inner).Failed?
    decreases f
  {
    inner := BadInput(f.ltype.fields, mem);
  }

  /** pb_decode leaves every member within its type and size, on success and on failure and whatever
      the bytes, exactly if the memory behind arrays and unions was so before. */
  lemma {:induction false} LeavesValidExactly(t: Table, mem: Memory)
    requires WellFormed(t) && 10 * (Depth(t) + 1) < TWO32
    ensures (forall input :: ValidStruct(t, LoopLeft(t, Default(t), input, mem))) <==> SoundMemory(t, mem)
  {
    DefaultValid(t);
    if SoundMemory(t, mem) {
      forall input ensures ValidStruct(t, LoopLeft(t, Default(t), input, mem)) {
        LoopLeftValid(t, Default(t), input, mem);
      }
    } else {
      var input := BadInput(t, mem);
    }
  }

  // ---------------------------------------------------------------- counts

  /** Whatever memory held, an array never counts more entries than it has. */
  lemma {:induction false} CountsWithin(t: Table, m: Struct, input: seq<Byte>, mem: Memory, k: nat)
    requires WellFormed(t) && k < |t| && t[k].htype.Repeated? && |Items(At(m, Offset(t, k)))| <= t[k].arraySize
    ensures |Items(At(LoopLeft(t, m, input, mem), Offset(t, k)))| <= t[k].arraySize
    decreases |input|
  {
    hide ParseTag, Skip, ParseValue, ValueLeft, ParseLeaf, ParseDelimited;
    if input == [] || !ParseTag(input).Tag? { return; }
    var Tag(wiretype, tag, rest) := ParseTag(input);
    var i := Find(t, tag);
    if t == [] && tag == 0 { return; }
    if i == |t| {
      if Skip(wiretype, rest).Some? {
        CountsWithin(t, m, Skip(wiretype, rest).value, mem, k);
      }
      return;
    }
    if i != k && Offset(t, i) == Offset(t, k) {
      SameOffset(t, i, k);
    }
    var s := At(m, Offset(t, i));
    if i == k {
      CountedSlot(t[i], wiretype, s, rest, mem);
    }
    var r := ParseField(t[i], wiretype, s, rest);
    if r.Ok? {
      CountsWithin(t, m[Offset(t, i) := r.value], r.rest, mem, k);
    }
  }

  lemma {:induction false} CountedSlot(f: Field, wiretype: nat, s: Slot, input: seq<Byte>, mem: Memory)
    requires WellFormedField(f) && f.htype.Repeated? && |Items(s)| <= f.arraySize
    ensures |Items(SlotLeft(f, wiretype, s, input, mem))| <= f.arraySize
    ensures var r := ParseField(f, wiretype, s, input); r.Ok? ==> |Items(r.value)| <= f.arraySize
  {
    hide ParseValue, ValueLeft, ParseLeaf, ParseDelimited;
    if wiretype == WT_STRING && f.Packable() && ParseDelimited(input).Ok? {
      CountedPacked(f, Items(s), ParseDelimited(input).value);
    }
  }

  lemma {:induction false} CountedPacked(f: Field, items: seq<Value>, body: seq<Byte>)
    requires f.Packable() && |items| <= f.arraySize
    ensures |PackedLeft(f, items, body)| <= f.arraySize
    ensures ParsePacked(f, items, body).Some? ==> ParsePacked(f, items, body) == Some(PackedLeft(f, items, body))
    decreases |body|
  {
    if body != [] && |items| < f.arraySize && ParseLeaf(f, body).Ok? {
      var r := ParseLeaf(f, body);
      CountedPacked(f, items + [r.value], r.rest);
    }
  }
}
