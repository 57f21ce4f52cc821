/** Message descriptors (pb_field_t arrays), the C structs they describe, and which part of
    such a struct is live.

    A struct is a map from the byte offset the field iterator computes for a member to what
    is stored there, together with its has flag, count or which tag. The arms of one oneof
    have the same offset and so share an entry, as they share the C union. */
module PbSchema {
  import opened PbWire

  /** The largest pb_size_t, in a build with PB_FIELD_32BIT. */
  const PB_SIZE_MAX: nat := 0xFFFF_FFFF

  /** offsetof(pb_bytes_array_t, bytes). */
  const BYTES_HEADER: nat := 4

  datatype LType =
    | Varint | UVarint | SVarint | Fixed32 | Fixed64
    | Bytes | String | Submessage(fields: seq<Field>) | FixedBytes

  datatype HType = Required | Optional | Repeated | OneOf

  /** One descriptor. `init` is the default value a leaf's `ptr` points to, None for NULL. */
  datatype Field = Field(
    tag: nat, ltype: LType, htype: HType, dataOffset: nat, sizeOffset: int,
    dataSize: nat, arraySize: nat, init: Option<Value>)
  {
    predicate Packable() { ltype.Varint? || ltype.UVarint? || ltype.SVarint? || ltype.Fixed32? || ltype.Fixed64? }

    /** A proto3 field: optional, with no has flag of its own. */
    predicate Singular() { htype.Optional? && sizeOffset == 0 }

    predicate HasFlag() { htype.Optional? && sizeOffset != 0 }

    function Extent(): nat { if htype.Repeated? then dataSize * arraySize else dataSize }
  }

  /** What is stored in a member. A string is the bytes of its buffer up to the one the
      decoder last terminated it with, so it may hold a zero byte. */
  datatype Value = Int(v: int) | Blob(bs: seq<Byte>) | Msg(slots: Struct)

  datatype Slot =
    | One(v: Value)                 // required, or singular
    | Opt(has: bool, v: Value)      // optional with a has flag
    | Rep(items: seq<Value>)        // the first `count` items of an array
    | Arm(which: nat, v: Value)     // a oneof holding the arm with tag `which`
    | NoArm                         // a oneof whose which_ member is zero

  type Struct = map<nat, Slot>

  type Table = seq<Field>

  // ---------------------------------------------------------------- layout

  predicate Joins(t: Table, i: nat)
    requires 0 < i < |t|
  {
    t[i - 1].htype.OneOf? && t[i].htype.OneOf? && t[i].dataOffset == PB_SIZE_MAX
  }

  /** The offset of field `i` in the struct: where the iterator's pData points. */
  function Offset(t: Table, i: nat): nat
    requires i < |t|
  {
    if i == 0 then t[0].dataOffset
    else if Joins(t, i) then Offset(t, i - 1)
    else Offset(t, i - 1) + t[i - 1].Extent() + t[i].dataOffset
  }

  /** How many required fields come before field `i`. */
  function ReqIndex(t: Table, i: nat): (n: nat)
    requires i <= |t|
    ensures n <= i
  {
    if i == 0 then 0 else ReqIndex(t, i - 1) + if t[i - 1].htype.Required? then 1 else 0
  }

  /** The field with a tag, or |t|. */
  function Find(t: Table, tag: nat): (i: nat)
    ensures i <= |t|
    ensures i < |t| ==> t[i].tag == tag
    ensures forall k :: 0 <= k < i ==> t[k].tag != tag
  {
    if t == [] then 0 else if t[0].tag == tag then 0 else 1 + Find(t[1..], tag)
  }

  // ---------------------------------------------------------------- well-formed tables

  ghost predicate WellFormed(t: Table)
    decreases t
  {
    && (forall i :: 0 <= i < |t| ==> WellFormedField(t[i]))
    && (forall i, j :: 0 <= i < j < |t| ==> t[i].tag != t[j].tag)
  }

  ghost predicate WellFormedField(f: Field)
    decreases f
  {
    && 0 < f.tag && f.tag * 8 + 7 < TWO32
    && 0 < f.dataSize <= PB_SIZE_MAX
    && (f.htype.Repeated? ==> 0 < f.arraySize <= PB_SIZE_MAX)
    && (f.htype.Repeated? || f.htype.OneOf? ==> f.sizeOffset != 0)
    && (f.Singular() ==> !f.ltype.Submessage? && f.init.None?)
    && (f.init.Some? ==> !f.ltype.Submessage? && ValidValue(f, f.init.value))
    && match f.ltype
       case Varint => IntSize(f.dataSize)
       case UVarint => IntSize(f.dataSize)
       case SVarint => IntSize(f.dataSize)
       case Fixed32 => f.dataSize == 4
       case Fixed64 => f.dataSize == 8
       case Bytes => f.dataSize >= BYTES_HEADER
       case String => true
       case Submessage(sub) => WellFormed(sub)
       case FixedBytes => true
  }

  /** Different members never share an offset, except the arms of one oneof. */
  lemma {:induction false} OffsetsApart(t: Table, i: nat, k: nat)
    requires WellFormed(t) && i < k < |t|
    ensures Offset(t, i) <= Offset(t, k)
    ensures Offset(t, i) == Offset(t, k) ==> t[i].htype.OneOf? && t[k].htype.OneOf?
    decreases k
  {
    assert WellFormedField(t[k - 1]);
    ExtentPositive(t[k - 1]);
    if i < k - 1 {
      OffsetsApart(t, i, k - 1);
    }
  }

  lemma {:induction false} ExtentPositive(f: Field)
    requires WellFormedField(f)
    ensures f.Extent() > 0
  {
    if f.htype.Repeated? {
      assert f.dataSize * f.arraySize > 0;
    }
  }

  lemma {:induction false} SameOffset(t: Table, i: nat, k: nat)
    requires WellFormed(t) && i < |t| && k < |t| && i != k && Offset(t, i) == Offset(t, k)
    ensures t[i].htype.OneOf? && t[k].htype.OneOf?
  {
    if i < k { OffsetsApart(t, i, k); } else { OffsetsApart(t, k, i); }
  }

  lemma {:induction false} FindIs(t: Table, i: nat)
    requires WellFormed(t) && i < |t|
    ensures Find(t, t[i].tag) == i
  {
    assert Find(t, t[i].tag) <= i;
  }

  /** The required index numbers the required fields 0, 1, 2, … in table order. */
  lemma {:induction false} ReqIndexOrder(t: Table, i: nat, k: nat)
    requires i < k <= |t|
    ensures ReqIndex(t, i) <= ReqIndex(t, k)
    ensures t[i].htype.Required? ==> ReqIndex(t, i) < ReqIndex(t, k)
    decreases k
  {
    if i < k - 1 {
      ReqIndexOrder(t, i, k - 1);
    }
  }

  lemma {:induction false} ReqIndexOnto(t: Table, n: nat, k: nat) returns (i: nat)
    requires k <= |t| && n < ReqIndex(t, k)
    ensures i < k && t[i].htype.Required? && ReqIndex(t, i) == n
  {
    if t[k - 1].htype.Required? && ReqIndex(t, k - 1) == n {
      i := k - 1;
    } else {
      i := ReqIndexOnto(t, n, k - 1);
    }
  }

  // ---------------------------------------------------------------- live data

  /** The prefix of a buffer before its first zero byte. */
  function CString(bs: seq<Byte>): (s: seq<Byte>)
    ensures |s| <= |bs| && s == bs[..|s|]
    ensures 0 !in s && (|s| < |bs| ==> bs[|s|] == 0)
  {
    if bs == [] || bs[0] == 0 then [] else [bs[0]] + CString(bs[1..])
  }

  /** pb_check_proto3_default_value, on leaf fields. */
  predicate IsDefault(f: Field, v: Value)
  {
    match v
    case Int(n) => n == 0
    case Blob(bs) =>
      if f.ltype.Bytes? then bs == []
      else if f.ltype.String? then CString(bs) == []
      else f.dataSize == 0
    case Msg(_) => false
  }

  /** The values of a field a reader of the struct is meant to look at, which are those the
      encoder writes: none or one for a single field, the items of an array. */
  function View(f: Field, s: Slot): seq<Value>
  {
    match s
    case One(v) => if f.htype.Required? then [v] else if f.Singular() && !IsDefault(f, v) then [v] else []
    case Opt(has, v) => if f.HasFlag() && has then [v] else []
    case Rep(items) => if f.htype.Repeated? then items else []
    case Arm(which, v) => if f.htype.OneOf? && which == f.tag then [v] else []
    case NoArm => []
  }

  function At(m: Struct, offset: nat): Slot
  {
    if offset in m then m[offset] else NoArm
  }

  function ViewAt(t: Table, i: nat, m: Struct): seq<Value>
    requires i < |t|
  {
    View(t[i], At(m, Offset(t, i)))
  }

  // ---------------------------------------------------------------- valid structs

  /** A struct whose members hold values of their types, within their sizes. */
  ghost predicate ValidStruct(t: Table, m: Struct)
    decreases t
  {
    forall i :: 0 <= i < |t| ==> ValidSlot(t[i], At(m, Offset(t, i)))
  }

  ghost predicate ValidSlot(f: Field, s: Slot)
    decreases f, 1
  {
    match f.htype
    case Required => s.One? && ValidValue(f, s.v)
    case Optional => if f.sizeOffset == 0 then s.One? && ValidValue(f, s.v) else s.Opt? && ValidValue(f, s.v)
    case Repeated => s.Rep? && |s.items| <= f.arraySize && forall v :: v in s.items ==> ValidValue(f, v)
    case OneOf => s.NoArm? || (s.Arm? && (s.which == f.tag ==> ValidValue(f, s.v)))
  }

  ghost predicate ValidValue(f: Field, v: Value)
    decreases f, 0
  {
    match f.ltype
    case Varint => v.Int? && InSigned(f.dataSize, v.v)
    case UVarint => v.Int? && InUnsigned(f.dataSize, v.v)
    case SVarint => v.Int? && InSigned(f.dataSize, v.v)
    case Fixed32 => v.Int? && 0 <= v.v < TWO32
    case Fixed64 => v.Int? && 0 <= v.v < TWO64
    case Bytes => v.Blob? && |v.bs| + BYTES_HEADER <= f.dataSize
    case String => v.Blob? && |v.bs| <= f.dataSize
    case Submessage(sub) => v.Msg? && ValidStruct(sub, v.slots)
    case FixedBytes => v.Blob? && |v.bs| == f.dataSize
  }

  /** Every live string has a terminating zero inside its buffer. */
  ghost predicate Terminated(t: Table, m: Struct)
    decreases t
  {
    forall i, v :: 0 <= i < |t| && v in ViewAt(t, i, m) ==> TerminatedValue(t[i], v)
  }

  ghost predicate TerminatedValue(f: Field, v: Value)
    decreases f
  {
    match f.ltype
    case String => v.Blob? ==> |CString(v.bs)| < f.dataSize
    case Submessage(sub) => v.Msg? ==> Terminated(sub, v.slots)
    case _ => true
  }

  // ---------------------------------------------------------------- defaults

  function Zeros(n: nat): (bs: seq<Byte>)
    ensures |bs| == n
  {
    seq(n, i => 0)
  }

  /** What pb_field_set_to_default leaves in one item. */
  function DefaultValue(f: Field): Value
    decreases f, 0
  {
    match f.ltype
    case Submessage(sub) => Msg(DefaultFrom(sub, 0, map[]))
    case Bytes => if f.init.Some? then f.init.value else Blob([])
    case String => if f.init.Some? then f.init.value else Blob([])
    case FixedBytes => if f.init.Some? then f.init.value else Blob(Zeros(f.dataSize))
    case _ => if f.init.Some? then f.init.value else Int(0)
  }

  function DefaultSlot(f: Field): Slot
    decreases f, 1
  {
    match f.htype
    case Required => One(DefaultValue(f))
    case Optional => if f.sizeOffset == 0 then One(DefaultValue(f)) else Opt(false, DefaultValue(f))
    case Repeated => Rep([])
    case OneOf => NoArm
  }

  /** pb_message_set_to_defaults, from field `i` on. */
  function DefaultFrom(t: Table, i: nat, m: Struct): Struct
    requires i <= |t|
    decreases t, |t| - i
  {
    if i == |t| then m else DefaultFrom(t, i + 1, m[Offset(t, i) := DefaultSlot(t[i])])
  }

  function Default(t: Table): Struct
  {
    DefaultFrom(t, 0, map[])
  }

  /** After pb_message_set_to_defaults every member of the struct is at its default,
      whatever the struct held before. */
  lemma {:induction false} DefaultFromAt(t: Table, i: nat, m: Struct, k: nat)
    requires WellFormed(t) && i <= |t| && k < |t|
    requires k < i ==> At(m, Offset(t, k)) == DefaultSlot(t[k])
    ensures At(DefaultFrom(t, i, m), Offset(t, k)) == DefaultSlot(t[k])
    decreases |t| - i
  {
    if i < |t| {
      if i != k && Offset(t, i) == Offset(t, k) {
        SameOffset(t, i, k);
      }
      DefaultFromAt(t, i + 1, m[Offset(t, i) := DefaultSlot(t[i])], k);
    }
  }

  lemma {:induction false} DefaultAt(t: Table, k: nat)
    requires WellFormed(t) && k < |t|
    ensures At(Default(t), Offset(t, k)) == DefaultSlot(t[k])
  {
    DefaultFromAt(t, 0, map[], k);
  }

  lemma {:induction false} DefaultValid(t: Table)
    requires WellFormed(t)
    ensures ValidStruct(t, Default(t))
    decreases t, 1
  {
    forall i | 0 <= i < |t| ensures ValidSlot(t[i], At(Default(t), Offset(t, i))) {
      DefaultAt(t, i);
      assert WellFormedField(t[i]);
      DefaultValueValid(t[i]);
    }
  }

  lemma {:induction false} DefaultValueValid(f: Field)
    requires WellFormedField(f)
    ensures ValidValue(f, DefaultValue(f))
    decreases f, 0
  {
    if f.ltype.Submessage? {
      DefaultValid(f.ltype.fields);
    }
  }
}
