/** pb_common.c: the cyclic iterator over a descriptor array. */
module PbIterator {
  import opened PbWire
  import opened PbSchema

  /** PB_LAST_FIELD, the terminator every descriptor array ends with. */
  const LAST_FIELD := Field(0, Varint, Required, 0, 0, 0, 0, None)

  function FieldAt(t: Table, pos: nat): Field
    requires pos <= |t|
  {
    if pos < |t| then t[pos] else LAST_FIELD
  }

  /** Where pSize points for field `i`, relative to the struct: the has flag, the count or the
      which tag. All arms of a oneof share the one of its first arm. */
  function SizeAt(t: Table, i: nat): int
    requires i < |t|
  {
    if i > 0 && Joins(t, i) then SizeAt(t, i - 1) else Offset(t, i) + t[i].sizeOffset
  }

  class FieldIter {
    var start: Table
    var pos: nat
    var requiredFieldIndex: nat
    var dest: int
    var pData: int
    var pSize: int

    /** The pointers and the required index are functions of the position alone. On an empty
        table the iterator stays on the terminator. */
    ghost predicate Valid()
      reads this
    {
      && (if start == [] then pos == 0 else pos < |start|)
      && requiredFieldIndex == ReqIndex(start, pos)
      && pData == dest + (if start == [] then 0 else Offset(start, pos))
      && pSize == dest + (if start == [] then 0 else SizeAt(start, pos))
    }

    lemma {:induction false} PointsAt()
      requires Valid() && start != []
      ensures pData == dest + Offset(start, pos)
    {
    }

    constructor ()
      ensures Valid() && start == []
    {
      start, pos, requiredFieldIndex, dest, pData, pSize := [], 0, 0, 0, 0, 0;
    }

    /** pb_field_iter_begin: false when the message has no fields. */
    method Begin(fields: Table, destStruct: int) returns (more: bool)
      requires forall f :: f in fields ==> f.tag != 0
      modifies this
      ensures Valid() && start == fields && dest == destStruct && pos == 0
      ensures more <==> fields != []
    {
      start := fields;
      pos := 0;
      requiredFieldIndex := 0;
      dest := destStruct;
      pData := destStruct + FieldAt(fields, 0).dataOffset;
      pSize := pData + FieldAt(fields, 0).sizeOffset;
      return FieldAt(fields, 0).tag != 0;
    }

    /** pb_field_iter_next: on to the next field, or back to the first with false. */
    method Next() returns (more: bool)
      requires Valid()
      requires forall f :: f in start ==> f.tag != 0
      modifies this
      ensures Valid() && start == old(start) && dest == old(dest)
      ensures more <==> old(pos) + 1 < |start|
      ensures pos == if more then old(pos) + 1 else 0
    {
      var prev := FieldAt(start, pos);
      if prev.tag == 0 {
        return false;
      }
      pos := pos + 1;
      if FieldAt(start, pos).tag == 0 {
        var _ := Begin(start, dest);
        return false;
      }
      var here := FieldAt(start, pos);
      var prevSize := prev.dataSize;
      if prev.htype.OneOf? && here.htype.OneOf? && here.dataOffset == PB_SIZE_MAX {
        return true;
      } else if prev.htype.Repeated? {
        prevSize := prevSize * prev.arraySize;
      }
      if prev.htype.Required? {
        requiredFieldIndex := requiredFieldIndex + 1;
      }
      pData := pData + prevSize + here.dataOffset;
      pSize := pData + here.sizeOffset;
      return true;
    }

    /** pb_field_iter_find: from any position, stops at a field with the tag if the table has
        one, and otherwise is back where it started. The terminator of an empty table has tag 0. */
    method FindTag(tag: nat) returns (found: bool)
      requires Valid()
      requires forall f :: f in start ==> f.tag != 0
      modifies this
      ensures Valid() && start == old(start) && dest == old(dest)
      ensures found <==> (exists f :: f in start && f.tag == tag) || (start == [] && tag == 0)
      ensures found ==> FieldAt(start, pos).tag == tag
      ensures !found ==> pos == old(pos)
    {
      var first := pos;
      if FieldAt(start, pos).tag == tag {
        return true;
      }
      var _ := Next();
      while pos != first
        invariant Valid() && start == old(start) && dest == old(dest)
        invariant forall i :: 0 <= i < |start| && Visited(first, pos, i) ==> start[i].tag != tag
        decreases if pos > first then |start| - pos + first else first - pos
      {
        if FieldAt(start, pos).tag == tag {
          return true;
        }
        var _ := Next();
      }
      return false;
    }
  }

  /** Field `i` lies on the way from `first` to `pos`, going round the table; all the way
      round when the two are equal. */
  predicate Visited(first: nat, pos: nat, i: nat)
  {
    if first < pos then first <= i < pos else first <= i || i < pos
  }
}
