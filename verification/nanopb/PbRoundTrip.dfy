/** The encoder and the decoder as they run, one after the other. */
module PbRoundTrip {
  import opened PbWire
  import opened PbSchema
  import opened PbEncode
  import opened PbDecode
  import opened PbEvolution
  import opened PbTerminator
  import opened PbRequired
  import opened PbFailure
  import opened PbInput
  import opened PbDecoder
  import opened PbEncoder

  // ---------------------------------------------------------------- valid structs are in memory

  /** A valid struct has the shape of its memory, and parts of it encode in less than the whole. */
  lemma {:induction false} ValidIsStored(t: Table, m: Struct)
    requires WellFormed(t) && ValidStruct(t, m) && Encode(t, m).Some? && |Encode(t, m).value| < TWO64
    ensures Stored(t, m)
    decreases t, 3
  {
    forall i | 0 <= i < |t| ensures StoredSlot(t[i], At(m, Offset(t, i))) {
      ValidParts(t, m, i);
      FieldWithin(t, m, 0, i);
      SlotIsStored(t[i], At(m, Offset(t, i)));
    }
  }

  lemma {:induction false} FieldWithin(t: Table, m: Struct, k: nat, i: nat)
    requires k <= i < |t| && EncodeFrom(t, m, k).Some?
    ensures var e := EncodeField(t[i], At(m, Offset(t, i))); e.Some? && |e.value| <= |EncodeFrom(t, m, k).value|
    decreases i - k
  {
    hide EncodeField, Offset;
    if k < i {
      FieldWithin(t, m, k + 1, i);
    }
  }

  lemma {:induction false} SlotIsStored(f: Field, s: Slot)
    requires WellFormedField(f) && ValidSlot(f, s) && EncodeField(f, s).Some? && |EncodeField(f, s).value| < TWO64
    ensures StoredSlot(f, s)
    decreases f, 2
  {
    hide EncodeValue, ValidValue, StoredValue, EncodePacked, EncodeTagged;
    ViewValid(f, s);
    var items := View(f, s);
    NothingWritten(f);
    if f.htype.Repeated? && f.Packable() {
      forall v | v in items ensures StoredValue(f, v) {
        PlainIsStored(f, v);
      }
    } else {
      SinglePacked(f, items);
      forall v | v in items ensures StoredValue(f, v) {
        ItemWithin(f, items, v);
        ValueIsStored(f, v);
      }
    }
  }

  lemma {:induction false} NothingWritten(f: Field)
    ensures EncodePacked(f, []) == Some([]) && EncodeTagged(f, []) == Some([])
  {
  }

  /** A packable field that is no array writes at most its one item. */
  lemma {:induction false} SinglePacked(f: Field, items: seq<Value>)
    requires |items| <= 1 || !f.Packable()
    requires EncodeTagged(f, items).Some?
    ensures f.Packable() ==> EncodePacked(f, items).Some? ==>
            |EncodePacked(f, items).value| <= |EncodeTagged(f, items).value|
  {
    if |items| == 1 {
      assert items[1..] == [];
    }
  }

  lemma {:induction false} ItemWithin(f: Field, items: seq<Value>, v: Value)
    requires v in items && EncodeTagged(f, items).Some?
    ensures EncodeValue(f, v).Some? && |EncodeValue(f, v).value| <= |EncodeTagged(f, items).value|
    decreases |items|
  {
    if items[0] != v {
      ItemWithin(f, items[1..], v);
    }
  }

  lemma {:induction false} PlainIsStored(f: Field, v: Value)
    requires f.Packable() && ValidValue(f, v)
    ensures StoredValue(f, v)
  {
  }

  lemma {:induction false} ValueIsStored(f: Field, v: Value)
    requires WellFormedField(f) && ValidValue(f, v) && EncodeValue(f, v).Some? && |EncodeValue(f, v).value| < TWO64
    ensures StoredValue(f, v)
    decreases f, 1
  {
    if f.ltype.Submessage? {
      assert |Encode(f.ltype.fields, v.slots).value| <= |EncodeValue(f, v).value|;
      ValidIsStored(f.ltype.fields, v.slots);
    }
  }

  lemma {:induction false} SetToDefaultsClears(t: Table, m: Struct)
    requires WellFormed(t)
    ensures Cleared(t, DefaultFrom(t, 0, m))
  {
    forall j | 0 <= j < |t| ensures At(DefaultFrom(t, 0, m), Offset(t, j)) == DefaultSlot(t[j]) {
      DefaultFromAt(t, 0, m, j);
    }
  }

  // ---------------------------------------------------------------- the two together

  /** pb_encode into a buffer with room for it, and pb_decode from what was written into a struct that
      may hold anything: exactly when every live string is terminated it succeeds, and then every
      field has its has flag, which tag, count and live values again. */
  method EncodeThenDecode(t: Table, m: Struct, m0: Struct, bufsize: nat, mem: Memory) returns (ok: bool, w: Struct)
    requires Runnable(t) && ValidStruct(t, m) && bufsize < TWO32
    requires Encode(t, m).Some? ==> |Encode(t, m).value| <= bufsize
    ensures ok <==> Terminated(t, m)
    ensures ok ==> forall i :: 0 <= i < |t| ==> SameItems(t[i], t[i], ViewAt(t, i, m), ViewAt(t, i, w))
  {
    hide Runnable, ValidStruct, Terminated, Stored, SameItems, ViewAt, DecodeNoInit, Cleared, DefaultFrom, LoopLeft,
      Loop, Encode;
    RunnableParts(t);
    ValidEncodes(t, m, 0);
    EncodeIs(t, m);
    ValidIsStored(t, m);
    SetToDefaultsClears(t, m0);
    ghost var read := RoundTrip(t, m, DefaultFrom(t, 0, m0));
    var buffer := new Byte[bufsize];
    var encoded, written := EncodeToBuffer(buffer, bufsize, t, m);
    var stream := new IStream(buffer[..written]);
    ok, w := DecodeMessage(stream, t, m0, mem);
  }

  lemma {:induction false} EncodeIs(t: Table, m: Struct)
    ensures Encode(t, m) == EncodeFrom(t, m, 0)
  {
  }

  /** The same with a reader that has another table: with every valid and terminated message of a
      compatible writer it succeeds, and has the writer's data in every field both know. */
  method EncodeThenRead(t: Table, m: Struct, u: Table, m0: Struct, bufsize: nat, mem: Memory)
    returns (ok: bool, w: Struct)
    requires WellFormed(t) && Runnable(u) && Compat(t, u)
    requires ValidStruct(t, m) && Terminated(t, m) && bufsize < TWO32
    requires Encode(t, m).Some? ==> |Encode(t, m).value| <= bufsize
    ensures ok && SameStruct(t, m, u, w)
  {
    hide Runnable, WellFormed, Compat, ValidStruct, Terminated, Stored, SameStruct, DecodeNoInit, Cleared,
      DefaultFrom, LoopLeft, Loop, Encode;
    RunnableParts(u);
    ValidEncodes(t, m, 0);
    EncodeIs(t, m);
    ValidIsStored(t, m);
    SetToDefaultsClears(u, m0);
    ghost var read := MessageOnto(t, m, u, DefaultFrom(u, 0, m0));
    var buffer := new Byte[bufsize];
    var encoded, written := EncodeToBuffer(buffer, bufsize, t, m);
    var stream := new IStream(buffer[..written]);
    ok, w := DecodeMessage(stream, u, m0, mem);
  }
}
