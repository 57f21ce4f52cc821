/** The one thing the round trip asks for beyond a valid message: a decoder accepts what the
    encoder wrote exactly when every live string, at any depth, is terminated in its buffer. */
module PbTerminator {
  import opened PbWire
  import opened PbSchema
  import opened PbEncode
  import opened PbDecode
  import opened PbEvolution
  import opened PbRequired

  /** The live values of field `i` are terminated. */
  ghost predicate FieldTerminated(t: Table, i: nat, m: Struct)
    requires i < |t|
  {
    forall v :: v in ViewAt(t, i, m) ==> TerminatedValue(t[i], v)
  }

  lemma {:induction false} ValueFails(f: Field, v: Value, prior: Value, more: seq<Byte>)
    requires WellFormedField(f) && ValidValue(f, v) && !TerminatedValue(f, v)
    requires EncodeValue(f, v).Some? && |EncodeValue(f, v).value| < TWO32
    requires f.ltype.Submessage? && !f.htype.Repeated? && !f.htype.OneOf? ==> prior == DefaultValue(f)
    ensures ParseValue(f, prior, EncodeValue(f, v).value + more).Err?
    decreases f, 0
  {
    if f.ltype.Submessage? {
      var sub := f.ltype.fields;
      DelimitedRoundTrip(Encode(sub, v.slots).value, more);
      assert WellFormed(sub);
      DefaultCleared(sub);
      MessageFails(sub, v.slots, Default(sub));
    } else {
      StringNeedsTerminator(f, v, more);
    }
  }

  lemma {:induction false} LoopStops(t: Table, st: State, j: nat, wiretype: nat, payload: seq<Byte>)
    requires WellFormed(t) && j < |t| && wiretype < 8
    requires ParseField(t[j], wiretype, At(st.m, Offset(t, j)), payload).Err?
    ensures Loop(t, st, EncodeTag(wiretype, t[j].tag) + payload).Failed?
  {
    assert WellFormedField(t[j]);
    TagRoundTrip(wiretype, t[j].tag, payload);
    FindIs(t, j);
  }

  /** Items under their tags, one of them unterminated. */
  lemma {:induction false} TaggedFails(t: Table, j: nat, items: seq<Value>, st: State, more: seq<Byte>)
    requires WellFormed(t) && j < |t| && WellFormedField(t[j]) && CompatField(t[j], t[j])
    requires forall v :: v in items ==> ValidValue(t[j], v)
    requires EncodeTagged(t[j], items).Some? && |EncodeTagged(t[j], items).value| < TWO32
    requires !t[j].Packable() && exists v :: v in items && !TerminatedValue(t[j], v)
    requires if t[j].htype.Repeated? then |Items(At(st.m, Offset(t, j)))| + |items| <= t[j].arraySize
             else |items| == 1 && (t[j].htype.OneOf? || Held(At(st.m, Offset(t, j))) == DefaultValue(t[j]))
    ensures Loop(t, st, EncodeTagged(t[j], items).value + more).Failed?
    decreases t[j], 1, |items|
  {
    hide WellFormed, WellFormedField, CompatField, ValidValue, TerminatedValue, EncodeValue, EncodeTag, Loop,
      Offset, ParseValue;
    var f, s := t[j], At(st.m, Offset(t, j));
    TaggedBytes(f, items, more);
    var v, later := items[0], items[1..];
    var tail := EncodeTagged(f, later).value + more;
    if TerminatedValue(f, v) {
      assert f.htype.Repeated?;
      var w := TaggedStep(f, t, j, v, st, tail);
      var s1 := Rep(Items(s) + [w]);
      MetAtOnce(t, st, j, s1);
      assert exists x :: x in later && !TerminatedValue(f, x);
      TaggedFails(t, j, later, Meet(t, st, j, s1), more);
    } else {
      ValueFails(f, v, Held(s), tail);
      LoopStops(t, st, j, WireType(f.ltype), EncodeValue(f, v).value + tail);
    }
  }

  lemma {:induction false} FieldFails(t: Table, j: nat, m: Struct, st: State, more: seq<Byte>)
    requires WellFormed(t) && j < |t| && WellFormedField(t[j]) && CompatField(t[j], t[j])
    requires ValidSlot(t[j], At(m, Offset(t, j))) && !FieldTerminated(t, j, m) && Fresh(t, j, st.m)
    requires var e := EncodeField(t[j], At(m, Offset(t, j))); e.Some? && |e.value| < TWO32
    ensures Loop(t, st, EncodeField(t[j], At(m, Offset(t, j))).value + more).Failed?
    decreases t[j], 2
  {
    var f, items := t[j], ViewAt(t, j, m);
    ViewValid(f, At(m, Offset(t, j)));
    assert exists v :: v in items && !TerminatedValue(f, v);
    assert f.htype.Repeated? ==> Items(At(st.m, Offset(t, j))) == [];
    TaggedFails(t, j, items, st, more);
  }

  lemma {:induction false} FieldsFail(t: Table, m: Struct, i: nat, st: State)
    requires WellFormed(t) && Compat(t, t) && ValidStruct(t, m) && i < |t|
    requires exists k :: i <= k < |t| && !FieldTerminated(t, k, m)
    requires EncodeFrom(t, m, i).Some? && |EncodeFrom(t, m, i).value| < TWO32
    requires Progress(t, m, t, i, st)
    ensures Loop(t, st, EncodeFrom(t, m, i).value).Failed?
    decreases t, 3, |t| - i
  {
    hide WellFormed, Compat, ValidStruct, Loop, EncodeField, Progress, Offset, ViewAt;
    var e, tail := EncodeField(t[i], At(m, Offset(t, i))), EncodeFrom(t, m, i + 1);
    assert EncodeFrom(t, m, i) == Append(e, tail);
    if FieldTerminated(t, i, m) {
      var st1 := NextFieldRoundTrip(t, m, t, i, st, tail.value);
      FieldsFail(t, m, i + 1, st1);
    } else {
      FieldReady(t, m, i, st);
      FieldFails(t, i, m, st, tail.value);
    }
  }

  lemma {:induction false} FieldReady(t: Table, m: Struct, i: nat, st: State)
    requires WellFormed(t) && Compat(t, t) && ValidStruct(t, m) && i < |t| && Progress(t, m, t, i, st)
    ensures WellFormedField(t[i]) && CompatField(t[i], t[i]) && ValidSlot(t[i], At(m, Offset(t, i)))
            && Fresh(t, i, st.m)
  {
    FindIs(t, i);
    assert ProgressAt(t, m, t, i, st, i);
  }

  lemma {:induction false} NoProgress(t: Table, m: Struct, w0: Struct)
    requires Cleared(t, w0)
    ensures Progress(t, m, t, 0, State(w0, {}))
  {
    forall j | 0 <= j < |t| ensures ProgressAt(t, m, t, 0, State(w0, {}), j) {
      assert At(w0, Offset(t, j)) == DefaultSlot(t[j]);
    }
  }

  lemma {:induction false} SomeUnterminated(t: Table, m: Struct)
    requires !Terminated(t, m)
    ensures exists k :: 0 <= k < |t| && !FieldTerminated(t, k, m)
  {
    var k, v :| 0 <= k < |t| && v in ViewAt(t, k, m) && !TerminatedValue(t[k], v);
    assert !FieldTerminated(t, k, m);
  }

  /** An unterminated string anywhere in a message, and the decoder refuses its encoding. */
  lemma {:induction false} MessageFails(t: Table, m: Struct, w0: Struct)
    requires WellFormed(t) && ValidStruct(t, m) && !Terminated(t, m) && Cleared(t, w0)
    requires Encode(t, m).Some? && |Encode(t, m).value| < TWO32
    ensures DecodeNoInit(t, w0, Encode(t, m).value).None?
    decreases t, 4
  {
    hide WellFormed, Compat, Cleared, ValidStruct, Progress, Loop, ViewAt, TerminatedValue;
    var st := State(w0, {});
    NoProgress(t, m, w0);
    CompatSelf(t);
    SomeUnterminated(t, m);
    FieldsFail(t, m, 0, st);
  }

  /** pb_decode undoes pb_encode, on a table on which the check of required fields is defined: it
      accepts the encoding of a valid message exactly when every live string has its terminator
      inside its buffer, and then gives the same has flags, which tags, counts and live values in
      every field, through any nesting. */
  lemma {:induction false} RoundTrip(t: Table, m: Struct, w0: Struct) returns (w: Struct)
    requires Runnable(t) && ValidStruct(t, m) && Cleared(t, w0)
    requires Encode(t, m).None? || |Encode(t, m).value| < TWO32
    ensures Encode(t, m).Some? && (DecodeNoInit(t, w0, Encode(t, m).value).Some? <==> Terminated(t, m))
    ensures Terminated(t, m) ==>
              && DecodeNoInit(t, w0, Encode(t, m).value) == Some(w)
              && forall i :: 0 <= i < |t| ==> SameItems(t[i], t[i], ViewAt(t, i, m), ViewAt(t, i, w))
  {
    ValidEncodes(t, m, 0);
    CompatSelf(t);
    if Terminated(t, m) {
      w := MessageOnto(t, m, t, w0);
      forall i | 0 <= i < |t| ensures SameItems(t[i], t[i], ViewAt(t, i, m), ViewAt(t, i, w)) {
        FindIs(t, i);
      }
    } else {
      MessageFails(t, m, w0);
      w := m;
    }
  }
}
