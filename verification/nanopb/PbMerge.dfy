/** Decoding is a fold over whole fields: bytes that end on a field boundary can be decoded
    first and the rest on top of the result. This is the merging pb_decode_noinit offers. */
module PbMerge {
  import opened PbWire
  import opened PbSchema
  import opened PbDecode

  // ---------------------------------------------------------------- bytes behind a field

  lemma {:induction false} LeafAppend(f: Field, a: seq<Byte>, b: seq<Byte>)
    requires !f.ltype.Submessage? && ParseLeaf(f, a).Ok?
    ensures var r := ParseLeaf(f, a); ParseLeaf(f, a + b) == Ok(r.value, r.rest + b)
  {
    if f.ltype.Fixed32? {
      RawAppend(a, b, 4);
    } else if f.ltype.Fixed64? {
      RawAppend(a, b, 8);
    } else if f.ltype.Bytes? || f.ltype.String? || f.ltype.FixedBytes? {
      BlobAppend(f, a, b);
    } else {
      VarintAppend(a, b, 10, TWO64);
    }
  }

  lemma {:induction false} BlobAppend(f: Field, a: seq<Byte>, b: seq<Byte>)
    requires ParseBlob(f, a).Ok?
    ensures var r := ParseBlob(f, a); ParseBlob(f, a + b) == Ok(r.value, r.rest + b)
  {
    hide ParseVarint32;
    Varint32Append(a, b);
    var r := ParseVarint32(a);
    if ParseRaw(r.rest, r.value).Ok? {
      RawAppend(r.rest, b, r.value);
    }
  }

  lemma {:induction false} Varint32Append(a: seq<Byte>, b: seq<Byte>)
    requires ParseVarint32(a).Ok?
    ensures var r := ParseVarint32(a); ParseVarint32(a + b) == Ok(r.value, r.rest + b)
  {
    VarintAppend(a, b, 5, TWO32);
  }

  lemma {:induction false} ValueAppend(f: Field, prior: Value, a: seq<Byte>, b: seq<Byte>)
    requires ParseValue(f, prior, a).Ok?
    ensures var r := ParseValue(f, prior, a); ParseValue(f, prior, a + b) == Ok(r.value, r.rest + b)
  {
    hide ParseLeaf, ParseDelimited, DecodeNoInit;
    if f.ltype.Submessage? {
      DelimitedAppend(a, b);
    } else {
      LeafAppend(f, a, b);
    }
  }

  lemma {:induction false} FieldAppend(f: Field, wiretype: nat, s: Slot, a: seq<Byte>, b: seq<Byte>)
    requires ParseField(f, wiretype, s, a).Ok?
    ensures var r := ParseField(f, wiretype, s, a); ParseField(f, wiretype, s, a + b) == Ok(r.value, r.rest + b)
  {
    hide ParseValue, ParsePacked, ParseDelimited;
    if f.htype.Repeated? && wiretype == WT_STRING && f.Packable() {
      DelimitedAppend(a, b);
    } else {
      ValueAppend(f, Held(s), a, b);
    }
  }

  /** The loop over a ++ b goes through the state it has after a, when a ends on a field boundary. */
  lemma {:induction false} LoopAppend(t: Table, st: State, a: seq<Byte>, b: seq<Byte>)
    requires Loop(t, st, a).Done?
    ensures Loop(t, st, a + b) == Loop(t, Loop(t, st, a).st, b)
    decreases |a|
  {
    hide ParseTag, ParseField, Skip, Offset, Find;
    if a == [] {
      assert a + b == b;
      return;
    }
    TagAppend(a, b);
    var Tag(wiretype, tag, rest) := ParseTag(a);
    var i := Find(t, tag);
    if i == |t| {
      SkipAppend(wiretype, rest, b);
      LoopAppend(t, st, Skip(wiretype, rest).value, b);
    } else {
      var s := At(st.m, Offset(t, i));
      FieldAppend(t[i], wiretype, s, rest, b);
      var r := ParseField(t[i], wiretype, s, rest);
      LoopAppend(t, Meet(t, st, i, r.value), r.rest, b);
    }
  }

  // ---------------------------------------------------------------- the required check

  /** Which required fields were met before has no influence on what the loop does; it is
      only added to. */
  lemma {:induction false} SeenAccumulates(t: Table, m: Struct, seen: set<nat>, input: seq<Byte>)
    ensures var o, p := Loop(t, State(m, seen), input), Loop(t, State(m, {}), input);
            && (o.Failed? <==> p.Failed?) && (o.Done? <==> p.Done?)
            && (!o.Failed? ==> o.st.m == p.st.m && o.st.seen == seen + p.st.seen)
    decreases |input|
  {
    hide ParseTag, ParseField, Skip, Offset, Find;
    if input == [] || !ParseTag(input).Tag? {
      return;
    }
    var Tag(wiretype, tag, rest) := ParseTag(input);
    var i := Find(t, tag);
    if t == [] && tag == 0 {
      return;
    }
    if i == |t| {
      if Skip(wiretype, rest).Some? {
        SeenAccumulates(t, m, seen, Skip(wiretype, rest).value);
      }
    } else {
      var r := ParseField(t[i], wiretype, At(m, Offset(t, i)), rest);
      if r.Ok? {
        var x, y := Meet(t, State(m, seen), i, r.value), Meet(t, State(m, {}), i, r.value);
        assert x.m == y.m;
        SeenAccumulates(t, x.m, x.seen, r.rest);
        SeenAccumulates(t, y.m, y.seen, r.rest);
        assert x.seen == seen + y.seen;
      }
    }
  }

  /** Decoding a ++ b, when a ends on a field boundary, is decoding b on top of the struct
      that a left, with the required fields counted over both. */
  lemma {:induction false} MergeByConcatenation(t: Table, m: Struct, a: seq<Byte>, b: seq<Byte>)
    requires Loop(t, State(m, {}), a).Done?
    ensures var x := Loop(t, State(m, {}), a).st;
            var y := Loop(t, State(x.m, {}), b);
            DecodeNoInit(t, m, a + b) == (if !y.Failed? && AllSeen(t, x.seen + y.st.seen) then Some(y.st.m) else None)
  {
    LoopAppend(t, State(m, {}), a, b);
    var x := Loop(t, State(m, {}), a).st;
    SeenAccumulates(t, x.m, x.seen, b);
  }

  /** So when each part alone has all its required fields, concatenating is decoding twice. */
  lemma {:induction false} DecodeTwice(t: Table, m: Struct, a: seq<Byte>, b: seq<Byte>)
    requires Loop(t, State(m, {}), a).Done? && DecodeNoInit(t, m, a).Some?
    ensures var x := DecodeNoInit(t, m, a).value;
            DecodeNoInit(t, x, b).Some? ==> DecodeNoInit(t, m, a + b) == DecodeNoInit(t, x, b)
  {
    MergeByConcatenation(t, m, a, b);
  }

  // ---------------------------------------------------------------- a field met twice

  lemma {:induction false} IgnoresSlot(f: Field, wiretype: nat, s: Slot, s': Slot, input: seq<Byte>)
    requires !f.htype.Repeated? && (!f.ltype.Submessage? || f.htype.OneOf?)
    ensures ParseField(f, wiretype, s, input) == ParseField(f, wiretype, s', input)
  {
  }

  lemma {:induction false} TurnOf(t: Table, st: State, j: nat, wiretype: nat, input: seq<Byte>)
    requires WellFormed(t) && j < |t| && wiretype < 8
    ensures Loop(t, st, EncodeTag(wiretype, t[j].tag) + input) ==
              match ParseField(t[j], wiretype, At(st.m, Offset(t, j)), input)
              case Err(_) => Failed
              case Ok(s, rest) => Loop(t, Meet(t, st, j, s), rest)
  {
    hide ParseField;
    assert WellFormedField(t[j]);
    TagRoundTrip(wiretype, t[j].tag, input);
    FindIs(t, j);
  }

  /** Last one wins: a single leaf or an arm of a oneof, met again or followed by another arm of the
      same union, leaves no trace in what the decoder does or returns. */
  lemma {:induction false} LastOneWins(t: Table, st: State, i: nat, j: nat, wi: nat, wj: nat, x: seq<Byte>,
      more: seq<Byte>)
    requires WellFormed(t) && i < |t| && j < |t| && wi < 8 && wj < 8
    requires i == j || (t[i].htype.OneOf? && t[j].htype.OneOf? && Offset(t, i) == Offset(t, j))
    requires !t[j].htype.Repeated? && (!t[j].ltype.Submessage? || t[j].htype.OneOf?)
    requires var r := ParseField(t[i], wi, At(st.m, Offset(t, i)), x); r.Ok? && r.rest == []
    ensures Loop(t, st, EncodeTag(wi, t[i].tag) + x + (EncodeTag(wj, t[j].tag) + more))
         == Loop(t, st, EncodeTag(wj, t[j].tag) + more)
  {
    hide Loop, ParseField, EncodeTag, ParseTag;
    var o, s := Offset(t, i), At(st.m, Offset(t, i));
    var second := EncodeTag(wj, t[j].tag) + more;
    var r := ParseField(t[i], wi, s, x);
    FieldAppend(t[i], wi, s, x, second);
    assert [] + second == second;
    assert EncodeTag(wi, t[i].tag) + x + second == EncodeTag(wi, t[i].tag) + (x + second);
    TurnOf(t, st, i, wi, x + second);
    var st1 := Meet(t, st, i, r.value);
    TurnOf(t, st1, j, wj, more);
    TurnOf(t, st, j, wj, more);
    IgnoresSlot(t[j], wj, At(st1.m, o), s, more);
    var q := ParseField(t[j], wj, s, more);
    if q.Ok? {
      assert st.m[o := r.value][o := q.value] == st.m[o := q.value];
      assert Meet(t, st1, j, q.value) == Meet(t, st, j, q.value);
    }
  }

  /** Arrays append: what a further occurrence adds is what it would have given alone. */
  lemma {:induction false} ArraysAppend(f: Field, wiretype: nat, s: Slot, input: seq<Byte>)
    requires f.htype.Repeated? && ParseField(f, wiretype, s, input).Ok?
    ensures var r := ParseField(f, wiretype, s, input);
            var alone := ParseField(f, wiretype, Rep([]), input);
            alone.Ok? && alone.rest == r.rest && alone.value.Rep? && r.value == Rep(Items(s) + alone.value.items)
  {
    hide ParseDelimited, ParsePacked, ParseValue, DecodeNoInit;
    if wiretype == WT_STRING && f.Packable() {
      var body := ParseDelimited(input).value;
      assert Items(s) + [] == Items(s);
      PackedAppends(f, Items(s), [], body);
    } else {
      IgnoresPrior(f, Held(s), Held(Rep([])), input);
    }
  }

  lemma {:induction false} PackedAppends(f: Field, have: seq<Value>, more: seq<Value>, body: seq<Byte>)
    requires f.Packable() && ParsePacked(f, have + more, body).Some?
    ensures var r := ParsePacked(f, more, body);
            r.Some? && ParsePacked(f, have + more, body) == Some(have + r.value)
    decreases |body|
  {
    hide ParseLeaf;
    if body != [] {
      var r := ParseLeaf(f, body);
      assert have + more + [r.value] == have + (more + [r.value]);
      PackedAppends(f, have, more + [r.value], r.rest);
    }
  }

  /** Submessages merge: two occurrences of a required or optional submessage, the first ending
      on a field boundary, leave what one occurrence with both bodies would. */
  lemma {:induction false} SubmessagesMerge(f: Field, prior: Value, x: seq<Byte>, y: seq<Byte>)
    requires f.ltype.Submessage? && !f.htype.Repeated? && !f.htype.OneOf?
    requires |x| + |y| < TWO32
    requires Loop(f.ltype.fields, State(Slots(prior), {}), x).Done?
    requires ParseValue(f, prior, EncodeDelimited(x)).Ok?
    requires ParseValue(f, ParseValue(f, prior, EncodeDelimited(x)).value, EncodeDelimited(y)).Ok?
    ensures ParseValue(f, prior, EncodeDelimited(x + y))
         == ParseValue(f, ParseValue(f, prior, EncodeDelimited(x)).value, EncodeDelimited(y))
  {
    hide Loop, ParseDelimited, EncodeDelimited;
    var sub := f.ltype.fields;
    DelimitedAlone(x);
    DelimitedAlone(y);
    DelimitedAlone(x + y);
    DecodeTwice(sub, Slots(prior), x, y);
  }

  lemma {:induction false} DelimitedAlone(body: seq<Byte>)
    requires |body| < TWO32
    ensures ParseDelimited(EncodeDelimited(body)) == Ok(body, [])
  {
    DelimitedRoundTrip(body, []);
    assert EncodeDelimited(body) + [] == EncodeDelimited(body);
  }
}
