/** What a reader with one table makes of bytes written under another. With the same table
    twice this is the round trip; with fields removed from the reader's table it is the
    transparency of unknown fields; with fields added, they come out at their defaults. */
module PbEvolution {
  import opened PbWire
  import opened PbSchema
  import opened PbEncode
  import opened PbDecode
  import opened PbRequired

  // ---------------------------------------------------------------- compatible tables

  /** Field `g` can read everything written for field `f`: the same tag, type and rule, and
      room for at least as much. */
  ghost predicate CompatField(f: Field, g: Field)
    decreases f
  {
    && f.tag == g.tag && f.htype == g.htype && f.Singular() == g.Singular()
    && f.arraySize <= g.arraySize
    && match f.ltype
       case Submessage(sub) => g.ltype.Submessage? && Compat(sub, g.ltype.fields)
       case FixedBytes => g.ltype == f.ltype && f.dataSize == g.dataSize
       case _ => g.ltype == f.ltype && f.dataSize <= g.dataSize
  }

  /** The writer's table `t` and the reader's table `u` agree on the tags they share, the
      writer has every field the reader requires, and oneof arms the reader keeps in one
      union come from one union. Either may have other fields, in any order. */
  ghost predicate Compat(t: Table, u: Table)
    decreases t
  {
    && (forall i, j :: 0 <= i < |t| && 0 <= j < |u| && t[i].tag == u[j].tag ==> CompatField(t[i], u[j]))
    && (forall j :: 0 <= j < |u| && u[j].htype.Required? ==> Find(t, u[j].tag) < |t|)
    && (forall j, k :: 0 <= j < |u| && 0 <= k < |u| ==> UnionKept(t, u, j, k))
  }

  predicate UnionKept(t: Table, u: Table, j: nat, k: nat)
    requires j < |u| && k < |u|
  {
    var (a, b) := (Find(t, u[j].tag), Find(t, u[k].tag));
    a < |t| && b < |t| && Offset(u, j) == Offset(u, k) ==> Offset(t, a) == Offset(t, b)
  }

  /** Every table can read its own bytes. */
  lemma {:induction false} CompatSelf(t: Table)
    requires WellFormed(t)
    ensures Compat(t, t)
    decreases t
  {
    forall i, j | 0 <= i < |t| && 0 <= j < |t| && t[i].tag == t[j].tag ensures CompatField(t[i], t[j]) {
      assert i == j && WellFormedField(t[i]);
      CompatSelfField(t[i]);
    }
    forall j, k | 0 <= j < |t| && 0 <= k < |t| ensures UnionKept(t, t, j, k) {
      FindIs(t, j);
      FindIs(t, k);
    }
    forall j | 0 <= j < |t| ensures Find(t, t[j].tag) < |t| {
      FindIs(t, j);
    }
  }

  lemma {:induction false} CompatSelfField(f: Field)
    requires WellFormedField(f)
    ensures CompatField(f, f)
    decreases f
  {
    if f.ltype.Submessage? {
      CompatSelf(f.ltype.fields);
    }
  }

  // ---------------------------------------------------------------- the same live data

  /** `w`, in a member described by `g`, is what was written as `v` from one described by `f`. */
  ghost predicate SameValue(f: Field, g: Field, v: Value, w: Value)
    decreases f, 0
  {
    match f.ltype
    case Submessage(sub) =>
      g.ltype.Submessage? && v.Msg? && w.Msg? && SameStruct(sub, v.slots, g.ltype.fields, w.slots)
    case String => v.Blob? && w == Blob(CString(v.bs))
    case _ => w == v
  }

  ghost predicate SameItems(f: Field, g: Field, vs: seq<Value>, ws: seq<Value>)
    decreases f, 1
  {
    |vs| == |ws| && forall k :: 0 <= k < |vs| ==> SameValue(f, g, vs[k], ws[k])
  }

  /** The reader's struct `w` has the writer's live data in every field the two tables share
      (has flags, counts, which tags and values alike), and defaults in the others. */
  ghost predicate SameStruct(t: Table, m: Struct, u: Table, w: Struct)
    decreases t, 0
  {
    forall j :: 0 <= j < |u| ==>
      var i := Find(t, u[j].tag);
      if i < |t| then SameItems(t[i], u[j], ViewAt(t, i, m), ViewAt(u, j, w))
      else ViewAt(u, j, w) == View(u[j], DefaultSlot(u[j]))
  }

  // ---------------------------------------------------------------- one item

  lemma {:induction false} SignedInRange(bytes: nat, v: int)
    requires IntSize(bytes) && InSigned(bytes, v)
    ensures Signed(bytes, U64(v)) == v && Signed(bytes, v) == v
  {
    var m := Modulus(bytes);
    U64Mod(bytes, v);
    assert v % m == if v < 0 then v + m else v;
  }

  lemma {:induction false} U64Mod(bytes: nat, v: int)
    requires IntSize(bytes)
    ensures U64(v) % Modulus(bytes) == v % Modulus(bytes)
  {
    var q := v / TWO64;
    if bytes == 1 {
      MultipleMod(v, q * (TWO64 / 0x100), 0x100);
    } else if bytes == 2 {
      MultipleMod(v, q * (TWO64 / 0x1_0000), 0x1_0000);
    } else if bytes == 4 {
      MultipleMod(v, q * TWO32, TWO32);
    } else {
      MultipleMod(v, q, TWO64);
    }
  }

  lemma {:induction false} IntegerRoundTrip(f: Field, g: Field, v: Value)
    requires WellFormedField(f) && WellFormedField(g) && CompatField(f, g)
    requires f.ltype.Varint? || f.ltype.UVarint? || f.ltype.SVarint?
    requires ValidValue(f, v)
    ensures FitInteger(g, if f.ltype.SVarint? then ZigZag(v.v) else U64(v.v)) == Some(v)
  {
    match f.ltype
    case Varint => VarintFits(g, v.v);
    case UVarint => UVarintFits(g, v.v);
    case SVarint => SVarintFits(g, v.v);
  }

  lemma {:induction false} VarintFits(g: Field, v: int)
    requires g.ltype.Varint? && IntSize(g.dataSize) && InSigned(g.dataSize, v)
    ensures FitInteger(g, U64(v)) == Some(Int(v))
  {
    SignedInRange(g.dataSize, v);
    if g.dataSize < 8 {
      assert InSigned(4, v);
      SignedInRange(4, v);
    }
  }

  lemma {:induction false} UVarintFits(g: Field, v: int)
    requires g.ltype.UVarint? && IntSize(g.dataSize) && InUnsigned(g.dataSize, v)
    ensures FitInteger(g, U64(v)) == Some(Int(v))
  {
    assert U64(v) == v;
    assert v % Modulus(g.dataSize) == v;
  }

  lemma {:induction false} SVarintFits(g: Field, v: int)
    requires g.ltype.SVarint? && IntSize(g.dataSize) && InSigned(g.dataSize, v)
    ensures FitInteger(g, ZigZag(v)) == Some(Int(v))
  {
    assert InSigned(8, v);
    ZigZagBijection(v, 0);
    SignedInRange(g.dataSize, v);
  }

  lemma {:induction false} LeafRoundTrip(f: Field, g: Field, v: Value, more: seq<Byte>) returns (w: Value)
    requires WellFormedField(f) && WellFormedField(g) && CompatField(f, g) && !f.ltype.Submessage?
    requires ValidValue(f, v) && TerminatedValue(f, v) && EncodeValue(f, v).Some?
    ensures ParseLeaf(g, EncodeValue(f, v).value + more) == Ok(w, more)
    ensures SameValue(f, g, v, w)
    ensures f.Packable() ==> w == v
  {
    w := if f.ltype.String? then Blob(CString(v.bs)) else v;
    if f.ltype.Fixed32? || f.ltype.Fixed64? {
      FixedLeaf(f, g, v, more);
    } else if f.ltype.Bytes? || f.ltype.FixedBytes? {
      BlobLeaf(f, g, v, more);
    } else if f.ltype.String? {
      StringLeaf(f, g, v, more);
    } else {
      IntegerLeaf(f, g, v, more);
    }
  }

  lemma {:induction false} FixedLeaf(f: Field, g: Field, v: Value, more: seq<Byte>)
    requires (f.ltype.Fixed32? || f.ltype.Fixed64?) && g.ltype == f.ltype && ValidValue(f, v)
    ensures EncodeValue(f, v).Some? && ParseLeaf(g, EncodeValue(f, v).value + more) == Ok(v, more)
  {
    if f.ltype.Fixed32? {
      assert v.v % TWO32 == v.v;
      FixedRoundTrip(v.v, 4, more);
    } else {
      assert v.v % TWO64 == v.v;
      FixedRoundTrip(v.v, 8, more);
    }
  }

  lemma {:induction false} BlobLeaf(f: Field, g: Field, v: Value, more: seq<Byte>)
    requires WellFormedField(g) && (f.ltype.Bytes? || f.ltype.FixedBytes?) && g.ltype == f.ltype && ValidValue(f, v)
    requires if f.ltype.Bytes? then f.dataSize <= g.dataSize else f.dataSize == g.dataSize
    ensures EncodeValue(f, v).Some? && ParseLeaf(g, EncodeValue(f, v).value + more) == Ok(v, more)
  {
    BlobRoundTrip(g, v.bs, more);
  }

  lemma {:induction false} StringLeaf(f: Field, g: Field, v: Value, more: seq<Byte>)
    requires WellFormedField(g) && f.ltype.String? && g.ltype == f.ltype && f.dataSize <= g.dataSize
    requires ValidValue(f, v) && TerminatedValue(f, v)
    ensures EncodeValue(f, v).Some?
    ensures ParseLeaf(g, EncodeValue(f, v).value + more) == Ok(Blob(CString(v.bs)), more)
  {
    assert Take(v.bs, f.dataSize) == v.bs;
    BlobRoundTrip(g, CString(v.bs), more);
  }

  lemma {:induction false} IntegerLeaf(f: Field, g: Field, v: Value, more: seq<Byte>)
    requires WellFormedField(f) && WellFormedField(g) && CompatField(f, g)
    requires f.ltype.Varint? || f.ltype.UVarint? || f.ltype.SVarint?
    requires ValidValue(f, v)
    ensures EncodeValue(f, v).Some? && ParseLeaf(g, EncodeValue(f, v).value + more) == Ok(v, more)
  {
    var u := if f.ltype.SVarint? then ZigZag(v.v) else U64(v.v);
    assert EncodeValue(f, v) == Some(EncodeVarint(u));
    IntegerRoundTrip(f, g, v);
    VarintRoundTrip(u, more);
  }

  lemma {:induction false} FixedRoundTrip(v: nat, n: nat, more: seq<Byte>)
    requires v < Pow256(n) || (n == 4 && v < TWO32) || (n == 8 && v < TWO64)
    ensures ParseFixed(LittleEndian(v, n) + more, n) == Ok(Int(v), more)
  {
    Pow256Values();
    LittleEndianRoundTrip(v, n);
    var e := LittleEndian(v, n);
    assert (e + more)[..n] == e && (e + more)[n..] == more;
  }

  lemma {:induction false} BlobRoundTrip(g: Field, bs: seq<Byte>, more: seq<Byte>)
    requires WellFormedField(g)
    requires (g.ltype.Bytes? && |bs| + BYTES_HEADER <= g.dataSize) || (g.ltype.String? && |bs| < g.dataSize)
          || (g.ltype.FixedBytes? && |bs| == g.dataSize)
    ensures ParseBlob(g, EncodeDelimited(bs) + more) == Ok(Blob(bs), more)
  {
    assert EncodeDelimited(bs) + more == EncodeVarint(|bs|) + (bs + more);
    Varint32RoundTrip(|bs|, bs + more);
    assert (bs + more)[..|bs|] == bs && (bs + more)[|bs|..] == more;
  }

  /** A static string survives the round trip exactly when its terminator is inside its
      buffer: with all data_size characters in use the decoder reports an overflow. */
  lemma {:induction false} StringNeedsTerminator(f: Field, v: Value, more: seq<Byte>)
    requires WellFormedField(f) && f.ltype.String? && ValidValue(f, v)
    ensures ParseLeaf(f, EncodeValue(f, v).value + more) == Ok(Blob(CString(v.bs)), more)
       <==> |CString(v.bs)| < f.dataSize
    ensures |CString(v.bs)| == f.dataSize ==> ParseLeaf(f, EncodeValue(f, v).value + more).Err?
  {
    var bs := CString(v.bs);
    assert Take(v.bs, f.dataSize) == v.bs;
    assert EncodeDelimited(bs) + more == EncodeVarint(|bs|) + (bs + more);
    Varint32RoundTrip(|bs|, bs + more);
    assert (bs + more)[..|bs|] == bs && (bs + more)[|bs|..] == more;
  }

  /** The decoder of an item undoes its encoder, whatever follows. */
  lemma {:induction false} ValueRoundTrip(f: Field, g: Field, v: Value, prior: Value, more: seq<Byte>)
    returns (w: Value)
    requires WellFormedField(f) && WellFormedField(g) && CompatField(f, g)
    requires ValidValue(f, v) && TerminatedValue(f, v)
    requires EncodeValue(f, v).Some? && |EncodeValue(f, v).value| < TWO32
    requires f.ltype.Submessage? && !g.htype.Repeated? && !g.htype.OneOf? ==> prior == DefaultValue(g)
    ensures ParseValue(g, prior, EncodeValue(f, v).value + more) == Ok(w, more)
    ensures SameValue(f, g, v, w)
    decreases f, 0
  {
    if f.ltype.Submessage? {
      var sub := f.ltype.fields;
      var body := Encode(sub, v.slots).value;
      DelimitedRoundTrip(body, more);
      var u := g.ltype.fields;
      assert WellFormed(u);
      DefaultCleared(u);
      var m' := MessageOnto(sub, v.slots, u, Default(u));
      w := Msg(m');
    } else {
      w := LeafRoundTrip(f, g, v, more);
    }
  }

  // ---------------------------------------------------------------- one field

  /** One turn of the decoder's loop on a field it knows. */
  lemma {:induction false} LoopStep(u: Table, st: State, j: nat, wiretype: nat, payload: seq<Byte>)
    requires WellFormed(u) && j < |u| && wiretype < 8
    requires ParseField(u[j], wiretype, At(st.m, Offset(u, j)), payload).Ok?
    ensures var r := ParseField(u[j], wiretype, At(st.m, Offset(u, j)), payload);
            Loop(u, st, EncodeTag(wiretype, u[j].tag) + payload) == Loop(u, Meet(u, st, j, r.value), r.rest)
  {
    assert WellFormedField(u[j]);
    TagRoundTrip(wiretype, u[j].tag, payload);
    FindIs(u, j);
  }

  /** One item under its tag, read into field `j` of the reader's table. */
  lemma {:induction false} TaggedStep(f: Field, u: Table, j: nat, v: Value, st: State, more: seq<Byte>)
    returns (w: Value)
    requires WellFormedField(f) && WellFormed(u) && j < |u| && CompatField(f, u[j])
    requires ValidValue(f, v) && TerminatedValue(f, v)
    requires EncodeValue(f, v).Some? && |EncodeValue(f, v).value| < TWO32
    requires f.htype.Repeated? ==> !f.Packable() && |Items(At(st.m, Offset(u, j)))| < u[j].arraySize
    requires !f.htype.Repeated? ==> f.htype.OneOf? || Held(At(st.m, Offset(u, j))) == DefaultValue(u[j])
    ensures Loop(u, st, EncodeTag(WireType(f.ltype), f.tag) + (EncodeValue(f, v).value + more))
         == Loop(u, Meet(u, st, j, Store(u[j], At(st.m, Offset(u, j)), w)), more)
    ensures SameValue(f, u[j], v, w)
    decreases f, 1
  {
    var g, s := u[j], At(st.m, Offset(u, j));
    assert WellFormedField(g);
    w := ValueRoundTrip(f, g, v, Held(s), more);
    assert f.Packable() <==> g.Packable();
    LoopStep(u, st, j, WireType(f.ltype), EncodeValue(f, v).value + more);
  }

  lemma {:induction false} SameRule(f: Field, g: Field)
    requires CompatField(f, g)
    ensures g.htype == f.htype && g.tag == f.tag && (f.Packable() <==> g.Packable()) && f.arraySize <= g.arraySize
  {
  }

  /** The items of an unpacked array, each under a tag of its own, read into field `j` of
      the reader's table behind those it already holds. */
  lemma {:induction false} ArrayRoundTrip(f: Field, u: Table, j: nat, items: seq<Value>, st: State, more: seq<Byte>)
    returns (st': State, news: seq<Value>)
    requires WellFormedField(f) && WellFormed(u) && j < |u| && CompatField(f, u[j])
    requires forall v :: v in items ==> ValidValue(f, v) && TerminatedValue(f, v)
    requires EncodeTagged(f, items).Some? && |EncodeTagged(f, items).value| < TWO32
    requires f.htype.Repeated? && !f.Packable()
    requires |Items(At(st.m, Offset(u, j)))| + |items| <= u[j].arraySize
    ensures Loop(u, st, EncodeTagged(f, items).value + more) == Loop(u, st', more)
    ensures SameItems(f, u[j], items, news)
    ensures if items == [] then st' == st else MetAt(u, st, j, st')
    ensures items != [] ==> At(st'.m, Offset(u, j)) == Rep(Items(At(st.m, Offset(u, j))) + news)
    decreases f, 2, |items|
  {
    hide WellFormed, WellFormedField, CompatField, ValidValue, TerminatedValue, SameValue, EncodeValue, EncodeTag,
      Loop, Offset;
    SameRule(f, u[j]);
    if items == [] {
      assert [] + more == more;
      return st, [];
    }
    var g, s := u[j], At(st.m, Offset(u, j));
    TaggedBytes(f, items, more);
    var v, later := items[0], items[1..];
    var w := TaggedStep(f, u, j, v, st, EncodeTagged(f, later).value + more);
    var s1 := Rep(Items(s) + [w]);
    var st1 := Meet(u, st, j, s1);
    MetAtOnce(u, st, j, s1);
    var rest;
    st', rest := ArrayRoundTrip(f, u, j, later, st1, more);
    news := [w] + rest;
    SameItemsCons(f, g, items, w, rest);
    assert Items(s) + [w] + rest == Items(s) + news;
    if later != [] {
      MetAtAgain(u, st, j, st1, st');
    }
  }

  /** The one item of a field that is not an array. */
  lemma {:induction false} SingleRoundTrip(f: Field, u: Table, j: nat, v: Value, st: State, more: seq<Byte>)
    returns (w: Value)
    requires WellFormedField(f) && WellFormed(u) && j < |u| && CompatField(f, u[j])
    requires ValidValue(f, v) && TerminatedValue(f, v)
    requires EncodeTagged(f, [v]).Some? && |EncodeTagged(f, [v]).value| < TWO32
    requires !f.htype.Repeated?
    requires f.htype.OneOf? || Held(At(st.m, Offset(u, j))) == DefaultValue(u[j])
    ensures Loop(u, st, EncodeTagged(f, [v]).value + more)
         == Loop(u, Meet(u, st, j, Store(u[j], At(st.m, Offset(u, j)), w)), more)
    ensures SameValue(f, u[j], v, w)
    decreases f, 2
  {
    TaggedBytes(f, [v], more);
    assert [v][1..] == [];
    assert [] + more == more;
    w := TaggedStep(f, u, j, v, st, more);
  }

  lemma {:induction false} SameItemsCons(f: Field, g: Field, vs: seq<Value>, w: Value, ws: seq<Value>)
    requires vs != [] && SameValue(f, g, vs[0], w) && SameItems(f, g, vs[1..], ws)
    ensures SameItems(f, g, vs, [w] + ws)
  {
    var all := [w] + ws;
    forall k | 0 <= k < |vs| ensures SameValue(f, g, vs[k], all[k]) {
      if k > 0 {
        assert SameValue(f, g, vs[1..][k - 1], ws[k - 1]);
      }
    }
  }

  lemma {:induction false} MetAtAgain(u: Table, st: State, j: nat, st1: State, st2: State)
    requires j < |u| && MetAt(u, st, j, st1) && MetAt(u, st1, j, st2)
    ensures MetAt(u, st, j, st2)
  {
    var o, a, b := Offset(u, j), At(st1.m, Offset(u, j)), At(st2.m, Offset(u, j));
    assert st.m[o := a][o := b] == st.m[o := b];
    assert st2.seen == Meet(u, st, j, b).seen;
  }

  lemma {:induction false} TaggedBytes(f: Field, items: seq<Value>, more: seq<Byte>)
    requires items != [] && EncodeTagged(f, items).Some?
    ensures EncodeValue(f, items[0]).Some? && EncodeTagged(f, items[1..]).Some?
    ensures var val, tail := EncodeValue(f, items[0]).value, EncodeTagged(f, items[1..]).value;
            && EncodeTagged(f, items).value + more == EncodeTag(WireType(f.ltype), f.tag) + (val + (tail + more))
            && |val| < |EncodeTagged(f, items).value| && |tail| < |EncodeTagged(f, items).value|
  {
    var val, tail := EncodeValue(f, items[0]), EncodeTagged(f, items[1..]);
    var tag := EncodeTag(WireType(f.ltype), f.tag);
    assert EncodeTagged(f, items) == Append(Append(Some(tag), val), tail);
    Concat4(tag, val.value, tail.value, more);
  }

  lemma {:induction false} Concat4(a: seq<Byte>, b: seq<Byte>, c: seq<Byte>, d: seq<Byte>)
    ensures (a + b) + c + d == a + (b + (c + d))
  {
  }

  /** A packed array, read behind the items there already. */
  lemma {:induction false} PackedRoundTrip(f: Field, g: Field, items: seq<Value>, have: seq<Value>)
    requires WellFormedField(f) && WellFormedField(g) && CompatField(f, g) && f.Packable()
    requires forall v :: v in items ==> ValidValue(f, v)
    requires EncodePacked(f, items).Some?
    requires |have| + |items| <= g.arraySize
    ensures g.Packable() && ParsePacked(g, have, EncodePacked(f, items).value) == Some(have + items)
  {
    assert g.ltype == f.ltype;
    forall v | v in items ensures Readable(f, g, v) {
      ReadableLeaf(f, g, v);
    }
    PackedInduction(f, g, items, have);
  }

  ghost predicate Readable(f: Field, g: Field, v: Value)
    requires g.Packable()
  {
    EncodeValue(f, v).Some? && forall more :: ParseLeaf(g, EncodeValue(f, v).value + more) == Ok(v, more)
  }

  lemma {:induction false} ReadableLeaf(f: Field, g: Field, v: Value)
    requires WellFormedField(f) && WellFormedField(g) && CompatField(f, g) && f.Packable() && g.Packable()
    requires ValidValue(f, v)
    ensures Readable(f, g, v)
  {
    ValidValueEncodes(f, v);
    forall more ensures ParseLeaf(g, EncodeValue(f, v).value + more) == Ok(v, more) {
      var w := LeafRoundTrip(f, g, v, more);
    }
  }

  lemma {:induction false} PackedInduction(f: Field, g: Field, items: seq<Value>, have: seq<Value>)
    requires g.Packable() && forall v :: v in items ==> Readable(f, g, v)
    requires EncodePacked(f, items).Some?
    requires |have| + |items| <= g.arraySize
    ensures ParsePacked(g, have, EncodePacked(f, items).value) == Some(have + items)
    decreases |items|
  {
    hide ParseLeaf;
    if items == [] {
      assert have + items == have;
    } else {
      var v, later := items[0], items[1..];
      var e, tail := EncodeValue(f, v), EncodePacked(f, later);
      assert EncodePacked(f, items) == Append(e, tail);
      assert Readable(f, g, v);
      ParsePackedStep(g, have, e.value + tail.value, v, tail.value);
      PackedInduction(f, g, later, have + [v]);
      assert have + [v] + later == have + items;
    }
  }

  lemma {:induction false} ParsePackedStep(g: Field, have: seq<Value>, body: seq<Byte>, v: Value, tail: seq<Byte>)
    requires g.Packable() && |have| < g.arraySize && ParseLeaf(g, body) == Ok(v, tail)
    ensures ParsePacked(g, have, body) == ParsePacked(g, have + [v], tail)
  {
  }

  /** The whole encoding of a packed field the reader knows. */
  lemma {:induction false} PackedFieldRoundTrip(f: Field, slot: Slot, u: Table, j: nat, st: State, more: seq<Byte>)
    requires WellFormedField(f) && WellFormed(u) && j < |u| && CompatField(f, u[j])
    requires f.htype.Repeated? && f.Packable() && ValidSlot(f, slot) && slot.items != []
    requires Items(At(st.m, Offset(u, j))) == []
    requires EncodeField(f, slot).Some? && |EncodeField(f, slot).value| < TWO32
    ensures Loop(u, st, EncodeField(f, slot).value + more) == Loop(u, Meet(u, st, j, Rep(slot.items)), more)
  {
    hide WellFormed, WellFormedField, CompatField, ValidValue, Loop, Offset, EncodePacked, EncodeTag, ParsePacked;
    var g, items, s := u[j], slot.items, At(st.m, Offset(u, j));
    SameRule(f, g);
    FieldOf(u, j);
    var body := EncodePacked(f, items).value;
    var tag := EncodeTag(WT_STRING, f.tag);
    assert EncodeField(f, slot).value == tag + EncodeDelimited(body);
    assert tag + EncodeDelimited(body) + more == tag + (EncodeDelimited(body) + more);
    DelimitedRoundTrip(body, more);
    PackedRoundTrip(f, g, items, []);
    assert [] + items == items;
    assert ParseField(g, WT_STRING, s, EncodeDelimited(body) + more) == Ok(Rep(items), more);
    LoopStep(u, st, j, WT_STRING, EncodeDelimited(body) + more);
  }

  lemma {:induction false} FieldOf(u: Table, j: nat)
    requires WellFormed(u) && j < |u|
    ensures WellFormedField(u[j])
  {
  }

  /** The whole encoding of a field the reader knows. */
  lemma {:induction false} FieldRoundTrip(f: Field, slot: Slot, u: Table, j: nat, st: State, more: seq<Byte>)
    returns (st': State)
    requires WellFormedField(f) && WellFormed(u) && j < |u| && CompatField(f, u[j])
    requires ValidSlot(f, slot) && forall v :: v in View(f, slot) ==> TerminatedValue(f, v)
    requires EncodeField(f, slot).Some? && |EncodeField(f, slot).value| < TWO32
    requires Fresh(u, j, st.m)
    ensures Loop(u, st, EncodeField(f, slot).value + more) == Loop(u, st', more)
    ensures SameItems(f, u[j], View(f, slot), ViewAt(u, j, st'.m))
    ensures View(f, slot) == [] ==> st' == st
    ensures View(f, slot) != [] ==> MetAt(u, st, j, st')
    decreases f, 4
  {
    var g, items := u[j], View(f, slot);
    assert WellFormedField(g);
    if items == [] {
      FreshView(u, j, st.m);
      assert [] + more == more;
      st' := st;
    } else if f.htype.Repeated? && f.Packable() {
      PackedFieldRoundTrip(f, slot, u, j, st, more);
      st' := Meet(u, st, j, Rep(items));
      MetAtOnce(u, st, j, Rep(items));
      SamePacked(f, g, items);
    } else {
      st' := SeparateRoundTrip(f, slot, u, j, st, more);
    }
  }

  /** `st` after meeting field `j` once, or several times for an array. */
  ghost predicate MetAt(u: Table, st: State, j: nat, st': State)
    requires j < |u|
  {
    && st' == Meet(u, st, j, At(st'.m, Offset(u, j)))
    && (u[j].htype.OneOf? ==> At(st'.m, Offset(u, j)).Arm? && At(st'.m, Offset(u, j)).which == u[j].tag)
  }

  lemma {:induction false} MetAtOnce(u: Table, st: State, j: nat, s: Slot)
    requires j < |u| && (u[j].htype.OneOf? ==> s.Arm? && s.which == u[j].tag)
    ensures MetAt(u, st, j, Meet(u, st, j, s)) && At(Meet(u, st, j, s).m, Offset(u, j)) == s
  {
  }

  lemma {:induction false} SamePacked(f: Field, g: Field, items: seq<Value>)
    requires f.Packable()
    ensures SameItems(f, g, items, items)
  {
  }

  lemma {:induction false} SeparateRoundTrip(f: Field, slot: Slot, u: Table, j: nat, st: State, more: seq<Byte>)
    returns (st': State)
    requires WellFormedField(f) && WellFormed(u) && j < |u| && CompatField(f, u[j])
    requires ValidSlot(f, slot) && forall v :: v in View(f, slot) ==> TerminatedValue(f, v)
    requires View(f, slot) != [] && !(f.htype.Repeated? && f.Packable())
    requires EncodeField(f, slot).Some? && |EncodeField(f, slot).value| < TWO32
    requires Fresh(u, j, st.m)
    ensures Loop(u, st, EncodeField(f, slot).value + more) == Loop(u, st', more)
    ensures SameItems(f, u[j], View(f, slot), ViewAt(u, j, st'.m))
    ensures MetAt(u, st, j, st')
    decreases f, 3, 0
  {
    var g, items, s := u[j], View(f, slot), At(st.m, Offset(u, j));
    assert WellFormedField(g);
    ViewValid(f, slot);
    assert f.htype.Repeated? ==> Items(s) == [];
    if f.htype.Repeated? {
      var news;
      st', news := ArrayRoundTrip(f, u, j, items, st, more);
      assert [] + news == news;
    } else {
      assert items == [items[0]];
      var w := SingleRoundTrip(f, u, j, items[0], st, more);
      st' := Meet(u, st, j, Store(g, s, w));
      MetAtOnce(u, st, j, Store(g, s, w));
      if f.Singular() {
        SameNotDefault(f, g, items[0], w);
      }
    }
  }

  lemma {:induction false} ViewValid(f: Field, slot: Slot)
    requires ValidSlot(f, slot)
    ensures forall v :: v in View(f, slot) ==> ValidValue(f, v)
    ensures !f.htype.Repeated? ==> |View(f, slot)| <= 1
    ensures f.htype.Repeated? ==> |View(f, slot)| <= f.arraySize
    ensures f.Singular() ==> forall v :: v in View(f, slot) ==> !IsDefault(f, v)
  {
  }

  lemma {:induction false} SameNotDefault(f: Field, g: Field, v: Value, w: Value)
    requires CompatField(f, g) && WellFormedField(g) && SameValue(f, g, v, w) && !IsDefault(f, v)
             && !f.ltype.Submessage?
    ensures !IsDefault(g, w)
  {
    if f.ltype.String? {
      CStringIdempotent(v.bs);
    }
  }

  lemma {:induction false} CStringIdempotent(bs: seq<Byte>)
    ensures CString(CString(bs)) == CString(bs)
  {
    if bs != [] && bs[0] != 0 {
      CStringIdempotent(bs[1..]);
      assert CString(bs)[1..] == CString(bs[1..]);
    }
  }

  // ---------------------------------------------------------------- unknown fields

  /** Going by the wire type, the decoder skips exactly the payload the encoder wrote. */
  lemma {:induction false} SkipValue(f: Field, v: Value, more: seq<Byte>)
    requires WellFormedField(f) && EncodeValue(f, v).Some? && |EncodeValue(f, v).value| < TWO32
    ensures Skip(WireType(f.ltype), EncodeValue(f, v).value + more) == Some(more)
  {
    var e := EncodeValue(f, v).value;
    match f.ltype
    case Varint => SkipVarint(U64(v.v), more);
    case UVarint => SkipVarint(U64(v.v), more);
    case SVarint => SkipVarint(ZigZag(v.v), more);
    case Fixed32 => assert (e + more)[4..] == more;
    case Fixed64 => assert (e + more)[8..] == more;
    case Bytes => DelimitedRoundTrip(v.bs, more);
    case String => DelimitedRoundTrip(CString(Take(v.bs, f.dataSize)), more);
    case Submessage(sub) => DelimitedRoundTrip(Encode(sub, v.slots).value, more);
    case FixedBytes => DelimitedRoundTrip(v.bs, more);
  }

  lemma {:induction false} SkipVarint(v: nat, more: seq<Byte>)
    ensures Skip(WT_VARINT, EncodeVarint(v) + more) == Some(more)
  {
    VarintShape(v, more);
    assert (EncodeVarint(v) + more)[|EncodeVarint(v)|..] == more;
  }

  lemma {:induction false} SkipTagged(f: Field, items: seq<Value>, u: Table, st: State, more: seq<Byte>)
    requires WellFormedField(f) && Find(u, f.tag) == |u|
    requires EncodeTagged(f, items).Some? && |EncodeTagged(f, items).value| < TWO32
    ensures Loop(u, st, EncodeTagged(f, items).value + more) == Loop(u, st, more)
    decreases |items|
  {
    var e := EncodeTagged(f, items).value;
    if items == [] {
      assert e + more == more;
    } else {
      var val, tail := EncodeValue(f, items[0]).value, EncodeTagged(f, items[1..]).value;
      var tag := EncodeTag(WireType(f.ltype), f.tag);
      assert e + more == tag + (val + (tail + more));
      TagRoundTrip(WireType(f.ltype), f.tag, val + (tail + more));
      SkipValue(f, items[0], tail + more);
      SkipTagged(f, items[1..], u, st, more);
    }
  }

  /** A field the reader does not know leaves no trace. */
  lemma {:induction false} SkipField(f: Field, s: Slot, u: Table, st: State, more: seq<Byte>)
    requires WellFormedField(f) && Find(u, f.tag) == |u|
    requires EncodeField(f, s).Some? && |EncodeField(f, s).value| < TWO32
    ensures Loop(u, st, EncodeField(f, s).value + more) == Loop(u, st, more)
  {
    var items := View(f, s);
    if f.htype.Repeated? && items == [] {
      assert EncodeField(f, s).value + more == more;
    } else if f.htype.Repeated? && f.Packable() {
      var body := EncodePacked(f, items).value;
      var e := EncodeTag(WT_STRING, f.tag) + EncodeDelimited(body);
      assert e + more == EncodeTag(WT_STRING, f.tag) + (EncodeDelimited(body) + more);
      TagRoundTrip(WT_STRING, f.tag, EncodeDelimited(body) + more);
      DelimitedRoundTrip(body, more);
    } else {
      SkipTagged(f, items, u, st, more);
    }
  }

  // ---------------------------------------------------------------- whole messages

  /** Field `j` has not been written since the defaults were set. */
  ghost predicate Fresh(u: Table, j: nat, w: Struct)
    requires j < |u|
  {
    if u[j].htype.OneOf? then ViewAt(u, j, w) == [] else At(w, Offset(u, j)) == DefaultSlot(u[j])
  }

  lemma {:induction false} FreshView(u: Table, j: nat, w: Struct)
    requires j < |u| && WellFormedField(u[j]) && Fresh(u, j, w)
    ensures ViewAt(u, j, w) == View(u[j], DefaultSlot(u[j]))
    ensures ViewAt(u, j, w) == [] || u[j].htype.Required? || (u[j].Singular() && u[j].ltype.FixedBytes?)
  {
  }

  /** After the first `i` fields of the writer: what the reader knows of them it holds, and
      the rest of its struct is as the defaults left it. */
  ghost predicate Progress(t: Table, m: Struct, u: Table, i: nat, st: State)
  {
    forall j :: 0 <= j < |u| ==> ProgressAt(t, m, u, i, st, j)
  }

  ghost predicate ProgressAt(t: Table, m: Struct, u: Table, i: nat, st: State, j: nat)
    requires j < |u|
  {
    var k := Find(t, u[j].tag);
    if k < |t| && k < i then
      && SameItems(t[k], u[j], ViewAt(t, k, m), ViewAt(u, j, st.m))
      && (u[j].htype.Required? ==> ReqIndex(u, j) in st.seen)
    else Fresh(u, j, st.m)
  }

  lemma {:induction false} ProgressStep(t: Table, m: Struct, u: Table, i: nat, st: State, j: nat, st': State)
    requires WellFormed(t) && WellFormed(u) && Compat(t, u) && ValidStruct(t, m)
    requires i < |t| && j < |u| && t[i].tag == u[j].tag
    requires Progress(t, m, u, i, st)
    requires SameItems(t[i], u[j], ViewAt(t, i, m), ViewAt(u, j, st'.m))
    requires ViewAt(t, i, m) == [] ==> st' == st
    requires ViewAt(t, i, m) != [] ==> MetAt(u, st, j, st')
    ensures Progress(t, m, u, i + 1, st')
  {
    hide SameValue, WellFormedField, ValidValue, Offset, ReqIndex;
    FindIs(t, i);
    assert ValidSlot(t[i], At(m, Offset(t, i)));
    var next := i + 1;
    forall q | 0 <= q < |u| ensures ProgressAt(t, m, u, next, st', q) {
      assert ProgressAt(t, m, u, i, st, q);
      var k := Find(t, u[q].tag);
      assert q != j ==> k != i;
      if q == j {
        assert CompatField(t[i], u[j]);
      } else if ViewAt(t, i, m) != [] && Offset(u, q) == Offset(u, j) {
        SameOffset(u, q, j);
        assert CompatField(t[i], u[j]) && UnionKept(t, u, q, j);
        assert ViewAt(u, q, st'.m) == [];
        if k < i {
          assert Offset(t, k) == Offset(t, i);
          assert CompatField(t[k], u[q]);
          assert ViewAt(t, k, m) == [];
        }
      }
    }
  }

  lemma {:induction false} ProgressSkip(t: Table, m: Struct, u: Table, i: nat, st: State)
    requires WellFormed(t) && i < |t| && Find(u, t[i].tag) == |u| && Progress(t, m, u, i, st)
    ensures Progress(t, m, u, i + 1, st)
  {
    var next := i + 1;
    forall q | 0 <= q < |u| ensures ProgressAt(t, m, u, next, st, q) {
      hide SameItems, Fresh, WellFormedField, Offset;
      assert ProgressAt(t, m, u, i, st, q);
      assert Find(t, u[q].tag) != i;
    }
  }

  /** One field of the writer, known to the reader or not. */
  lemma {:induction false} NextFieldRoundTrip(t: Table, m: Struct, u: Table, i: nat, st: State, more: seq<Byte>)
    returns (st': State)
    requires WellFormed(t) && WellFormed(u) && Compat(t, u)
    requires ValidStruct(t, m) && i < |t| && forall v :: v in ViewAt(t, i, m) ==> TerminatedValue(t[i], v)
    requires var e := EncodeField(t[i], At(m, Offset(t, i))); e.Some? && |e.value| < TWO32
    requires Progress(t, m, u, i, st)
    ensures Loop(u, st, EncodeField(t[i], At(m, Offset(t, i))).value + more) == Loop(u, st', more)
    ensures Progress(t, m, u, i + 1, st')
    decreases t, 3, 0
  {
    var f, s, j := t[i], At(m, Offset(t, i)), Find(u, t[i].tag);
    assert ValidSlot(f, s) && WellFormedField(f);
    FindIs(t, i);
    if j == |u| {
      SkipField(f, s, u, st, more);
      ProgressSkip(t, m, u, i, st);
      st' := st;
    } else {
      assert ProgressAt(t, m, u, i, st, j) && CompatField(f, u[j]) && Fresh(u, j, st.m);
      hide WellFormed, Compat, CompatField, WellFormedField, ValidStruct, ValidSlot, Terminated, TerminatedValue,
        Loop, EncodeField, Fresh, Progress, SameItems, MetAt;
      st' := FieldRoundTrip(f, s, u, j, st, more);
      ProgressStep(t, m, u, i, st, j, st');
    }
  }

  lemma {:induction false} TerminatedParts(t: Table, m: Struct, i: nat)
    requires Terminated(t, m) && i < |t|
    ensures forall v :: v in ViewAt(t, i, m) ==> TerminatedValue(t[i], v)
  {
  }

  lemma {:induction false} LoopAtEnd(u: Table, st: State)
    ensures Loop(u, st, []) == Done(st)
  {
  }

  lemma {:induction false} FieldsRoundTrip(t: Table, m: Struct, u: Table, i: nat, st: State) returns (st': State)
    requires WellFormed(t) && WellFormed(u) && Compat(t, u)
    requires ValidStruct(t, m) && Terminated(t, m) && i <= |t|
    requires EncodeFrom(t, m, i).Some? && |EncodeFrom(t, m, i).value| < TWO32
    requires Progress(t, m, u, i, st)
    ensures Loop(u, st, EncodeFrom(t, m, i).value) == Done(st')
    ensures Progress(t, m, u, |t|, st')
    decreases t, 3, |t| - i + 1
  {
    hide WellFormed, Compat, ValidStruct, Terminated, Loop, EncodeField, Progress, Offset;
    if i == |t| {
      LoopAtEnd(u, st);
      return st;
    }
    var e, tail := EncodeField(t[i], At(m, Offset(t, i))), EncodeFrom(t, m, i + 1);
    assert EncodeFrom(t, m, i) == Append(e, tail);
    TerminatedParts(t, m, i);
    var st1 := NextFieldRoundTrip(t, m, u, i, st, tail.value);
    st' := FieldsRoundTrip(t, m, u, i + 1, st1);
  }

  /** Every member is at its default. */
  ghost predicate Cleared(u: Table, w: Struct)
  {
    forall j :: 0 <= j < |u| ==> At(w, Offset(u, j)) == DefaultSlot(u[j])
  }

  lemma {:induction false} DefaultCleared(u: Table)
    requires WellFormed(u)
    ensures Cleared(u, Default(u))
  {
    forall j | 0 <= j < |u| ensures At(Default(u), Offset(u, j)) == DefaultSlot(u[j]) {
      DefaultAt(u, j);
    }
  }

  /** A reader whose table is compatible with the writer's accepts every valid message of the writer,
      uses all its bytes, and ends with the writer's live data in the fields both know and
      defaults in the others. */
  lemma {:induction false} MessageOnto(t: Table, m: Struct, u: Table, w0: Struct) returns (w: Struct)
    requires WellFormed(t) && WellFormed(u) && Compat(t, u) && Cleared(u, w0)
    requires ValidStruct(t, m) && Terminated(t, m)
    requires Encode(t, m).Some? && |Encode(t, m).value| < TWO32
    ensures Loop(u, State(w0, {}), Encode(t, m).value).Done? && Loop(u, State(w0, {}), Encode(t, m).value).st.m == w
    ensures DecodeNoInit(u, w0, Encode(t, m).value) == Some(w)
    ensures SameStruct(t, m, u, w)
    decreases t, 4
  {
    var st := State(w0, {});
    assert Progress(t, m, u, 0, st) by {
      forall j | 0 <= j < |u| ensures ProgressAt(t, m, u, 0, st, j) {
        assert At(w0, Offset(u, j)) == DefaultSlot(u[j]);
      }
    }
    var st' := FieldsRoundTrip(t, m, u, 0, st);
    w := st'.m;
    forall n | 0 <= n < ReqIndex(u, |u|) ensures n in st'.seen {
      var j := ReqIndexOnto(u, n, |u|);
      assert ProgressAt(t, m, u, |t|, st', j);
    }
    forall j | 0 <= j < |u|
      ensures var i := Find(t, u[j].tag);
              if i < |t| then SameItems(t[i], u[j], ViewAt(t, i, m), ViewAt(u, j, w))
              else ViewAt(u, j, w) == View(u[j], DefaultSlot(u[j]))
    {
      assert ProgressAt(t, m, u, |t|, st', j);
      assert WellFormedField(u[j]);
      if Find(t, u[j].tag) == |t| { FreshView(u, j, w); }
    }
  }

  // ---------------------------------------------------------------- the required check

  lemma {:induction false} SeenBounded(u: Table, st: State, input: seq<Byte>)
    requires WellFormed(u) && forall n :: n in st.seen ==> n < ReqIndex(u, |u|)
    ensures var o := Loop(u, st, input); !o.Failed? ==> forall n :: n in o.st.seen ==> n < ReqIndex(u, |u|)
    decreases |input|
  {
    hide ParseTag, ParseField, Skip, Offset, WellFormed;
    if input == [] || !ParseTag(input).Tag? { return; }
    var Tag(wiretype, tag, rest) := ParseTag(input);
    var i := Find(u, tag);
    if u == [] && tag == 0 { return; }
    if i == |u| {
      if Skip(wiretype, rest).Some? {
        SeenBounded(u, st, Skip(wiretype, rest).value);
      }
    } else {
      var r := ParseField(u[i], wiretype, At(st.m, Offset(u, i)), rest);
      if r.Ok? {
        ReqIndexOrder(u, i, |u|);
        SeenBounded(u, Meet(u, st, i, r.value), r.rest);
      }
    }
  }

  /** After a valid message of a compatible writer, the check of required fields at the end of
      pb_decode_noinit is defined exactly for an admitted count, and then passes. */
  lemma {:induction false} CheckDefinedExactly(t: Table, m: Struct, u: Table, w0: Struct, words: seq<Word>)
    requires WellFormed(t) && WellFormed(u) && Compat(t, u) && Cleared(u, w0)
    requires ValidStruct(t, m) && Terminated(t, m)
    requires Encode(t, m).Some? && |Encode(t, m).value| < TWO32
    requires |words| == 2
    requires var o := Loop(u, State(w0, {}), Encode(t, m).value); !o.Failed? ==> Holds(words, o.st.seen)
    ensures Check(words, ReqIndex(u, |u|)) == if Admitted(ReqIndex(u, |u|)) then Some(true) else None
  {
    hide Loop, Check, Holds, ReqIndex, WellFormed, Compat, ValidStruct, Terminated, SameStruct;
    var w := MessageOnto(t, m, u, w0);
    SeenBounded(u, State(w0, {}), Encode(t, m).value);
    CheckIsAllSeen(words, Loop(u, State(w0, {}), Encode(t, m).value).st.seen, ReqIndex(u, |u|));
  }

  /** The central theorem: on a table on which that check is defined, decoding from defaults accepts
      every valid message of a compatible writer, with all its bytes and its live data. */
  lemma {:induction false} MessageRoundTrip(t: Table, m: Struct, u: Table) returns (w: Struct)
    requires WellFormed(t) && Runnable(u) && Compat(t, u)
    requires ValidStruct(t, m) && Terminated(t, m)
    requires Encode(t, m).Some? && |Encode(t, m).value| < TWO32
    ensures Loop(u, State(Default(u), {}), Encode(t, m).value).Done?
    ensures Decode(u, Encode(t, m).value) == Some(w)
    ensures SameStruct(t, m, u, w)
  {
    DefaultCleared(u);
    w := MessageOnto(t, m, u, Default(u));
  }
}
