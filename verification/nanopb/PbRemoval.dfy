/** Tables with fields taken away, at any depth, and their offsets laid out again: what a reader
    built from an older or a smaller message definition has. */
module PbRemoval {
  import opened PbWire
  import opened PbSchema
  import opened PbEncode
  import opened PbDecode
  import opened PbEvolution
  import opened PbRequired

  /** The tags to keep, and what to keep of the submessages under them. */
  datatype Kept = Kept(tags: map<nat, Kept>)

  /** The kept fields among the first `i`. Arms of a oneof that stay together still share their
      place; every other field is put behind the one before it, with `gap` bytes of padding. */
  function Reduced(t: Table, keep: Kept, gap: nat -> nat, i: nat): (u: Table)
    requires i <= |t|
    ensures |u| <= i
    decreases t, 0, i
  {
    if i == 0 then []
    else
      var before := Reduced(t, keep, gap, i - 1);
      if t[i - 1].tag !in keep.tags then before else before + [ReducedField(t, keep, gap, i - 1, before)]
  }

  function ReducedField(t: Table, keep: Kept, gap: nat -> nat, i: nat, before: Table): Field
    requires i < |t| && t[i].tag in keep.tags
    decreases t[i], 1
  {
    var at := if before != [] && SharesUnion(t, i, before[|before| - 1].tag) then PB_SIZE_MAX else gap(t[i].tag);
    t[i].(dataOffset := at, ltype := ReducedType(t[i].ltype, keep.tags[t[i].tag], gap))
  }

  function ReducedType(l: LType, keep: Kept, gap: nat -> nat): LType
    decreases l
  {
    match l
    case Submessage(sub) => Submessage(Reduced(sub, keep, gap, |sub|))
    case _ => l
  }

  predicate SharesUnion(t: Table, i: nat, tag: nat)
    requires i < |t|
  {
    var k := Find(t, tag);
    k < |t| && t[k].htype.OneOf? && t[i].htype.OneOf? && Offset(t, k) == Offset(t, i)
  }

  ghost predicate Padding(gap: nat -> nat)
  {
    forall tag :: gap(tag) < PB_SIZE_MAX
  }

  // ---------------------------------------------------------------- which fields are there

  lemma {:induction false} ReducedPrefix(t: Table, keep: Kept, gap: nat -> nat, k: nat, i: nat)
    requires k <= i <= |t|
    ensures Reduced(t, keep, gap, k) <= Reduced(t, keep, gap, i)
    decreases i
  {
    if k < i {
      ReducedPrefix(t, keep, gap, k, i - 1);
    }
  }

  /** Field `j` of the smaller table is field `k` of the other. */
  ghost predicate Stems(t: Table, keep: Kept, gap: nat -> nat, i: nat, j: nat, k: nat)
    requires i <= |t| && j < |Reduced(t, keep, gap, i)|
  {
    var u := Reduced(t, keep, gap, i);
    && k < i && t[k].tag in keep.tags && u[..j] == Reduced(t, keep, gap, k)
        && u[j] == ReducedField(t, keep, gap, k, u[..j])
  }

  lemma {:induction false} ReducedAt(t: Table, keep: Kept, gap: nat -> nat, i: nat, j: nat) returns (k: nat)
    requires WellFormed(t) && i <= |t| && j < |Reduced(t, keep, gap, i)|
    ensures Stems(t, keep, gap, i, j, k) && Find(t, Reduced(t, keep, gap, i)[j].tag) == k
    decreases i
  {
    var u, before := Reduced(t, keep, gap, i), Reduced(t, keep, gap, i - 1);
    if j < |before| {
      k := ReducedAt(t, keep, gap, i - 1, j);
      assert u[..j] == before[..j];
    } else {
      k := i - 1;
      assert u[..j] == before;
      FindIs(t, k);
    }
  }

  lemma {:induction false} ReducedHas(t: Table, keep: Kept, gap: nat -> nat, i: nat, k: nat) returns (j: nat)
    requires WellFormed(t) && k < i <= |t| && t[k].tag in keep.tags
    ensures j < |Reduced(t, keep, gap, i)| && Reduced(t, keep, gap, i)[j].tag == t[k].tag
    decreases i
  {
    if k == i - 1 {
      j := |Reduced(t, keep, gap, i - 1)|;
    } else {
      j := ReducedHas(t, keep, gap, i - 1, k);
    }
  }

  /** What a field is in the smaller table, apart from its place. */
  lemma {:induction false} FieldOf(t: Table, keep: Kept, gap: nat -> nat, j: nat, k: nat)
    requires j < |Reduced(t, keep, gap, |t|)| && Stems(t, keep, gap, |t|, j, k)
    ensures var (f, g) := (t[k], Reduced(t, keep, gap, |t|)[j]);
            && g == f.(dataOffset := g.dataOffset, ltype := g.ltype)
            && g.ltype == if f.ltype.Submessage? then
                Submessage(Reduced(f.ltype.fields, keep.tags[f.tag], gap, |f.ltype.fields|)) else f.ltype
  {
    var f := t[k];
    assert ReducedType(f.ltype, keep.tags[f.tag], gap)
        == if f.ltype.Submessage? then Submessage(Reduced(f.ltype.fields, keep.tags[f.tag], gap, |f.ltype.fields|))
            else f.ltype;
  }

  /** The fields keep their order. */
  lemma {:induction false} StemsOrder(t: Table, keep: Kept, gap: nat -> nat, i: nat, j: nat, k: nat, j': nat, k': nat)
    requires i <= |t| && j < j' < |Reduced(t, keep, gap, i)|
    requires Stems(t, keep, gap, i, j, k) && Stems(t, keep, gap, i, j', k')
    ensures k < k'
  {
    if k' <= k {
      ReducedPrefix(t, keep, gap, k', k);
    }
  }

  // ---------------------------------------------------------------- where they are

  /** The arm before an arm of the same union is the field before it. */
  lemma {:induction false} JoinsExactly(t: Table, keep: Kept, gap: nat -> nat, j: nat, a: nat, b: nat)
    requires WellFormed(t) && Padding(gap) && 0 < j < |Reduced(t, keep, gap, |t|)|
    requires Stems(t, keep, gap, |t|, j - 1, a) && Stems(t, keep, gap, |t|, j, b)
    ensures a < b < |t| && (Joins(Reduced(t, keep, gap, |t|), j) <==> Offset(t, a) == Offset(t, b))
  {
    StemsOrder(t, keep, gap, |t|, j - 1, a, j, b);
    var u := Reduced(t, keep, gap, |t|);
    assert u[..j][j - 1] == u[j - 1];
    FindIs(t, a);
    if Offset(t, a) == Offset(t, b) {
      SameOffset(t, a, b);
    }
  }

  /** Two fields share their place in the smaller struct exactly if they do in the other. */
  lemma {:induction false} UnionsKept(t: Table, keep: Kept, gap: nat -> nat, j: nat, a: nat, j': nat, b: nat)
    requires WellFormed(t) && WellFormed(Reduced(t, keep, gap, |t|)) && Padding(gap)
             && j < j' < |Reduced(t, keep, gap, |t|)|
    requires Stems(t, keep, gap, |t|, j, a) && Stems(t, keep, gap, |t|, j', b)
    ensures var u := Reduced(t, keep, gap, |t|); Offset(u, j) == Offset(u, j') <==> Offset(t, a) == Offset(t, b)
    decreases j'
  {
    hide WellFormed, Stems, Offset, Joins;
    var u := Reduced(t, keep, gap, |t|);
    var c := ReducedAt(t, keep, gap, |t|, j' - 1);
    JoinsExactly(t, keep, gap, j', c, b);
    OffsetStep(u, j');
    if j == j' - 1 {
      SameStem(t, keep, gap, j, a, c);
    } else {
      StemsOrder(t, keep, gap, |t|, j, a, j' - 1, c);
      UnionsKept(t, keep, gap, j, a, j' - 1, c);
      OffsetsApart(u, j, j' - 1);
      OffsetsApart(t, a, c);
      OffsetsApart(t, c, b);
    }
  }

  lemma {:induction false} SameStem(t: Table, keep: Kept, gap: nat -> nat, j: nat, a: nat, b: nat)
    requires WellFormed(t) && j < |Reduced(t, keep, gap, |t|)|
    requires Stems(t, keep, gap, |t|, j, a) && Stems(t, keep, gap, |t|, j, b)
    ensures a == b
  {
    FindIs(t, a);
    FindIs(t, b);
  }

  lemma {:induction false} OffsetStep(u: Table, j: nat)
    requires WellFormed(u) && 0 < j < |u|
    ensures if Joins(u, j) then Offset(u, j) == Offset(u, j - 1) else Offset(u, j) > Offset(u, j - 1)
  {
    assert WellFormedField(u[j - 1]);
    ExtentPositive(u[j - 1]);
  }

  // ---------------------------------------------------------------- the smaller table reads the old messages

  lemma {:induction false} ReducedWellFormed(t: Table, keep: Kept, gap: nat -> nat)
    requires WellFormed(t)
    ensures WellFormed(Reduced(t, keep, gap, |t|))
    decreases t
  {
    var u := Reduced(t, keep, gap, |t|);
    forall j | 0 <= j < |u| ensures WellFormedField(u[j]) {
      var k := ReducedAt(t, keep, gap, |t|, j);
      FieldOf(t, keep, gap, j, k);
      assert WellFormedField(t[k]);
      if t[k].ltype.Submessage? {
        SubmessageWellFormed(t[k], keep.tags[t[k].tag], gap);
      }
      FieldStaysWellFormed(t[k], u[j]);
    }
    forall j, j' | 0 <= j < j' < |u| ensures u[j].tag != u[j'].tag {
      var k := ReducedAt(t, keep, gap, |t|, j);
      var k' := ReducedAt(t, keep, gap, |t|, j');
      StemsOrder(t, keep, gap, |t|, j, k, j', k');
    }
  }

  lemma {:induction false} SubmessageWellFormed(f: Field, keep: Kept, gap: nat -> nat)
    requires WellFormedField(f) && f.ltype.Submessage?
    ensures WellFormed(Reduced(f.ltype.fields, keep, gap, |f.ltype.fields|))
    decreases f
  {
    ReducedWellFormed(f.ltype.fields, keep, gap);
  }

  lemma {:induction false} FieldStaysWellFormed(f: Field, g: Field)
    requires WellFormedField(f) && g == f.(dataOffset := g.dataOffset, ltype := g.ltype)
    requires if f.ltype.Submessage? then g.ltype.Submessage? && WellFormed(g.ltype.fields) else g.ltype == f.ltype
    ensures WellFormedField(g)
  {
    if f.init.Some? {
      assert ValidValue(g, f.init.value) == ValidValue(f, f.init.value);
    }
  }

  lemma {:induction false} SubmessageCompatible(f: Field, keep: Kept, gap: nat -> nat)
    requires WellFormedField(f) && f.ltype.Submessage? && Padding(gap)
    ensures Compat(f.ltype.fields, Reduced(f.ltype.fields, keep, gap, |f.ltype.fields|))
    decreases f
  {
    RemovalCompatible(f.ltype.fields, keep, gap);
  }

  lemma {:induction false} FieldStaysCompatible(f: Field, g: Field)
    requires WellFormedField(f) && g == f.(dataOffset := g.dataOffset, ltype := g.ltype)
    requires if f.ltype.Submessage? then g.ltype.Submessage?
             && Compat(f.ltype.fields, g.ltype.fields) else g.ltype == f.ltype
    ensures CompatField(f, g)
  {
  }

  /** Taking any fields away, at any depth, leaves a table that can read the old messages. */
  lemma {:induction false} RemovalCompatible(t: Table, keep: Kept, gap: nat -> nat)
    requires WellFormed(t) && Padding(gap)
    ensures WellFormed(Reduced(t, keep, gap, |t|)) && Compat(t, Reduced(t, keep, gap, |t|))
    decreases t
  {
    hide Stems, Offset, CompatField;
    ReducedWellFormed(t, keep, gap);
    var u := Reduced(t, keep, gap, |t|);
    forall i, j | 0 <= i < |t| && 0 <= j < |u| && t[i].tag == u[j].tag ensures CompatField(t[i], u[j]) {
      FindIs(t, i);
      var k := ReducedAt(t, keep, gap, |t|, j);
      FieldOf(t, keep, gap, j, k);
      assert WellFormedField(t[i]);
      if t[i].ltype.Submessage? {
        SubmessageCompatible(t[i], keep.tags[t[i].tag], gap);
      }
      FieldStaysCompatible(t[i], u[j]);
    }
    forall j | 0 <= j < |u| ensures Find(t, u[j].tag) < |t| {
      var k := ReducedAt(t, keep, gap, |t|, j);
    }
    forall j, j' | 0 <= j < |u| && 0 <= j' < |u| ensures UnionKept(t, u, j, j') {
      var k := ReducedAt(t, keep, gap, |t|, j);
      var k' := ReducedAt(t, keep, gap, |t|, j');
      if j < j' {
        UnionsKept(t, keep, gap, j, k, j', k');
      } else if j' < j {
        UnionsKept(t, keep, gap, j', k', j, k);
      }
    }
  }

  /** Transparency of unknown fields: a reader whose table lacks any of the writer's fields, at
      any depth, and has counts of required fields for which the check is defined, accepts every
      message the writer can encode, and gets the writer's values in every field it has. */
  lemma {:induction false} UnknownFieldsTransparent(t: Table, m: Struct, keep: Kept, gap: nat -> nat)
    returns (w: Struct)
    requires WellFormed(t) && ValidStruct(t, m) && Terminated(t, m) && Padding(gap)
    requires Runnable(Reduced(t, keep, gap, |t|))
    requires Encode(t, m).None? || |Encode(t, m).value| < TWO32
    ensures Encode(t, m).Some?
    ensures var u := Reduced(t, keep, gap, |t|);
            && Decode(u, Encode(t, m).value) == Some(w)
            && SameStruct(t, m, u, w)
            && forall i :: 0 <= i < |t| && t[i].tag in keep.tags ==>
                 var j := Find(u, t[i].tag); j < |u| && SameItems(t[i], u[j], ViewAt(t, i, m), ViewAt(u, j, w))
  {
    var u := Reduced(t, keep, gap, |t|);
    ValidEncodes(t, m, 0);
    RemovalCompatible(t, keep, gap);
    w := MessageRoundTrip(t, m, u);
    forall i | 0 <= i < |t| && t[i].tag in keep.tags
      ensures var j := Find(u, t[i].tag); j < |u| && SameItems(t[i], u[j], ViewAt(t, i, m), ViewAt(u, j, w))
    {
      var j := ReducedHas(t, keep, gap, |t|, i);
      FindIs(t, i);
      FindIs(u, j);
    }
  }
}
