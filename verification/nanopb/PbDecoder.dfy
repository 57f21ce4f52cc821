/** pb_decode.c: the decoder as it runs, on streams, iterators and the two words of required
    bits, proved to compute what PbDecode says. The C destination struct is passed in and out
    as a value. */
module PbDecoder {
  import opened PbWire
  import opened PbSchema
  import opened PbDecode
  import opened PbFailure
  import opened PbInput
  import opened PbIterator
  import opened PbRequired

  // ---------------------------------------------------------------- leaves

  /** pb_dec_varint, pb_dec_uvarint, pb_dec_svarint: store with the width of the member, then
      compare with what was meant to be stored. */
  method DecInteger(s: IStream, f: Field, prior: Value) returns (ok: bool, v: Value)
    requires s.Valid() && (f.ltype.Varint? || f.ltype.UVarint? || f.ltype.SVarint?)
    modifies s
    ensures s.Valid() && s.End() == old(s.End()) && v == IntegerLeft(f, prior, old(s.Rest()))
    ensures match ParseInteger(f, old(s.Rest()))
            case Ok(w, rest) => ok && v == w && s.Rest() == rest
            case Err(_) => !ok
  {
    v := prior;
    var value: nat, wide: int, clamped: int;
    if f.ltype.SVarint? {
      ok, wide := s.DecodeSvarint();
      if !ok {
        return;
      }
    } else {
      ok, value := s.DecodeVarint();
      if !ok {
        return;
      }
      if f.ltype.UVarint? {
        wide := value;
      } else if f.dataSize == 8 {
        wide := Signed(8, value);
      } else {
        wide := Signed(4, value);
      }
    }
    if !IntSize(f.dataSize) {
      return false, v;
    }
    clamped := if f.ltype.UVarint? then Unsigned(f.dataSize, wide) else Signed(f.dataSize, wide);
    return clamped == wide, Int(clamped);
  }

  /** pb_dec_bytes, pb_dec_string and pb_dec_fixed_length_bytes. */
  method DecBlob(s: IStream, f: Field, prior: Value, mem: Memory) returns (ok: bool, v: Value)
    requires s.Valid() && (f.ltype.Bytes? || f.ltype.String? || f.ltype.FixedBytes?)
    modifies s
    ensures s.Valid() && s.End() == old(s.End()) && v == BlobLeft(f, prior, old(s.Rest()), mem)
    ensures match ParseBlob(f, old(s.Rest()))
            case Ok(w, rest) => ok && v == w && s.Rest() == rest
            case Err(_) => !ok
  {
    hide ParseVarint32, ParseVarint, Zeros;
    v := prior;
    var size: nat;
    ok, size := s.DecodeVarint32();
    if !ok {
      return;
    }
    ok := false;
    match f.ltype {
      case Bytes =>
        if size > PB_SIZE_MAX || size + BYTES_HEADER > f.dataSize {
          return;
        }
      case String =>
        var allocSize := (size + 1) % TWO32;
        if allocSize < size || allocSize > f.dataSize {
          return;
        }
      case FixedBytes =>
        if size > PB_SIZE_MAX {
          return;
        }
        if size == 0 {
          return true, Blob(Zeros(f.dataSize));
        }
        if size != f.dataSize {
          return;
        }
    }
    var bytes;
    ok, bytes := s.Read(size);
    if ok {
      v := Blob(bytes);
    } else if !f.ltype.FixedBytes? {
      v := Blob(Resized(BytesOf(prior), size, mem));
    }
  }

  method DecLeaf(s: IStream, f: Field, prior: Value, mem: Memory) returns (ok: bool, v: Value)
    requires s.Valid() && !f.ltype.Submessage?
    modifies s
    ensures s.Valid() && s.End() == old(s.End()) && v == LeafLeft(f, prior, old(s.Rest()), mem)
    ensures match ParseLeaf(f, old(s.Rest()))
            case Ok(w, rest) => ok && v == w && s.Rest() == rest
            case Err(_) => !ok
  {
    var word: nat;
    if f.ltype.Fixed32? {
      ok, word := s.DecodeFixed(4);
      v := if ok then Int(word) else prior;
    } else if f.ltype.Fixed64? {
      ok, word := s.DecodeFixed(8);
      v := if ok then Int(word) else prior;
    } else if f.ltype.Bytes? || f.ltype.String? || f.ltype.FixedBytes? {
      ok, v := DecBlob(s, f, prior, mem);
    } else {
      ok, v := DecInteger(s, f, prior);
    }
  }

  // ---------------------------------------------------------------- defaults

  /** pb_message_set_to_defaults. */
  method MessageSetToDefaults(t: Table, m: Struct) returns (m': Struct)
    requires WellFormed(t)
    ensures m' == DefaultFrom(t, 0, m)
    decreases t, 1
  {
    m' := m;
    NonZeroTags(t);
    var iter := new FieldIter();
    var more := iter.Begin(t, 0);
    while more
      invariant iter.Valid() && iter.start == t && iter.dest == 0
      invariant more ==> iter.pos < |t| && DefaultFrom(t, iter.pos, m') == DefaultFrom(t, 0, m)
      invariant !more ==> m' == DefaultFrom(t, 0, m)
      decreases if more then |t| - iter.pos else 0
    {
      var i := iter.pos;
      FieldIn(t, i);
      var s := FieldSetToDefault(t[i]);
      m' := m'[iter.pData := s];
      more := iter.Next();
    }
  }

  /** pb_field_set_to_default. */
  method FieldSetToDefault(f: Field) returns (s: Slot)
    requires WellFormedField(f)
    ensures s == DefaultSlot(f)
    decreases f, 0
  {
    if f.htype.Repeated? {
      return Rep([]);
    } else if f.htype.OneOf? {
      return NoArm;
    }
    var v: Value;
    if f.ltype.Submessage? {
      var m := MessageSetToDefaults(f.ltype.fields, map[]);
      v := Msg(m);
    } else if f.init.Some? {
      v := f.init.value;
    } else if f.ltype.Bytes? || f.ltype.String? {
      v := Blob([]);
    } else if f.ltype.FixedBytes? {
      v := Blob(Zeros(f.dataSize));
    } else {
      v := Int(0);
    }
    if f.htype.Optional? && f.sizeOffset != 0 {
      s := Opt(false, v);
    } else {
      s := One(v);
    }
  }

  lemma {:induction false} NonZeroTags(t: Table)
    requires WellFormed(t)
    ensures forall f :: f in t ==> f.tag != 0
  {
    forall i | 0 <= i < |t| ensures t[i].tag != 0 {
      assert WellFormedField(t[i]);
    }
  }

  lemma {:induction false} FieldIn(t: Table, i: nat)
    requires WellFormed(t) && i < |t|
    ensures WellFormedField(t[i]) && t[i] in t
  {
  }

  // ---------------------------------------------------------------- fields and messages

  /** pb_dec_submessage, and the leaf decoders. */
  method DecValue(s: IStream, f: Field, prior: Value, mem: Memory) returns (ok: bool, v: Value)
    requires s.Valid() && RunnableField(f)
    requires f.htype.OneOf? && f.ltype.Submessage? ==> prior == Msg(Default(f.ltype.fields))
    modifies s
    ensures s.Valid() && s.End() <= old(s.End()) && v == ValueLeft(f, prior, old(s.Rest()), mem)
    ensures match ParseValue(f, prior, old(s.Rest()))
            case Ok(w, rest) => ok && v == w && s.Rest() == rest && s.End() == old(s.End())
            case Err(_) => !ok
    decreases s.bytesLeft, 0
  {
    hide ParseLeaf, ParseVarint32, Loop, DefaultFrom, WellFormed, ReqIndex;
    v := prior;
    if !f.ltype.Submessage? {
      ok, v := DecLeaf(s, f, prior, mem);
      return;
    }
    var sub;
    ok, sub := s.MakeSubstream();
    if !ok {
      return;
    }
    var fields := f.ltype.fields;
    var status, m;
    if f.htype.Repeated? {
      m := MessageSetToDefaults(fields, map[]);
    } else {
      m := Slots(prior);
    }
    status, m := Run(sub, fields, m, mem);
    v := Msg(m);
    var closed := s.CloseSubstream(sub);
    if !closed {
      return false, v;
    }
    return status, v;
  }

  /** decode_static_field. */
  method DecodeField(s: IStream, f: Field, wiretype: nat, slot: Slot, mem: Memory) returns (ok: bool, slot': Slot)
    requires s.Valid() && RunnableField(f)
    modifies s
    ensures s.Valid() && s.End() <= old(s.End())
    ensures match ParseField(f, wiretype, slot, old(s.Rest()))
            case Ok(w, rest) => ok && slot' == w && s.Rest() == rest && s.End() == old(s.End())
            case Err(_) => !ok && slot' == SlotLeft(f, wiretype, slot, old(s.Rest()), mem)
    decreases s.bytesLeft, 1
  {
    hide ParseValue, ValueLeft, Runnable, DefaultFrom;
    var v;
    slot' := slot;
    match f.htype {
      case Required =>
        ok, v := DecValue(s, f, Held(slot), mem);
        slot' := One(v);
      case Optional =>
        ok, v := DecValue(s, f, Held(slot), mem);
        slot' := if f.sizeOffset != 0 then Opt(true, v) else One(v);
      case OneOf =>
        IgnoresPrior(f, Held(slot), Prior(f, slot, mem), s.Rest());
        var prior := if slot.Arm? && slot.which == f.tag then slot.v else mem.entry(f);
        if f.ltype.Submessage? {
          RunnableParts(f.ltype.fields);
          var m := MessageSetToDefaults(f.ltype.fields, map[]);
          prior := Msg(m);
        }
        ok, v := DecValue(s, f, prior, mem);
        slot' := Arm(f.tag, v);
      case Repeated =>
        if wiretype == WT_STRING && f.Packable() {
          ok, slot' := DecodePacked(s, f, slot, mem);
        } else {
          if |Items(slot)| >= f.arraySize {
            return false, slot;
          }
          IgnoresPrior(f, Held(slot), mem.entry(f), s.Rest());
          ok, v := DecValue(s, f, mem.entry(f), mem);
          slot' := Rep(Items(slot) + [v]);
        }
    }
  }

  /** The packed array case of decode_static_field. */
  method DecodePacked(s: IStream, f: Field, slot: Slot, mem: Memory) returns (ok: bool, slot': Slot)
    requires s.Valid() && f.htype.Repeated? && f.Packable()
    modifies s
    ensures s.Valid() && s.End() <= old(s.End())
    ensures match ParseField(f, WT_STRING, slot, old(s.Rest()))
            case Ok(w, rest) => ok && slot' == w && s.Rest() == rest && s.End() == old(s.End())
            case Err(_) => !ok && slot' == SlotLeft(f, WT_STRING, slot, old(s.Rest()), mem)
  {
    hide ParseLeaf, ParseVarint32, LeafLeft;
    slot' := slot;
    var sub;
    ok, sub := s.MakeSubstream();
    if !ok {
      return;
    }
    ghost var body := sub.Rest();
    var items, status := Items(slot), true;
    while sub.bytesLeft > 0 && |items| < f.arraySize
      invariant sub.Valid() && fresh(sub) && sub.End() == s.state + |body|
      invariant ParsePacked(f, Items(slot), body) == ParsePacked(f, items, sub.Rest())
      invariant PackedLeft(f, Items(slot), body) == PackedLeft(f, items, sub.Rest())
      modifies sub
      decreases sub.bytesLeft
    {
      var item;
      ghost var left := sub.Rest();
      status, item := DecLeaf(sub, f, mem.entry(f), mem);
      if !status {
        assert PackedLeft(f, items, left) == items;
        break;
      }
      items := items + [item];
    }
    if sub.bytesLeft != 0 {
      return false, Rep(items);
    }
    var closed := s.CloseSubstream(sub);
    if !closed {
      return false, Rep(items);
    }
    return status, Rep(items);
  }

  /** What the loop left unread. */
  ghost function Unread(o: Outcome): seq<Byte>
  {
    if o.Stopped? then o.left else []
  }

  datatype Turn = Next | End | Fail

  /** Remember required field number `n`. */
  method Mark(fieldsSeen: array<Word>, n: nat, ghost seen: set<nat>)
    requires fieldsSeen.Length == 2 && Holds(fieldsSeen[..], seen) && n < PB_MAX_REQUIRED_FIELDS
    modifies fieldsSeen
    ensures Holds(fieldsSeen[..], seen + {n})
  {
    ghost var before := fieldsSeen[..];
    fieldsSeen[n / 32] := fieldsSeen[n / 32] + {n % 32};
    HoldsStep(before, seen, n);
    assert fieldsSeen[..] == before[n / 32 := before[n / 32] + {n % 32}];
  }

  /** What one turn of the loop is to do, and to leave. */
  lemma {:induction false} LoopTurn(t: Table, st: State, input: seq<Byte>, mem: Memory)
    requires input != []
    ensures match ParseTag(input)
            case BadTag => Loop(t, st, input) == Failed && LoopLeft(t, st.m, input, mem) == st.m
            case Eof(left) => Loop(t, st, input) == Stopped(st, left) && LoopLeft(t, st.m, input, mem) == st.m
            case Tag(wiretype, tag, rest) =>
              var i := Find(t, tag);
              if t == [] && tag == 0 then Loop(t, st, input) == Failed && LoopLeft(t, st.m, input, mem) == st.m
              else if i == |t| then
                match Skip(wiretype, rest)
                case None => Loop(t, st, input) == Failed && LoopLeft(t, st.m, input, mem) == st.m
                case Some(r) =>
                  Loop(t, st, input) == Loop(t, st, r) && LoopLeft(t, st.m, input, mem) == LoopLeft(t, st.m, r, mem)
              else
                var s := At(st.m, Offset(t, i));
                match ParseField(t[i], wiretype, s, rest)
                case Err(_) =>
                  && Loop(t, st, input) == Failed
                  && LoopLeft(t, st.m, input, mem) == st.m[Offset(t, i) := SlotLeft(t[i], wiretype, s, rest, mem)]
                case Ok(s', r) =>
                  && Loop(t, st, input) == Loop(t, Meet(t, st, i, s'), r)
                  && LoopLeft(t, st.m, input, mem) == LoopLeft(t, st.m[Offset(t, i) := s'], r, mem)
  {
    hide ParseTag, ParseField, SlotLeft, Skip, Offset, Find;
  }

  /** One turn of the loop of pb_decode_noinit. */
  method DecodeNext(s: IStream, iter: FieldIter, fieldsSeen: array<Word>, m0: Struct, mem: Memory,
      ghost seen0: set<nat>)
    returns (turn: Turn, m: Struct, ghost seen: set<nat>)
    requires s.Valid() && s.bytesLeft > 0 && iter.Valid() && Runnable(iter.start) && iter.dest == 0
    requires fieldsSeen.Length == 2 && Holds(fieldsSeen[..], seen0)
    requires forall n :: n in seen0 ==> n < ReqIndex(iter.start, |iter.start|)
    modifies s, iter, fieldsSeen
    ensures s.Valid() && s.End() <= old(s.End())
    ensures iter.Valid() && iter.start == old(iter.start) && iter.dest == 0
    ensures var t, input := iter.start, old(s.Rest());
            match turn
            case Fail => Loop(t, State(m0, seen0), input).Failed? && LoopLeft(t, m0, input, mem) == m
            case End =>
              m == m0 && LoopLeft(t, m0, input, mem) == m && seen == seen0 && s.End() == old(s.End())
                  && Loop(t, State(m0, seen0), input) == Stopped(State(m, seen), s.Rest())
            case Next =>
              Loop(t, State(m0, seen0), input) == Loop(t, State(m, seen), s.Rest())
              && LoopLeft(t, m0, input, mem) == LoopLeft(t, m, s.Rest(), mem)
              && s.bytesLeft < old(s.bytesLeft) && s.End() == old(s.End())
    ensures !turn.Fail? ==>
              Holds(fieldsSeen[..], seen) && forall n :: n in seen ==> n < ReqIndex(iter.start, |iter.start|)
    decreases s.bytesLeft, 2
  {
    hide ParseTag, ParseField, SlotLeft, Skip, Offset, ReqIndex, SizeAt, Find, WellFormed, Runnable, RunnableField,
      Holds, Loop, LoopLeft;
    ghost var t := iter.start;
    LoopTurn(t, State(m0, seen0), s.Rest(), mem);
    RunnableParts(t);
    NonZeroTags(t);
    m, seen := m0, seen0;
    var gotTag, wiretype, tag, eof := s.DecodeTag();
    if !gotTag {
      return if eof then End else Fail, m, seen;
    }
    var found := iter.FindTag(tag);
    FindAgrees(t, tag);
    if !found {
      var skipped := s.SkipField(wiretype);
      return if skipped then Next else Fail, m, seen;
    }
    var f := FieldAt(iter.start, iter.pos);
    RunnableAt(t, iter.pos);
    if iter.start == [] {
      TerminatorFails(wiretype, At(m, 0), s.Rest());
    } else {
      FindIs(t, iter.pos);
      ReqIndexOrder(t, iter.pos, |t|);
    }
    if f.htype.Required? && iter.requiredFieldIndex < PB_MAX_REQUIRED_FIELDS {
      Mark(fieldsSeen, iter.requiredFieldIndex, seen);
      seen := seen + {iter.requiredFieldIndex};
    }
    var decoded, slot := DecodeField(s, f, wiretype, At(m, iter.pData), mem);
    if iter.start != [] {
      m := m[iter.pData := slot];
    }
    turn := if decoded then Next else Fail;
  }

  /** pb_decode_noinit. */
  method Run(s: IStream, t: Table, m0: Struct, mem: Memory) returns (ok: bool, m: Struct)
    requires s.Valid() && Runnable(t)
    modifies s
    ensures s.Valid() && s.End() <= old(s.End()) && m == LoopLeft(t, m0, old(s.Rest()), mem)
    ensures ok <==> DecodeNoInit(t, m0, old(s.Rest())).Some?
    ensures ok ==> m == DecodeNoInit(t, m0, old(s.Rest())).value && s.End() == old(s.End())
    ensures ok ==> s.Rest() == Unread(Loop(t, State(m0, {}), old(s.Rest())))
    decreases s.bytesLeft, 3
  {
    hide ReqIndex, SizeAt, Offset, WellFormed, Runnable;
    RunnableParts(t);
    NonZeroTags(t);
    m := m0;
    var iter := new FieldIter();
    var begun := iter.Begin(t, 0);
    var fieldsSeen := new Word[2](_ => {});
    ghost var seen: set<nat> := {};
    ghost var input := s.Rest();
    ghost var outcome := Loop(t, State(m0, {}), input);
    ghost var stopped := false;
    while s.bytesLeft > 0
      invariant s.Valid() && s.End() == old(s.End()) && iter.Valid() && iter.start == t && iter.dest == 0
      invariant Holds(fieldsSeen[..], seen) && forall n :: n in seen ==> n < ReqIndex(t, |t|)
      invariant outcome == Loop(t, State(m, seen), s.Rest())
      invariant LoopLeft(t, m0, input, mem) == LoopLeft(t, m, s.Rest(), mem)
      modifies s, iter, fieldsSeen
      decreases s.bytesLeft
    {
      var turn;
      turn, m, seen := DecodeNext(s, iter, fieldsSeen, m, mem, seen);
      if turn.End? {
        stopped := true;
        break;
      } else if turn.Fail? {
        return false, m;
      }
    }
    assert outcome == if stopped then Stopped(State(m, seen), s.Rest()) else Done(State(m, seen));
    ok := CheckRequired(iter, fieldsSeen, seen);
  }

  lemma {:induction false} RunnableParts(t: Table)
    requires Runnable(t)
    ensures WellFormed(t) && Admitted(ReqIndex(t, |t|))
  {
  }

  lemma {:induction false} RunnableAt(t: Table, i: nat)
    requires Runnable(t) && i <= |t|
    ensures RunnableField(FieldAt(t, i))
  {
  }

  /** The terminator of an empty table, taken for a field, fails to decode. */
  lemma {:induction false} TerminatorFails(wiretype: nat, s: Slot, input: seq<Byte>)
    ensures ParseField(LAST_FIELD, wiretype, s, input).Err?
  {
  }

  lemma {:induction false} FindAgrees(t: Table, tag: nat)
    requires WellFormed(t)
    ensures (exists f :: f in t && f.tag == tag) <==> Find(t, tag) < |t|
  {
    if Find(t, tag) == |t| {
      forall f | f in t ensures f.tag != tag {
        var i :| 0 <= i < |t| && t[i] == f;
      }
    }
  }

  lemma {:induction false} HoldsStep(words: seq<Word>, seen: set<nat>, n: nat)
    requires Holds(words, seen) && n < PB_MAX_REQUIRED_FIELDS
    ensures Holds(words[n / 32 := words[n / 32] + {n % 32}], seen + {n})
  {
    var after := words[n / 32 := words[n / 32] + {n % 32}];
    forall k | 0 <= k < PB_MAX_REQUIRED_FIELDS ensures k % 32 in after[k / 32] <==> k in seen + {n} {
      assert k % 32 == n % 32 && k / 32 == n / 32 ==> k == n;
    }
  }

  /** The end of pb_decode_noinit: walk the iterator to the end of the table for the number of
      required fields, then compare the words. */
  method CheckRequired(iter: FieldIter, fieldsSeen: array<Word>, ghost seen: set<nat>) returns (ok: bool)
    requires iter.Valid() && WellFormed(iter.start) && Admitted(ReqIndex(iter.start, |iter.start|))
    requires fieldsSeen.Length == 2 && Holds(fieldsSeen[..], seen)
    requires forall n :: n in seen ==> n < ReqIndex(iter.start, |iter.start|)
    modifies iter
    ensures ok <==> AllSeen(old(iter.start), seen)
  {
    hide SizeAt, Offset, WellFormed, WellFormedField, Holds, AllBitsShifted;
    NonZeroTags(iter.start);
    var count := CountRequired(iter);
    CheckIsAllSeen(fieldsSeen[..], seen, count);
    ok := CompareWords(fieldsSeen, count);
  }

  /** The walk from wherever the iterator stands to the end of the table: the required index of
      the last field, and one more if that is required. */
  method CountRequired(iter: FieldIter) returns (count: nat)
    requires iter.Valid() && forall f :: f in iter.start ==> f.tag != 0
    modifies iter
    ensures iter.Valid() && iter.start == old(iter.start) && count == ReqIndex(iter.start, |iter.start|)
  {
    hide SizeAt, Offset;
    ghost var t := iter.start;
    count := iter.requiredFieldIndex;
    var last := FieldAt(iter.start, iter.pos).htype;
    var more := iter.Next();
    while more
      invariant iter.Valid() && iter.start == t
      invariant more ==> 0 < iter.pos < |t| && count == ReqIndex(t, iter.pos - 1) && last == t[iter.pos - 1].htype
      invariant !more ==> iter.pos == 0 && (t != [] ==> count == ReqIndex(t, |t| - 1) && last == t[|t| - 1].htype)
      invariant !more ==> (t == [] ==> count == 0)
      decreases if more then |t| - iter.pos + 1 else 0
    {
      count := iter.requiredFieldIndex;
      last := FieldAt(iter.start, iter.pos).htype;
      more := iter.Next();
    }
    if last.Required? && FieldAt(iter.start, iter.pos).tag != 0 {
      count := count + 1;
    }
  }

  /** The comparisons of pb_decode_noinit, for a count for which they are defined. */
  method CompareWords(fieldsSeen: array<Word>, count: nat) returns (ok: bool)
    requires fieldsSeen.Length == 2 && Admitted(count)
    ensures Check(fieldsSeen[..], count) == Some(ok)
  {
    hide AllBitsShifted;
    if count > 0 {
      var i := 0;
      while i < count / 32
        invariant 0 <= i <= count / 32
        invariant WholeWords(fieldsSeen[..], 0, count / 32) == WholeWords(fieldsSeen[..], i, count / 32)
      {
        if fieldsSeen[i] != ALL_BITS {
          return false;
        }
        i := i + 1;
      }
      if fieldsSeen[count / 32] != AllBitsShifted(32 - count % 32) {
        return false;
      }
    }
    return true;
  }

  /** pb_decode: every member is first set to its default. */
  method DecodeMessage(s: IStream, t: Table, m0: Struct, mem: Memory) returns (ok: bool, m: Struct)
    requires s.Valid() && Runnable(t)
    modifies s
    ensures s.Valid() && s.End() <= old(s.End())
    ensures m == LoopLeft(t, DefaultFrom(t, 0, m0), old(s.Rest()), mem)
    ensures ok <==> DecodeNoInit(t, DefaultFrom(t, 0, m0), old(s.Rest())).Some?
    ensures ok ==> m == DecodeNoInit(t, DefaultFrom(t, 0, m0), old(s.Rest())).value && s.End() == old(s.End())
    ensures ok ==> s.Rest() == Unread(Loop(t, State(DefaultFrom(t, 0, m0), {}), old(s.Rest())))
  {
    m := MessageSetToDefaults(t, m0);
    ok, m := Run(s, t, m, mem);
  }

  /** pb_decode_delimited. */
  method DecodeDelimited(s: IStream, t: Table, m0: Struct, mem: Memory) returns (ok: bool, m: Struct)
    requires s.Valid() && Runnable(t)
    modifies s
    ensures s.Valid()
    ensures m == match ParseDelimited(old(s.Rest()))
                 case Err(_) => m0
                 case Ok(body, _) => LoopLeft(t, DefaultFrom(t, 0, m0), body, mem)
    ensures ok <==> match ParseDelimited(old(s.Rest()))
                    case Err(_) => false
                    case Ok(body, _) => DecodeNoInit(t, DefaultFrom(t, 0, m0), body).Some?
    ensures ok ==> var r := ParseDelimited(old(s.Rest()));
                   m == DecodeNoInit(t, DefaultFrom(t, 0, m0), r.value).value && s.Rest() == r.rest
                       && s.End() == old(s.End())
  {
    m := m0;
    var sub;
    ok, sub := s.MakeSubstream();
    if !ok {
      return;
    }
    var status;
    status, m := DecodeMessage(sub, t, m0, mem);
    var closed := s.CloseSubstream(sub);
    if !closed {
      return false, m;
    }
    return status, m;
  }
}
