/** The sliding replay window of dtls_record.cc, opening records, and the change of read epoch
    in dtls_method.cc. Section 4.1.2.6 of RFC 6347. */
module DtlsReplay {
  import opened DtlsWire

  const WINDOW_SIZE: nat := 64

  // ---------------------------------------------------------------- 64 bits

  predicate Bit(w: bv64, i: bv6)
  {
    (w >> i) & 1 == 1
  }

  function Shl(w: bv64, s: bv6): bv64
  {
    w << s
  }

  predicate Masked(w: bv64, i: bv6)
  {
    w & (1 << i) != 0
  }

  lemma {:induction false} BitTest(w: bv64, i: bv6)
    ensures Masked(w, i) <==> Bit(w, i)
  {
  }

  function WithBit(w: bv64, i: bv6): bv64
  {
    w | (1 << i)
  }

  lemma {:induction false} BitSet(w: bv64, i: bv6, k: bv6)
    ensures Bit(WithBit(w, i), k) <==> k == i || Bit(w, k)
  {
  }

  lemma {:induction false} BitNone(k: bv6)
    ensures !Bit(0, k)
  {
  }

  lemma {:induction false} ShlZero(w: bv64)
    ensures Shl(w, 0) == w
  {
  }

  lemma {:induction false} ShlLow(w: bv64, s: bv6)
    requires 0 < s <= 32
    ensures Shl(w, s) == Shl(Shl(w, s - 1), 1)
  {
    if s <= 16 {
      ShlLowest(w, s);
    } else {
      ShlMiddle(w, s);
    }
  }

  lemma {:induction false} ShlLowest(w: bv64, s: bv6)
    requires 0 < s <= 16
    ensures Shl(w, s) == Shl(Shl(w, s - 1), 1)
  {
  }

  lemma {:induction false} ShlMiddle(w: bv64, s: bv6)
    requires 16 < s <= 32
    ensures Shl(w, s) == Shl(Shl(w, s - 1), 1)
  {
  }

  lemma {:induction false} ShlHigh(w: bv64, s: bv6)
    requires s >= 32
    ensures Shl(w, s) == Shl(Shl(w, s - 32), 32)
  {
  }

  lemma {:induction false} BitShlOne(w: bv64, i: bv6)
    ensures Bit(Shl(w, 1), i) <==> i > 0 && Bit(w, i - 1)
  {
  }

  lemma {:induction false} BitShlHalf(w: bv64, i: bv6)
    ensures Bit(Shl(w, 32), i) <==> i >= 32 && Bit(w, i - 32)
  {
  }

  lemma {:induction false} BitShl(w: bv64, s: bv6, i: bv6)
    ensures Bit(Shl(w, s), i) <==> i >= s && Bit(w, i - s)
    decreases s
  {
    hide Bit, Shl;
    if s == 0 {
      ShlZero(w);
    } else if s < 32 {
      ShlLow(w, s);
      BitShlOne(Shl(w, s - 1), i);
      if i > 0 {
        BitShl(w, s - 1, i - 1);
        assert i - 1 - (s - 1) == i - s;
      }
    } else {
      ShlHigh(w, s);
      BitShlHalf(Shl(w, s - 32), i);
      if i >= 32 {
        BitShl(w, s - 32, i - 32);
        assert i - 32 - (s - 32) == i - s;
      }
    }
  }

  /** An offset below the window size, as a six-bit shift count. */
  function Index(n: nat): bv6
    requires n < WINDOW_SIZE
  {
    if n == 0 then 0 else Index(n - 1) + 1
  }

  lemma {:induction false} Increment(x: bv6)
    requires x as nat < 63
    ensures (x + 1) as nat == x as nat + 1
  {
  }

  lemma {:induction false} SameNumber(x: bv6, y: bv6)
    ensures x == y <==> x as nat == y as nat
    ensures x >= y <==> x as nat >= y as nat
  {
  }

  lemma {:induction false} IndexIs(n: nat)
    requires n < WINDOW_SIZE
    ensures Index(n) as nat == n
  {
    if n > 0 {
      IndexIs(n - 1);
      Increment(Index(n - 1));
    }
  }

  lemma {:induction false} IndexDifference(a: nat, b: nat)
    requires b <= a < WINDOW_SIZE
    ensures Index(a) - Index(b) == Index(a - b)
  {
    if b == 0 {
      assert Index(a) - 0 == Index(a);
    } else {
      IndexDifference(a - 1, b - 1);
      assert a - 1 - (b - 1) == a - b;
    }
  }

  lemma {:induction false} IndexOrder(a: nat, b: nat)
    requires a < WINDOW_SIZE && b < WINDOW_SIZE
    ensures Index(a) == Index(b) <==> a == b
    ensures Index(a) >= Index(b) <==> a >= b
  {
    IndexIs(a);
    IndexIs(b);
    SameNumber(Index(a), Index(b));
  }

  // ---------------------------------------------------------------- the window

  /** Bit `n` of the map says whether number `max - n` has been recorded, and `max` is the
      greatest number recorded. */
  ghost predicate Window(map_: bv64, max: nat, seen: set<int>)
  {
    && (forall s :: s in seen ==> 0 <= s <= max)
    && (if seen == {} then max == 0 else max in seen)
    && forall n :: 0 <= n < WINDOW_SIZE ==> Tracks(map_, max, seen, n)
  }

  ghost predicate Tracks(map_: bv64, max: nat, seen: set<int>, n: nat)
    requires n < WINDOW_SIZE
  {
    Bit(map_, Index(n)) <==> max - n in seen
  }

  lemma {:induction false} EmptyWindow()
    ensures Window(0, 0, {})
  {
    forall n | 0 <= n < WINDOW_SIZE ensures Tracks(0, 0, {}, n) {
      BitNone(Index(n));
    }
  }

  /** Shifting the map keeps it in step with the greater maximum. */
  lemma {:induction false} ShiftTracks(map_: bv64, max: nat, seen: set<int>, to: nat, n: nat)
    requires Window(map_, max, seen) && max < to && n < WINDOW_SIZE
    ensures Tracks(if to - max >= WINDOW_SIZE then 0 else Shl(map_, Index(to - max)), to, seen, n)
  {
    hide Bit, Shl, Index;
    if to - max >= WINDOW_SIZE {
      BitNone(Index(n));
    } else {
      BitShl(map_, Index(to - max), Index(n));
      IndexOrder(n, to - max);
      if n >= to - max {
        IndexDifference(n, to - max);
        assert Tracks(map_, max, seen, n - (to - max));
      }
    }
  }

  lemma {:induction false} SetTracks(map_: bv64, max: nat, seen: set<int>, num: nat, n: nat)
    requires num <= max < num + WINDOW_SIZE && n < WINDOW_SIZE && Tracks(map_, max, seen, n)
    ensures Tracks(WithBit(map_, Index(max - num)), max, seen + {num}, n)
  {
    hide Bit, Index, WithBit;
    BitSet(map_, Index(max - num), Index(n));
    IndexOrder(n, max - num);
  }

  // ---------------------------------------------------------------- opening records

  const SSL3_RT_ALERT: nat := 21
  const SSL3_RT_MAX_PLAIN_LENGTH: nat := 16384
  const SSL3_RT_MAX_ENCRYPTED_LENGTH: nat := 16384 + 320
  const DTLS1_VERSION_MAJOR: nat := 0xFE
  const SSL_AD_RECORD_OVERFLOW: nat := 22
  const EPOCH_SIZE: nat := 0x1_0000_0000_0000

  /** The number of some big-endian bytes. */
  function FromBigEndian(bs: seq<Byte>): nat
  {
    if bs == [] then 0 else FromBigEndian(bs[..|bs| - 1]) * 256 + bs[|bs| - 1] as int
  }

  lemma {:induction false} FromBigEndianSplit(hi: seq<Byte>, lo: seq<Byte>)
    ensures FromBigEndian(hi + lo) == FromBigEndian(hi) * Power256(|lo|) + FromBigEndian(lo)
    ensures FromBigEndian(lo) < Power256(|lo|)
    decreases |lo|
  {
    if lo == [] {
      assert hi + lo == hi;
    } else {
      var init := lo[..|lo| - 1];
      FromBigEndianSplit(hi, init);
      assert (hi + lo)[..|hi + lo| - 1] == hi + init;
      NextDigit(FromBigEndian(hi), Power256(|init|), FromBigEndian(init), lo[|lo| - 1]);
    }
  }

  lemma {:induction false} NextDigit(x: int, p: int, y: int, z: int)
    ensures (x * p + y) * 256 + z == x * (p * 256) + (y * 256 + z)
  {
    assert x * p * 256 == x * (p * 256);
  }

  lemma {:induction false} SingleByte(b: Byte)
    ensures FromBigEndian([b]) == b as int
  {
    assert [b][..0] == [];
  }

  /** to_u64_be. */
  method ToU64(bs: seq<Byte>) returns (ret: nat)
    ensures ret == FromBigEndian(bs)
  {
    ret := 0;
    for i := 0 to |bs|
      invariant ret == FromBigEndian(bs[..i])
    {
      ret := ret * 256 + bs[i] as int;
      assert bs[..i + 1][..i] == bs[..i];
    }
    assert bs[..|bs|] == bs;
  }

  function Power256(n: nat): nat
  {
    if n == 0 then 1 else Power256(n - 1) * 256
  }

  /** The first two of the eight bytes are the epoch. */
  lemma {:induction false} EpochOfNumber(bs: seq<Byte>)
    requires |bs| == 8
    ensures FromBigEndian(bs) / EPOCH_SIZE == GetU16(bs, 0) && FromBigEndian(bs) < 0x1_0000 * EPOCH_SIZE
  {
    FromBigEndianSplit(bs[..2], bs[2..]);
    assert bs[..2] + bs[2..] == bs;
    assert Power256(6) == EPOCH_SIZE;
    FromBigEndianSplit([bs[0]], [bs[1]]);
    assert bs[..2] == [bs[0]] + [bs[1]];
    SingleByte(bs[0]);
    SingleByte(bs[1]);
    assert Power256(1) == 256;
  }

  /** The header of a record: type, version, number, and a body behind its length. */
  datatype RecordHeader = RecordHeader(typ: nat, version: nat, num: seq<Byte>, body: seq<Byte>, rest: seq<Byte>)

  function ParseRecord(bs: seq<Byte>): (r: Option<RecordHeader>)
    ensures r.Some? ==> |r.value.num| == 8 && |r.value.rest| < |bs| && |r.value.body| <= SSL3_RT_MAX_ENCRYPTED_LENGTH
    ensures r.Some? ==> |bs| >= 13 && bs == bs[..13] + r.value.body + r.value.rest
  {
    if |bs| < 13 then None
    else
      var len := GetU16(bs, 11);
      if |bs| < 13 + len || len > SSL3_RT_MAX_ENCRYPTED_LENGTH then None
      else Some(RecordHeader(bs[0], GetU16(bs, 1), bs[3..11], bs[13..13 + len], bs[13 + len..]))
  }

  datatype OpenResult =
    | OpenSuccess(typ: nat, plain: seq<Byte>)
    | OpenAlert(plain: seq<Byte>)
    | OpenDiscard
    | OpenPartial
    | OpenCloseNotify
    | OpenError(alert: nat)

  class ReadState {
    var rEpoch: nat
    var bitmap: bv64
    var maxSeqNum: nat
    var nullCipher: bool
    var recordVersion: nat
    var closed: bool
    ghost var seen: set<int>        // numbers recorded since the epoch began
    ghost var accepted: seq<int>      // every number accepted so far
    ghost var wrapped: bool         // the 16-bit epoch has started over

    /** The window tracks this epoch's records, and no number was ever accepted twice. */
    ghost predicate Valid()
      reads this
    {
      && rEpoch < 0x1_0000 && Window(bitmap, maxSeqNum, seen)
      && (!wrapped ==> Unrepeated(accepted, rEpoch, seen))
    }

    constructor (version: nat)
      ensures Valid() && seen == {} && accepted == [] && rEpoch == 0 && !wrapped
    {
      rEpoch, bitmap, maxSeqNum, nullCipher, recordVersion, closed := 0, 0, 0, true, version, false;
      seen, accepted, wrapped := {}, [], false;
      new;
      EmptyWindow();
    }

    /** dtls1_bitmap_should_discard: exactly the numbers recorded in this epoch and those 64 or
        more below the greatest. */
    method ShouldDiscard(num: nat) returns (discard: bool)
      requires Valid()
      ensures discard <==> num in seen || num + WINDOW_SIZE <= maxSeqNum
    {
      hide Bit, Index, Masked;
      if num > maxSeqNum {
        return false;
      }
      var idx := maxSeqNum - num;
      if idx >= WINDOW_SIZE {
        return true;
      }
      assert Tracks(bitmap, maxSeqNum, seen, idx);
      BitTest(bitmap, Index(idx));
      return Masked(bitmap, Index(idx));
    }

    /** dtls1_bitmap_record. */
    method Record(num: nat)
      requires Valid() && num + WINDOW_SIZE > maxSeqNum
      modifies this`bitmap, this`maxSeqNum, this`seen
      ensures Window(bitmap, maxSeqNum, seen) && seen == old(seen) + {num}
    {
      hide Bit, Index, Tracks, Shl, WithBit;
      if num > maxSeqNum {
        var shift := num - maxSeqNum;
        var shifted := if shift >= WINDOW_SIZE then 0 else Shl(bitmap, Index(shift));
        forall n | 0 <= n < WINDOW_SIZE ensures Tracks(shifted, num, seen, n) {
          ShiftTracks(bitmap, maxSeqNum, seen, num, n);
        }
        bitmap := shifted;
        maxSeqNum := num;
      }
      var idx := maxSeqNum - num;
      forall n | 0 <= n < WINDOW_SIZE ensures Tracks(WithBit(bitmap, Index(idx)), maxSeqNum, seen + {num}, n) {
        SetTracks(bitmap, maxSeqNum, seen, num, n);
      }
      bitmap := WithBit(bitmap, Index(idx));
      seen := seen + {num};
    }

    /** Records dropped without looking into them: of another version or epoch, replayed or stale. */
    ghost predicate Unwanted(h: RecordHeader)
      requires |h.num| == 8
      reads this
    {
      var num := FromBigEndian(h.num);
      !VersionOk(h.version) || num / EPOCH_SIZE != rEpoch || num in seen || num + WINDOW_SIZE <= maxSeqNum
    }

    /** dtls_open_record. Decryption may fail, and gives any plaintext when it does not. A number
        is only ever used for a record that decrypts, is of the current epoch, fresh, and not stale. */
    method OpenRecord(input: seq<Byte>) returns (r: OpenResult, consumed: nat)
      requires Valid()
      modifies this`bitmap, this`maxSeqNum, this`seen, this`accepted
      ensures Valid() && consumed <= |input|
      ensures r.OpenSuccess? || r.OpenAlert? ==>
                && ParseRecord(input).Some? && |r.plain| <= SSL3_RT_MAX_PLAIN_LENGTH
                && var num := FromBigEndian(ParseRecord(input).value.num);
                   && num / EPOCH_SIZE == rEpoch && num !in old(seen) && num + WINDOW_SIZE > old(maxSeqNum)
                   && seen == old(seen) + {num} && accepted == old(accepted) + [num]
      ensures !r.OpenSuccess? && !r.OpenAlert? ==>
                bitmap == old(bitmap) && maxSeqNum == old(maxSeqNum) && seen == old(seen) && accepted == old(accepted)
      ensures r.OpenPartial? || r.OpenCloseNotify? <==> closed || input == []
      ensures !closed && input != [] ==>
                consumed == if ParseRecord(input).None? || !VersionOk(ParseRecord(input).value.version) then |input|
                            else |input| - |ParseRecord(input).value.rest|
      ensures !closed && input != [] && (ParseRecord(input).None? || old(Unwanted(ParseRecord(input).value))) ==>
              r.OpenDiscard?
    {
      hide Window, Unrepeated, ParseRecord, FromBigEndian;
      consumed := 0;
      if closed {
        return OpenCloseNotify, consumed;
      }
      if input == [] {
        return OpenPartial, consumed;
      }
      var header := ParseRecord(input);
      if header.None? || !VersionOk(header.value.version) {
        return OpenDiscard, |input|;
      }
      var h := header.value;
      consumed := |input| - |h.rest|;
      EpochOfNumber(h.num);
      var num := ToU64(h.num);
      var stale := ShouldDiscard(num);
      if GetU16(h.num, 0) != rEpoch || stale {
        return OpenDiscard, consumed;
      }
      var ok, plain := AeadOpen(h.body);
      if !ok {
        return OpenDiscard, consumed;
      }
      if |plain| > SSL3_RT_MAX_PLAIN_LENGTH {
        return OpenError(SSL_AD_RECORD_OVERFLOW), consumed;
      }
      if !wrapped {
        UnrepeatedRecord(accepted, rEpoch, seen, num);
      }
      Record(num);
      accepted := accepted + [num];
      return if h.typ == SSL3_RT_ALERT then OpenAlert(plain) else OpenSuccess(h.typ, plain), consumed;
    }

    predicate VersionOk(version: nat)
      reads this
    {
      if nullCipher then version / 0x100 == DTLS1_VERSION_MAJOR else version == recordVersion
    }

    /** dtls1_set_read_state, given whether handshake data of the old epoch is left over. */
    method SetReadState(leftover: bool, version: nat) returns (ok: bool)
      requires Valid()
      modifies this
      ensures Valid() && ok == !leftover && accepted == old(accepted)
      ensures ok ==>
                && rEpoch == (old(rEpoch) + 1) % 0x1_0000 && seen == {}
                && wrapped == (old(wrapped) || old(rEpoch) == 0xFFFF)
      ensures !ok ==> rEpoch == old(rEpoch) && seen == old(seen) && bitmap == old(bitmap) && maxSeqNum == old(maxSeqNum)
    {
      if leftover {
        return false;
      }
      EmptyWindow();
      wrapped := wrapped || rEpoch == 0xFFFF;
      rEpoch := (rEpoch + 1) % 0x1_0000;
      bitmap, maxSeqNum, seen := 0, 0, {};
      nullCipher, recordVersion := false, version;
      return true;
    }
  }

  /** SSLAEADContext::Open. */
  method AeadOpen(body: seq<Byte>) returns (ok: bool, plain: seq<Byte>)
    ensures |plain| <= |body|
  {
    ok := *;
    plain :| |plain| <= |body|;
  }

  /** Numbers accepted so far: each once, those of the current epoch being the ones in the window's
      history, and none of a later epoch. */
  ghost predicate Unrepeated(accepted: seq<int>, epoch: nat, seen: set<int>)
  {
    && (forall i, j :: 0 <= i < j < |accepted| ==> accepted[i] != accepted[j])
    && (forall n :: n in accepted ==> n / EPOCH_SIZE <= epoch && (n / EPOCH_SIZE == epoch ==> n in seen))
    && (forall n :: n in seen ==> n / EPOCH_SIZE == epoch)
  }

  lemma {:induction false} UnrepeatedRecord(accepted: seq<int>, epoch: nat, seen: set<int>, num: nat)
    requires Unrepeated(accepted, epoch, seen) && num / EPOCH_SIZE == epoch && num !in seen
    ensures Unrepeated(accepted + [num], epoch, seen + {num})
  {
    assert num !in accepted;
    var all := accepted + [num];
    forall i, j | 0 <= i < j < |all| ensures all[i] != all[j] {
      if j == |accepted| {
        assert all[i] in accepted;
      }
    }
  }
}
