/** Sessions as ASN.1: SSL_SESSION_to_bytes_full and SSL_SESSION_parse in ssl_asn1.cc, on DER taken as
    tagged elements. */
module SessionAsn1 {
  type Byte = x: int | 0 <= x < 256

  datatype Option<+T> = None | Some(value: T)

  datatype Elem = Integer(n: nat) | Octets(bytes: seq<Byte>) | Boolean(b: bool) | Context(tag: nat, inner: seq<Elem>)

  const VERSION: nat := 1
  const X509_V_OK: int := 0
  const LONG_MAX: int := 0x7FFF_FFFF_FFFF_FFFF
  const MAX_SESSION_ID: nat := 32
  const MAX_MASTER_KEY: nat := 48
  const MAX_SID_CTX: nat := 32
  const MAX_MD_SIZE: nat := 64
  const SHA256_LENGTH: nat := 32

  /** A certificate buffer, as the elements it is made of. */
  type Cert = seq<Elem>

  /** SSL_SESSION, as far as it is serialised. */
  datatype Session = Session(
    version: nat, cipher: Option<nat>, sessionId: seq<Byte>, masterKey: seq<Byte>, time: nat, timeout: nat,
    certs: seq<Cert>, sidCtx: seq<Byte>, verifyResult: int, pskIdentity: Option<seq<Byte>>, lifetimeHint: nat,
    ticket: Option<seq<Byte>>, peerSha256: Option<seq<Byte>>, handshakeHash: seq<Byte>, sct: Option<seq<Byte>>,
    ocsp: Option<seq<Byte>>, ems: bool, groupId: nat, ticketAgeAdd: Option<nat>, isServer: bool, peerSigAlg: nat,
    maxEarlyData: nat, authTimeout: nat, earlyAlpn: Option<seq<Byte>>)

  /** Protocol versions and cipher suites the library knows. */
  datatype Known = Known(versions: set<nat>, ciphers: set<nat>)

  /** What the fields of the structure can hold. */
  predicate Fits(k: Known, s: Session)
  {
    && s.version in k.versions && s.version < 0x1_0000
        && (s.cipher.Some? ==> s.cipher.value in k.ciphers && s.cipher.value < 0x1_0000)
    && |s.sessionId| <= MAX_SESSION_ID && |s.masterKey| <= MAX_MASTER_KEY && |s.sidCtx| <= MAX_SID_CTX
    && |s.handshakeHash| <= MAX_MD_SIZE && (s.peerSha256.Some? ==> |s.peerSha256.value| == SHA256_LENGTH)
    && s.time < 0x1_0000_0000_0000_0000 && s.timeout < 0x1_0000_0000 && s.authTimeout < 0x1_0000_0000
    && -LONG_MAX - 1 <= s.verifyResult <= LONG_MAX
    && s.lifetimeHint < 0x1_0000_0000 && s.maxEarlyData < 0x1_0000_0000
    && (s.ticketAgeAdd.Some? ==> s.ticketAgeAdd.value < 0x1_0000_0000)
    && s.groupId < 0x1_0000 && s.peerSigAlg < 0x1_0000
    && (s.pskIdentity.Some? ==> 0 !in s.pskIdentity.value)
  }

  /** Every certificate is one element. */
  predicate Storable(k: Known, s: Session)
  {
    Fits(k, s) && forall i :: 0 <= i < |s.certs| ==> |s.certs[i]| == 1
  }

  /** What survives: a ticket does not hold its own session ID or ticket, certificates give way to a
      SHA-256 kept instead, and empty buffers are no buffers. */
  function Normal(s: Session, forTicket: bool): Session
  {
    s.(sessionId := if forTicket then [] else s.sessionId,
       ticket := if forTicket then None else NonEmpty(s.ticket),
       certs := if s.peerSha256.Some? then [] else s.certs,
       earlyAlpn := NonEmpty(s.earlyAlpn))
  }

  function NonEmpty(o: Option<seq<Byte>>): Option<seq<Byte>>
  {
    if o == Some([]) then None else o
  }

  function AsU64(v: int): nat
    requires -LONG_MAX - 1 <= v <= LONG_MAX
  {
    if v >= 0 then v else v + 0x1_0000_0000_0000_0000
  }

  function U16(v: nat): seq<Byte>
    requires v < 0x1_0000
  {
    [v / 0x100, v % 0x100]
  }

  function U32(v: nat): (bs: seq<Byte>)
    requires v < 0x1_0000_0000
    ensures |bs| == 4
  {
    U16(v / 0x1_0000) + U16(v % 0x1_0000)
  }

  function GetU16(bs: seq<Byte>): nat
    requires |bs| == 2
  {
    bs[0] as int * 0x100 + bs[1] as int
  }

  function GetU32(bs: seq<Byte>): nat
    requires |bs| == 4
  {
    GetU16(bs[..2]) * 0x1_0000 + GetU16(bs[2..])
  }

  lemma {:induction false} U32RoundTrip(v: nat)
    requires v < 0x1_0000_0000
    ensures GetU32(U32(v)) == v
  {
    assert U32(v)[..2] == U16(v / 0x1_0000) && U32(v)[2..] == U16(v % 0x1_0000);
  }

  function Concat(certs: seq<Cert>): seq<Elem>
  {
    if certs == [] then [] else certs[0] + Concat(certs[1..])
  }

  // ---------------------------------------------------------------- the structure, field by field

  /** No tag below the given one comes next. */
  predicate Beyond(elems: seq<Elem>, tag: nat)
  {
    elems != [] ==> elems[0].Context? && elems[0].tag >= tag
  }

  function Opt(b: bool, tag: nat, inner: seq<Elem>): seq<Elem>
  {
    if b then [Context(tag, inner)] else []
  }

  // Places of the optional fields in the structure.
  const LEAF: nat := 0
  const SID_CTX: nat := 1
  const VERIFY_RESULT: nat := 2
  const PSK_IDENTITY: nat := 3
  const LIFETIME_HINT: nat := 4
  const TICKET: nat := 5
  const PEER_SHA256: nat := 6
  const HANDSHAKE_HASH: nat := 7
  const SCT_LIST: nat := 8
  const OCSP: nat := 9
  const EMS: nat := 10
  const GROUP_ID: nat := 11
  const CHAIN: nat := 12
  const AGE_ADD: nat := 13
  const IS_SERVER: nat := 14
  const SIG_ALG: nat := 15
  const EARLY_DATA: nat := 16
  const AUTH_TIMEOUT: nat := 17
  const ALPN: nat := 18
  const FIELDS: nat := 19

  function TagOf(i: nat): nat
    requires i < FIELDS
  {
    [3, 4, 5, 8, 9, 10, 13, 14, 15, 16, 17, 18, 19, 21, 22, 23, 24, 25, 26][i]
  }

  /** An optional field: whether it is written, and what its tag then holds. */
  datatype Field = Field(present: bool, inner: seq<Elem>)

  function FieldAt(k: Known, s: Session, forTicket: bool, i: nat): Field
    requires Storable(k, s) && i < FIELDS
  {
    match i
    case 0 => Field(s.certs != [] && s.peerSha256.None?, if s.certs == [] then [] else s.certs[0])
    case 1 => Field(true, [Octets(s.sidCtx)])
    case 2 => Field(s.verifyResult != X509_V_OK, [Integer(AsU64(s.verifyResult))])
    case 3 => Field(s.pskIdentity.Some?, if s.pskIdentity.None? then [] else [Octets(s.pskIdentity.value)])
    case 4 => Field(s.lifetimeHint > 0, [Integer(s.lifetimeHint)])
    case 5 => Field(s.ticket.Some? && !forTicket, if s.ticket.None? then [] else [Octets(s.ticket.value)])
    case 6 => Field(s.peerSha256.Some?, if s.peerSha256.None? then [] else [Octets(s.peerSha256.value)])
    case 7 => Field(s.handshakeHash != [], [Octets(s.handshakeHash)])
    case 8 => Field(s.sct.Some?, if s.sct.None? then [] else [Octets(s.sct.value)])
    case 9 => Field(s.ocsp.Some?, if s.ocsp.None? then [] else [Octets(s.ocsp.value)])
    case 10 => Field(s.ems, [Boolean(true)])
    case 11 => Field(s.groupId > 0, [Integer(s.groupId)])
    case 12 => Field(|s.certs| >= 2 && s.peerSha256.None?, if s.certs == [] then [] else Concat(s.certs[1..]))
    case 13 => Field(s.ticketAgeAdd.Some?, if s.ticketAgeAdd.None? then [] else [Octets(U32(s.ticketAgeAdd.value))])
    case 14 => Field(!s.isServer, [Boolean(false)])
    case 15 => Field(s.peerSigAlg != 0, [Integer(s.peerSigAlg)])
    case 16 => Field(s.maxEarlyData != 0, [Integer(s.maxEarlyData)])
    case 17 => Field(s.timeout != s.authTimeout, [Integer(s.authTimeout)])
    case 18 => Field(s.earlyAlpn.Some?, if s.earlyAlpn.None? then [] else [Octets(s.earlyAlpn.value)])
  }

  /** The fields from one place on. */
  function From(k: Known, s: Session, forTicket: bool, i: nat): seq<Elem>
    requires Storable(k, s) && i <= FIELDS
    decreases FIELDS - i
  {
    if i == FIELDS then []
    else
      var f := FieldAt(k, s, forTicket, i);
      Opt(f.present, TagOf(i), f.inner) + From(k, s, forTicket, i + 1)
  }

  lemma {:induction false} TagsIncrease(i: nat)
    requires i + 1 < FIELDS
    ensures TagOf(i) < TagOf(i + 1)
  {
  }

  lemma {:induction false} NothingBeyond()
    ensures Beyond([], 0)
  {
  }

  lemma {:induction false} OptBeyond(b: bool, tag: nat, inner: seq<Elem>, rest: seq<Elem>, next: nat)
    requires Beyond(rest, next) && (rest == [] || tag <= next)
    ensures Beyond(Opt(b, tag, inner) + rest, tag)
  {
  }

  /** The fields come in the order of their tags. */
  lemma {:induction false} InOrder(k: Known, s: Session, forTicket: bool, i: nat)
    requires Storable(k, s) && i <= FIELDS
    ensures Beyond(From(k, s, forTicket, i), if i < FIELDS then TagOf(i) else 0)
    ensures From(k, s, forTicket, FIELDS) == []
    decreases FIELDS - i
  {
    hide FieldAt, Storable, TagOf, Opt, Beyond;
    if i == FIELDS {
      NothingBeyond();
    } else {
      InOrder(k, s, forTicket, i + 1);
      if i + 1 < FIELDS {
        TagsIncrease(i);
      }
      var f := FieldAt(k, s, forTicket, i);
      OptBeyond(f.present, TagOf(i), f.inner, From(k, s, forTicket, i + 1), if i + 1 < FIELDS then TagOf(i + 1) else 0);
    }
  }

  function Header(k: Known, s: Session, forTicket: bool): seq<Elem>
    requires Storable(k, s) && s.cipher.Some?
  {
    [Integer(VERSION), Integer(s.version), Octets(U16(s.cipher.value)), Octets(if forTicket then [] else s.sessionId),
     Octets(s.masterKey), Context(1, [Integer(s.time)]), Context(2, [Integer(s.timeout)])]
  }

  /** The serialised session. */
  function Encoded(k: Known, s: Session, forTicket: bool): seq<Elem>
    requires Storable(k, s) && s.cipher.Some?
  {
    Header(k, s, forTicket) + From(k, s, forTicket, LEAF)
  }

  // ---------------------------------------------------------------- writing

  /** What has been written, with what is still to come, is the whole. */
  ghost predicate Writes(out: seq<Elem>, rest: seq<Elem>, all: seq<Elem>)
  {
    out + rest == all
  }

  lemma {:induction false} WritesField(k: Known, s: Session, forTicket: bool, i: nat, out: seq<Elem>, all: seq<Elem>)
    requires Storable(k, s) && i < FIELDS && Writes(out, From(k, s, forTicket, i), all)
    ensures var f := FieldAt(k, s, forTicket, i);
            Writes(out + Opt(f.present, TagOf(i), f.inner), From(k, s, forTicket, i + 1), all)
  {
    hide FieldAt, Storable;
    var f := FieldAt(k, s, forTicket, i);
    var (part, rest) := (Opt(f.present, TagOf(i), f.inner), From(k, s, forTicket, i + 1));
    assert out + (part + rest) == out + part + rest;
  }

  lemma {:induction false} WritesNothing(out: seq<Elem>)
    ensures out + [] == out
  {
  }

  lemma {:induction false} Bounds(k: Known, s: Session)
    requires Storable(k, s)
    ensures s.cipher.Some? ==> s.cipher.value < 0x1_0000
    ensures -LONG_MAX - 1 <= s.verifyResult <= LONG_MAX
    ensures s.ticketAgeAdd.Some? ==> s.ticketAgeAdd.value < 0x1_0000_0000
  {
  }

  /** The certificates after the first. */
  method WriteChain(certs: seq<Cert>) returns (child: seq<Elem>)
    requires |certs| >= 1
    ensures child == Concat(certs[1..])
  {
    child := [];
    for i := 1 to |certs|
      invariant child + Concat(certs[i..]) == Concat(certs[1..])
    {
      assert certs[i..][1..] == certs[i + 1..];
      assert child + (certs[i] + Concat(certs[i + 1..])) == child + certs[i] + Concat(certs[i + 1..]);
      child := child + certs[i];
    }
  }

  /** From the peer certificate to the ticket. */
  method WriteFirst(k: Known, s: Session, forTicket: bool, before: seq<Elem>, ghost all: seq<Elem>)
    returns (out: seq<Elem>)
    requires Storable(k, s) && Writes(before, From(k, s, forTicket, LEAF), all)
    ensures Writes(out, From(k, s, forTicket, PEER_SHA256), all)
  {
    hide Storable, Writes, Concat, From;
    Bounds(k, s);
    out := before;
    WritesField(k, s, forTicket, LEAF, out, all);
    if s.certs != [] && s.peerSha256.None? {
      out := out + [Context(3, s.certs[0])];
    } else {
      WritesNothing(out);
    }
    WritesField(k, s, forTicket, SID_CTX, out, all);
    out := out + [Context(4, [Octets(s.sidCtx)])];
    WritesField(k, s, forTicket, VERIFY_RESULT, out, all);
    if s.verifyResult != X509_V_OK {
      out := out + [Context(5, [Integer(AsU64(s.verifyResult))])];
    } else {
      WritesNothing(out);
    }
    WritesField(k, s, forTicket, PSK_IDENTITY, out, all);
    if s.pskIdentity.Some? {
      out := out + [Context(8, [Octets(s.pskIdentity.value)])];
    } else {
      WritesNothing(out);
    }
    WritesField(k, s, forTicket, LIFETIME_HINT, out, all);
    if s.lifetimeHint > 0 {
      out := out + [Context(9, [Integer(s.lifetimeHint)])];
    } else {
      WritesNothing(out);
    }
    WritesField(k, s, forTicket, TICKET, out, all);
    if s.ticket.Some? && !forTicket {
      out := out + [Context(10, [Octets(s.ticket.value)])];
    } else {
      WritesNothing(out);
    }
  }

  /** From the SHA-256 of the peer to the certificate chain. */
  method WriteSecond(k: Known, s: Session, forTicket: bool, before: seq<Elem>, ghost all: seq<Elem>)
    returns (out: seq<Elem>)
    requires Storable(k, s) && Writes(before, From(k, s, forTicket, PEER_SHA256), all)
    ensures Writes(out, From(k, s, forTicket, AGE_ADD), all)
  {
    hide Storable, Writes, Concat, From;
    Bounds(k, s);
    out := before;
    WritesField(k, s, forTicket, PEER_SHA256, out, all);
    if s.peerSha256.Some? {
      out := out + [Context(13, [Octets(s.peerSha256.value)])];
    } else {
      WritesNothing(out);
    }
    WritesField(k, s, forTicket, HANDSHAKE_HASH, out, all);
    if s.handshakeHash != [] {
      out := out + [Context(14, [Octets(s.handshakeHash)])];
    } else {
      WritesNothing(out);
    }
    WritesField(k, s, forTicket, SCT_LIST, out, all);
    if s.sct.Some? {
      out := out + [Context(15, [Octets(s.sct.value)])];
    } else {
      WritesNothing(out);
    }
    WritesField(k, s, forTicket, OCSP, out, all);
    if s.ocsp.Some? {
      out := out + [Context(16, [Octets(s.ocsp.value)])];
    } else {
      WritesNothing(out);
    }
    WritesField(k, s, forTicket, EMS, out, all);
    if s.ems {
      out := out + [Context(17, [Boolean(true)])];
    } else {
      WritesNothing(out);
    }
    WritesField(k, s, forTicket, GROUP_ID, out, all);
    if s.groupId > 0 {
      out := out + [Context(18, [Integer(s.groupId)])];
    } else {
      WritesNothing(out);
    }
    WritesField(k, s, forTicket, CHAIN, out, all);
    if |s.certs| >= 2 && s.peerSha256.None? {
      var child := WriteChain(s.certs);
      out := out + [Context(19, child)];
    } else {
      WritesNothing(out);
    }
  }

  /** From the ticket age to the early ALPN. */
  method WriteThird(k: Known, s: Session, forTicket: bool, before: seq<Elem>, ghost all: seq<Elem>)
    returns (out: seq<Elem>)
    requires Storable(k, s) && Writes(before, From(k, s, forTicket, AGE_ADD), all)
    ensures Writes(out, From(k, s, forTicket, FIELDS), all)
  {
    hide Storable, Writes, Concat, From;
    Bounds(k, s);
    out := before;
    WritesField(k, s, forTicket, AGE_ADD, out, all);
    if s.ticketAgeAdd.Some? {
      out := out + [Context(21, [Octets(U32(s.ticketAgeAdd.value))])];
    } else {
      WritesNothing(out);
    }
    WritesField(k, s, forTicket, IS_SERVER, out, all);
    if !s.isServer {
      out := out + [Context(22, [Boolean(false)])];
    } else {
      WritesNothing(out);
    }
    WritesField(k, s, forTicket, SIG_ALG, out, all);
    if s.peerSigAlg != 0 {
      out := out + [Context(23, [Integer(s.peerSigAlg)])];
    } else {
      WritesNothing(out);
    }
    WritesField(k, s, forTicket, EARLY_DATA, out, all);
    if s.maxEarlyData != 0 {
      out := out + [Context(24, [Integer(s.maxEarlyData)])];
    } else {
      WritesNothing(out);
    }
    WritesField(k, s, forTicket, AUTH_TIMEOUT, out, all);
    if s.timeout != s.authTimeout {
      out := out + [Context(25, [Integer(s.authTimeout)])];
    } else {
      WritesNothing(out);
    }
    WritesField(k, s, forTicket, ALPN, out, all);
    if s.earlyAlpn.Some? {
      out := out + [Context(26, [Octets(s.earlyAlpn.value)])];
    } else {
      WritesNothing(out);
    }
  }

  /** SSL_SESSION_to_bytes_full: it fails only for a session without a cipher. */
  method ToElements(k: Known, s: Session, forTicket: bool) returns (ok: bool, out: seq<Elem>)
    requires Storable(k, s)
    ensures ok == s.cipher.Some? && (ok ==> out == Encoded(k, s, forTicket))
  {
    hide Storable, From, U16;
    out := [];
    if s.cipher.None? {
      return false, out;
    }
    Bounds(k, s);
    out := [Integer(VERSION), Integer(s.version), Octets(U16(s.cipher.value)),
        Octets(if forTicket then [] else s.sessionId),
            Octets(s.masterKey), Context(1, [Integer(s.time)]), Context(2, [Integer(s.timeout)])];
    ghost var all := Encoded(k, s, forTicket);
    out := WriteFirst(k, s, forTicket, out, all);
    out := WriteSecond(k, s, forTicket, out, all);
    out := WriteThird(k, s, forTicket, out, all);
    WritesNothing(out);
    NothingAfter(k, s, forTicket);
    return true, out;
  }

  lemma {:induction false} NothingAfter(k: Known, s: Session, forTicket: bool)
    requires Storable(k, s)
    ensures From(k, s, forTicket, FIELDS) == []
  {
  }

  // ---------------------------------------------------------------- reading

  /** CBS_get_optional_asn1: the contents of the tag if it is next, and what is left. */
  function GetOptional(elems: seq<Elem>, tag: nat): (Option<seq<Elem>>, seq<Elem>)
  {
    if elems != [] && elems[0].Context?
        && elems[0].tag == tag then (Some(elems[0].inner), elems[1..]) else (None, elems)
  }

  lemma {:induction false} TakeOpt(b: bool, tag: nat, inner: seq<Elem>, rest: seq<Elem>)
    requires Beyond(rest, tag + 1)
    ensures GetOptional(Opt(b, tag, inner) + rest, tag) == (if b then Some(inner) else None, rest)
  {
    if b {
      assert (Opt(b, tag, inner) + rest)[1..] == rest;
    } else {
      assert Opt(b, tag, inner) + rest == rest;
    }
  }

  /** An optional value: not well-formed, or absent, or the value; and what is left. */
  datatype Got<+T> = Malformed | Got(value: Option<T>, rest: seq<Elem>)

  function GetOptionalOctets(elems: seq<Elem>, tag: nat): Got<seq<Byte>>
  {
    match GetOptional(elems, tag)
    case (None, rest) => Got(None, rest)
    case (Some(inner), rest) => if |inner| == 1 && inner[0].Octets? then Got(Some(inner[0].bytes), rest) else Malformed
  }

  function GetOptionalU64(elems: seq<Elem>, tag: nat): Got<nat>
  {
    match GetOptional(elems, tag)
    case (None, rest) => Got(None, rest)
    case (Some(inner), rest) =>
      if |inner| == 1 && inner[0].Integer?
          && inner[0].n < 0x1_0000_0000_0000_0000 then Got(Some(inner[0].n), rest) else Malformed
  }

  function GetOptionalBool(elems: seq<Elem>, tag: nat): Got<bool>
  {
    match GetOptional(elems, tag)
    case (None, rest) => Got(None, rest)
    case (Some(inner), rest) => if |inner| == 1 && inner[0].Boolean? then Got(Some(inner[0].b), rest) else Malformed
  }

  /** The elements begin with what is written for optional bytes under a tag, and `rest` follows. */
  predicate Begins(elems: seq<Elem>, tag: nat, value: Option<seq<Byte>>, rest: seq<Elem>)
  {
    match value
    case Some(bytes) => elems == [Context(tag, [Octets(bytes)])] + rest
    case None => elems == rest && !(rest != [] && rest[0].Context? && rest[0].tag == tag)
  }

  lemma {:induction false} BeginsExactly(elems: seq<Elem>, tag: nat, value: Option<seq<Byte>>, rest: seq<Elem>)
    ensures Begins(elems, tag, value, rest) <==> GetOptionalOctets(elems, tag) == Got(value, rest)
  {
    if GetOptionalOctets(elems, tag) == Got(value, rest) && value.Some? {
      assert elems == [elems[0]] + elems[1..];
      assert elems[0].inner == [elems[0].inner[0]];
    }
    if value.Some? && Begins(elems, tag, value, rest) {
      assert elems[1..] == rest;
    }
  }

  /** SSL_SESSION_parse_string: what was written for a string reads back, exactly if there is no zero
      byte in it, and nothing else is taken. */
  method ParseString(elems: seq<Elem>, tag: nat) returns (ok: bool, value: Option<seq<Byte>>, rest: seq<Elem>)
    ensures ok ==> Begins(elems, tag, value, rest)
    ensures forall v, more :: Begins(elems, tag, v, more) ==>
              (ok <==> v.None? || 0 !in v.value) && (ok ==> value == v && rest == more)
  {
    hide Begins, GetOptionalOctets;
    ok, value, rest := false, None, [];
    forall v, more ensures Begins(elems, tag, v, more) <==> GetOptionalOctets(elems, tag) == Got(v, more) {
      BeginsExactly(elems, tag, v, more);
    }
    var g := GetOptionalOctets(elems, tag);
    if g.Malformed? || (g.value.Some? && 0 in g.value.value) {
      return;
    }
    return true, g.value, g.rest;
  }

  /** SSL_SESSION_parse_octet_string: what was written reads back, except that CBS_stow makes no
      buffer of nothing, and nothing else is taken. */
  method ParseOctetString(elems: seq<Elem>, tag: nat) returns (ok: bool, value: Option<seq<Byte>>, rest: seq<Elem>)
    ensures ok ==> Begins(elems, tag, value, rest) || (value.None? && Begins(elems, tag, Some([]), rest))
    ensures forall v, more :: Begins(elems, tag, v, more) ==> ok && value == NonEmpty(v) && rest == more
  {
    hide Begins, GetOptionalOctets;
    ok, value, rest := false, None, [];
    forall v, more ensures Begins(elems, tag, v, more) <==> GetOptionalOctets(elems, tag) == Got(v, more) {
      BeginsExactly(elems, tag, v, more);
    }
    var g := GetOptionalOctets(elems, tag);
    if g.Malformed? {
      return;
    }
    return true, NonEmpty(g.value), g.rest;
  }

  /** SSL_SESSION_parse_bounded_octet_string. */
  method ParseBounded(elems: seq<Elem>, tag: nat, max: nat) returns (ok: bool, value: seq<Byte>, rest: seq<Elem>)
    ensures ok <==> var g := GetOptionalOctets(elems, tag); g.Got? && (g.value.Some? ==> |g.value.value| <= max)
    ensures ok ==> var g := GetOptionalOctets(elems, tag);
                   rest == g.rest && |value| <= max && value == if g.value.Some? then g.value.value else []
  {
    ok, value, rest := false, [], [];
    var g := GetOptionalOctets(elems, tag);
    if g.Malformed? || (g.value.Some? && |g.value.value| > max) {
      return;
    }
    return true, if g.value.Some? then g.value.value else [], g.rest;
  }

  /** SSL_SESSION_parse_long, _u32 and _u16, which differ in the greatest value. */
  method ParseInt(elems: seq<Elem>, tag: nat, default: nat, max: nat) returns (ok: bool, value: nat, rest: seq<Elem>)
    requires default <= max
    ensures ok <==> var g := GetOptionalU64(elems, tag); g.Got? && (g.value.Some? ==> g.value.value <= max)
    ensures ok ==> var g := GetOptionalU64(elems, tag);
                   rest == g.rest && value <= max && value == if g.value.Some? then g.value.value else default
  {
    ok, value, rest := false, 0, [];
    var g := GetOptionalU64(elems, tag);
    if g.Malformed? || (g.value.Some? && g.value.value > max) {
      return;
    }
    return true, if g.value.Some? then g.value.value else default, g.rest;
  }

  /** ssl_session_new. */
  function Blank(): Session
  {
    Session(0, None, [], [], 0, 0, [], [], X509_V_OK, None, 0, None, None, [], None, None, false, 0, None, false, 0,
        0, 0, None)
  }

  /** The start of SSL_SESSION_parse, to the timeout. */
  method ParseHeader(k: Known, elems: seq<Elem>, ghost s: Session, ghost forTicket: bool, ghost given: bool)
    returns (ok: bool, ret: Session, rest: seq<Elem>)
    requires given ==> Storable(k, s) && s.cipher.Some? && elems == Encoded(k, s, forTicket)
    ensures ok ==> Fits(k, ret) && ret.cipher.Some?
    ensures given ==>
              && ok && rest == From(k, s, forTicket, LEAF)
              && ret == Blank().(version := s.version, cipher := s.cipher, sessionId := Normal(s, forTicket).sessionId,
                                 masterKey := s.masterKey, time := s.time, timeout := s.timeout)
  {
    hide From;
    ok, ret, rest := false, Blank(), [];
    if |elems| < 7 || elems[0] != Integer(VERSION) || !elems[1].Integer? || elems[1].n >= 0x1_0000
        || elems[1].n !in k.versions {
      return;
    }
    ret := ret.(version := elems[1].n);
    if !elems[2].Octets? || |elems[2].bytes| != 2 || GetU16(elems[2].bytes) !in k.ciphers {
      return;
    }
    U16Bounds(elems[2].bytes);
    ret := ret.(cipher := Some(GetU16(elems[2].bytes)));
    if !elems[3].Octets? || |elems[3].bytes| > MAX_SESSION_ID || !elems[4].Octets?
        || |elems[4].bytes| > MAX_MASTER_KEY {
      return;
    }
    ret := ret.(sessionId := elems[3].bytes, masterKey := elems[4].bytes);
    var time := FirstInt(elems[5], 1);
    var timeout := FirstInt(elems[6], 2);
    if time.None? || timeout.None? || timeout.value > 0xFFFF_FFFF {
      return;
    }
    ret := ret.(time := time.value, timeout := timeout.value);
    rest := elems[7..];
    ok := true;
  }

  /** The integer a tag begins with. */
  function FirstInt(e: Elem, tag: nat): Option<nat>
  {
    if e.Context? && e.tag == tag && e.inner != [] && e.inner[0].Integer? && e.inner[0].n < 0x1_0000_0000_0000_0000
    then Some(e.inner[0].n) else None
  }

  lemma {:induction false} U16Bounds(bs: seq<Byte>)
    requires |bs| == 2
    ensures GetU16(bs) < 0x1_0000
  {
  }

  lemma {:induction false} PskFits(k: Known, s: Session)
    requires Fits(k, s)
    ensures (s.pskIdentity.Some? ==> 0 !in s.pskIdentity.value) && s.lifetimeHint < 0x1_0000_0000
            && |s.sidCtx| <= MAX_SID_CTX
    ensures -LONG_MAX - 1 <= s.verifyResult <= LONG_MAX
  {
  }

  lemma {:induction false} FitsFirst(k: Known, s: Session, sidCtx: seq<Byte>, verifyResult: int,
      psk: Option<seq<Byte>>, hint: nat, ticket: Option<seq<Byte>>)
    requires Fits(k, s) && |sidCtx| <= MAX_SID_CTX && -LONG_MAX - 1 <= verifyResult <= LONG_MAX
             && (psk.Some? ==> 0 !in psk.value) && hint < 0x1_0000_0000
    ensures Fits(k, s.(sidCtx := sidCtx, verifyResult := verifyResult, pskIdentity := psk, lifetimeHint := hint,
            ticket := ticket))
  {
  }

  /** What the fields may hold is within what the parser accepts. */
  lemma {:induction false} FirstShape(k: Known, s: Session)
    requires Storable(k, s)
    ensures |s.sidCtx| <= MAX_SID_CTX && s.lifetimeHint < 0x1_0000_0000
            && (s.pskIdentity.Some? ==> 0 !in s.pskIdentity.value)
    ensures s.certs != [] ==> s.certs[0] != []
  {
  }

  lemma {:induction false} SecondShape(k: Known, s: Session)
    requires Storable(k, s)
    ensures (s.peerSha256.Some? ==> |s.peerSha256.value| == SHA256_LENGTH) && |s.handshakeHash| <= MAX_MD_SIZE
            && s.groupId < 0x1_0000
  {
  }

  lemma {:induction false} ThirdShape(k: Known, s: Session)
    requires Storable(k, s)
    ensures s.peerSigAlg < 0x1_0000 && s.maxEarlyData < 0x1_0000_0000 && s.authTimeout < 0x1_0000_0000
  {
  }

  /** From the psk identity to the ticket. */
  method ParseIdentity(k: Known, elems: seq<Elem>, session: Session, ghost s: Session, ghost forTicket: bool,
      ghost given: bool)
    returns (ok: bool, ret: Session, rest: seq<Elem>)
    requires Fits(k, session)
    requires given ==> Storable(k, s) && elems == From(k, s, forTicket, PSK_IDENTITY)
    ensures ok ==> Fits(k, ret) && ret.cipher == session.cipher && ret.timeout == session.timeout
    ensures given ==>
              && ok && rest == From(k, s, forTicket, PEER_SHA256)
              && ret == session.(pskIdentity := s.pskIdentity, lifetimeHint := s.lifetimeHint,
                  ticket := Normal(s, forTicket).ticket)
  {
    hide Fits, Storable, From, GetOptional, Begins;
    ok, ret := false, session;
    if given {
      FirstShape(k, s);
      NoHostName(k, s, forTicket);
      IdentityBegins(k, s, forTicket);
      FieldIs(k, s, forTicket, LIFETIME_HINT);
    }
    var hostName := GetOptional(elems, 6);
    var good, psk, hint, ticket;
    good, psk, rest := ParseString(hostName.1, 8);
    if !good {
      return;
    }
    good, hint, rest := ParseInt(rest, 9, 0, 0xFFFF_FFFF);
    if !good {
      return;
    }
    good, ticket, rest := ParseOctetString(rest, 10);
    if !good {
      return;
    }
    PskFits(k, session);
    FitsFirst(k, session, session.sidCtx, session.verifyResult, psk, hint, ticket);
    ret := session.(pskIdentity := psk, lifetimeHint := hint, ticket := ticket);
    ok := true;
  }

  /** The peer certificate, which waits for the chain, to the verify result. */
  method ParseFirst(k: Known, elems: seq<Elem>, session: Session, ghost s: Session, ghost forTicket: bool,
      ghost given: bool)
    returns (ok: bool, ret: Session, peer: Option<Cert>, rest: seq<Elem>)
    requires Fits(k, session)
    requires given ==> Storable(k, s) && elems == From(k, s, forTicket, LEAF)
    ensures ok ==> Fits(k, ret) && ret.cipher == session.cipher && ret.timeout == session.timeout
    ensures given ==> ok == (s.verifyResult >= 0)
    ensures given && ok ==>
              && rest == From(k, s, forTicket, PSK_IDENTITY)
              && peer == (if s.certs != [] && s.peerSha256.None? then Some(s.certs[0]) else None)
              && ret == session.(sidCtx := s.sidCtx, verifyResult := s.verifyResult)
  {
    hide Fits, Storable, From, GetOptional;
    ok, ret := false, session;
    if given {
      Bounds(k, s);
      FirstShape(k, s);
      FieldIs(k, s, forTicket, LEAF);
      FieldIs(k, s, forTicket, SID_CTX);
      FieldIs(k, s, forTicket, VERIFY_RESULT);
    }
    var leaf := GetOptional(elems, 3);
    peer, rest := leaf.0, leaf.1;
    if peer == Some([]) {
      return;
    }
    var good, sidCtx, verifyResult;
    good, sidCtx, rest := ParseBounded(rest, 4, MAX_SID_CTX);
    if !good {
      return;
    }
    good, verifyResult, rest := ParseInt(rest, 5, X509_V_OK, LONG_MAX);
    if !good {
      return;
    }
    PskFits(k, session);
    FitsFirst(k, session, sidCtx, verifyResult, session.pskIdentity, session.lifetimeHint, session.ticket);
    ret := session.(sidCtx := sidCtx, verifyResult := verifyResult);
    ok := true;
  }

  // ---------------------------------------------------------------- what each field reads as

  /** The field at a place, if it was written, and the rest. */
  lemma {:induction false} FieldIs(k: Known, s: Session, forTicket: bool, i: nat)
    requires Storable(k, s) && i < FIELDS
    ensures var f := FieldAt(k, s, forTicket, i);
            GetOptional(From(k, s, forTicket, i), TagOf(i)) == (if f.present then Some(f.inner) else None,
                From(k, s, forTicket, i + 1))
  {
    hide FieldAt, Storable, GetOptional, Opt, TagOf;
    var f := FieldAt(k, s, forTicket, i);
    InOrder(k, s, forTicket, i + 1);
    if i + 1 < FIELDS {
      TagsIncrease(i);
    }
    TakeOpt(f.present, TagOf(i), f.inner, From(k, s, forTicket, i + 1));
  }

  lemma {:induction false} NoHostName(k: Known, s: Session, forTicket: bool)
    requires Storable(k, s)
    ensures GetOptional(From(k, s, forTicket, PSK_IDENTITY), 6) == (None, From(k, s, forTicket, PSK_IDENTITY))
  {
    hide FieldAt, Storable, From;
    InOrder(k, s, forTicket, PSK_IDENTITY);
  }

  lemma {:induction false} ConcatSingles(certs: seq<Cert>)
    requires forall i :: 0 <= i < |certs| ==> |certs[i]| == 1
    ensures |Concat(certs)| == |certs| && forall i :: 0 <= i < |certs| ==> [Concat(certs)[i]] == certs[i]
  {
    if certs != [] {
      ConcatSingles(certs[1..]);
      assert forall i :: 0 < i < |certs| ==> Concat(certs)[i] == Concat(certs[1..])[i - 1];
    }
  }

  lemma {:induction false} ChainIs(k: Known, s: Session, forTicket: bool)
    requires Storable(k, s)
    ensures GetOptional(From(k, s, forTicket, CHAIN), 19) ==
              (if |s.certs| >= 2 && s.peerSha256.None? then Some(Concat(s.certs[1..])) else None,
                  From(k, s, forTicket, AGE_ADD))
    ensures |s.certs| >= 2 ==> |Concat(s.certs[1..])| == |s.certs| - 1
    ensures |s.certs| >= 2 ==> forall i :: 0 <= i < |s.certs| - 1 ==> [Concat(s.certs[1..])[i]] == s.certs[i + 1]
  {
    FieldIs(k, s, forTicket, CHAIN);
    if |s.certs| >= 2 {
      ConcatSingles(s.certs[1..]);
    }
  }

  // ---------------------------------------------------------------- the rest of the parser

  /** The certificates: the leaf, and one for each element of the chain. */
  method ParseCerts(peer: Option<Cert>, chain: seq<Elem>) returns (certs: seq<Cert>)
    ensures |certs| == (if peer.Some? then 1 else 0) + |chain|
    ensures peer.Some? ==> certs[0] == peer.value
    ensures forall i :: 0 <= i < |chain| ==> certs[|certs| - |chain| + i] == [chain[i]]
  {
    certs := if peer.Some? then [peer.value] else [];
    for i := 0 to |chain|
      invariant |certs| == (if peer.Some? then 1 else 0) + i && (peer.Some? ==> certs[0] == peer.value)
      invariant forall j :: 0 <= j < i ==> certs[|certs| - i + j] == [chain[j]]
    {
      certs := certs + [[chain[i]]];
    }
  }

  /** From the SHA-256 of the peer to the OCSP response. */
  method ParseBuffers(k: Known, elems: seq<Elem>, session: Session, ghost s: Session, ghost forTicket: bool,
      ghost given: bool)
    returns (ok: bool, ret: Session, rest: seq<Elem>)
    requires Fits(k, session)
    requires given ==> Storable(k, s) && elems == From(k, s, forTicket, PEER_SHA256)
    ensures ok ==> Fits(k, ret) && ret.cipher == session.cipher && ret.timeout == session.timeout
    ensures given ==>
              && ok && rest == From(k, s, forTicket, EMS)
              && ret == session.(peerSha256 := s.peerSha256, handshakeHash := s.handshakeHash, sct := s.sct,
                  ocsp := s.ocsp)
  {
    hide Fits, Storable, From, Concat, GetOptional;
    ok, ret, rest := false, session, [];
    if given {
      SecondShape(k, s);
      FieldIs(k, s, forTicket, PEER_SHA256);
      FieldIs(k, s, forTicket, HANDSHAKE_HASH);
      FieldIs(k, s, forTicket, SCT_LIST);
      FieldIs(k, s, forTicket, OCSP);
    }
    var sha256 := GetOptionalOctets(elems, 13);
    if sha256.Malformed? || (sha256.value.Some? && |sha256.value.value| != SHA256_LENGTH) {
      return;
    }
    var good, hash;
    good, hash, rest := ParseBounded(sha256.rest, 14, MAX_MD_SIZE);
    if !good {
      return;
    }
    var sct := GetOptionalOctets(rest, 15);
    if sct.Malformed? {
      return;
    }
    var ocsp := GetOptionalOctets(sct.rest, 16);
    if ocsp.Malformed? {
      return;
    }
    FitsBuffers(k, session, sha256.value, hash, sct.value, ocsp.value);
    ret := session.(peerSha256 := sha256.value, handshakeHash := hash, sct := sct.value, ocsp := ocsp.value);
    rest := ocsp.rest;
    ok := true;
  }

  /** From the extended master secret to the certificate chain. */
  method ParseSecond(k: Known, elems: seq<Elem>, session: Session, peer: Option<Cert>, ghost s: Session,
      ghost forTicket: bool, ghost given: bool)
    returns (ok: bool, ret: Session, rest: seq<Elem>)
    requires Fits(k, session)
    requires given ==> Storable(k, s) && elems == From(k, s, forTicket, EMS)
    requires given ==> peer == if s.certs != [] && s.peerSha256.None? then Some(s.certs[0]) else None
    ensures ok ==> Fits(k, ret) && ret.cipher == session.cipher && ret.timeout == session.timeout
    ensures given ==>
              && ok && rest == From(k, s, forTicket, AGE_ADD)
              && ret == session.(ems := s.ems, groupId := s.groupId, certs := Normal(s, forTicket).certs)
  {
    hide Fits, Storable, From, Concat, GetOptional;
    ok, ret, rest := false, session, [];
    if given {
      SecondShape(k, s);
      FieldIs(k, s, forTicket, EMS);
      FieldIs(k, s, forTicket, GROUP_ID);
      ChainIs(k, s, forTicket);
    }
    var ems := GetOptionalBool(elems, 17);
    if ems.Malformed? {
      return;
    }
    var good, group;
    good, group, rest := ParseInt(ems.rest, 18, 0, 0xFFFF);
    if !good {
      return;
    }
    var chain := GetOptional(rest, 19);
    rest := chain.1;
    if chain.0 == Some([]) || (chain.0.Some? && peer.None?) {
      return;
    }
    var certs := ParseCerts(peer, if chain.0.Some? then chain.0.value else []);
    if given && s.certs != [] && s.peerSha256.None? {
      ChainRead(certs, s.certs, if chain.0.Some? then chain.0.value else []);
    }
    FitsSecond(k, session, ems.value == Some(true), group, certs);
    ret := session.(ems := ems.value == Some(true), groupId := group, certs := certs);
    ok := true;
  }

  lemma {:induction false} ChainRead(certs: seq<Cert>, sent: seq<Cert>, chain: seq<Elem>)
    requires sent != [] && |certs| == 1 + |chain| == |sent| && certs[0] == sent[0]
    requires forall i :: 0 <= i < |chain| ==> certs[|certs| - |chain| + i] == [chain[i]] && [chain[i]] == sent[i + 1]
    ensures certs == sent
  {
    forall i | 0 < i < |certs| ensures certs[i] == sent[i] {
      assert certs[|certs| - |chain| + (i - 1)] == [chain[i - 1]];
    }
  }

  lemma {:induction false} FitsBuffers(k: Known, s: Session, sha256: Option<seq<Byte>>, hash: seq<Byte>,
      sct: Option<seq<Byte>>, ocsp: Option<seq<Byte>>)
    requires Fits(k, s) && (sha256.Some? ==> |sha256.value| == SHA256_LENGTH) && |hash| <= MAX_MD_SIZE
    ensures Fits(k, s.(peerSha256 := sha256, handshakeHash := hash, sct := sct, ocsp := ocsp))
  {
  }

  lemma {:induction false} FitsSecond(k: Known, s: Session, ems: bool, group: nat, certs: seq<Cert>)
    requires Fits(k, s) && group < 0x1_0000
    ensures Fits(k, s.(ems := ems, groupId := group, certs := certs))
  {
  }

  /** The ticket age, and which side it was. */
  method ParseThird(k: Known, elems: seq<Elem>, session: Session, ghost s: Session, ghost forTicket: bool,
      ghost given: bool)
    returns (ok: bool, ret: Session, rest: seq<Elem>)
    requires Fits(k, session)
    requires given ==> Storable(k, s) && elems == From(k, s, forTicket, AGE_ADD)
    ensures ok ==> Fits(k, ret) && ret.cipher == session.cipher && ret.timeout == session.timeout
    ensures given ==>
              ok && rest == From(k, s, forTicket, SIG_ALG)
                  && ret == session.(ticketAgeAdd := s.ticketAgeAdd, isServer := s.isServer)
  {
    hide Fits, Storable, From, U32, GetU32, GetOptional;
    ok, ret, rest := false, session, [];
    if given {
      Bounds(k, s);
      FieldIs(k, s, forTicket, AGE_ADD);
      FieldIs(k, s, forTicket, IS_SERVER);
      if s.ticketAgeAdd.Some? {
        U32RoundTrip(s.ticketAgeAdd.value);
      }
    }
    var octets := GetOptionalOctets(elems, 21);
    if octets.Malformed? || (octets.value.Some? && |octets.value.value| != 4) {
      return;
    }
    if octets.value.Some? {
      U32Bounds(octets.value.value);
    }
    var ageAdd := if octets.value.Some? then Some(GetU32(octets.value.value)) else None;
    var isServer := GetOptionalBool(octets.rest, 22);
    if isServer.Malformed? {
      return;
    }
    FitsThird(k, session, ageAdd, isServer.value != Some(false));
    ret := session.(ticketAgeAdd := ageAdd, isServer := isServer.value != Some(false));
    rest := isServer.rest;
    ok := true;
  }

  /** To the end. */
  method ParseLast(k: Known, elems: seq<Elem>, session: Session, ghost s: Session, ghost forTicket: bool,
      ghost given: bool)
    returns (ok: bool, ret: Session)
    requires Fits(k, session)
    requires given ==> Storable(k, s) && elems == From(k, s, forTicket, SIG_ALG) && session.timeout == s.timeout
    ensures ok ==> Fits(k, ret) && ret.cipher == session.cipher
    ensures given ==>
              ok && ret == session.(peerSigAlg := s.peerSigAlg, maxEarlyData := s.maxEarlyData,
                  authTimeout := s.authTimeout,
                                    earlyAlpn := Normal(s, forTicket).earlyAlpn)
  {
    hide Fits, Storable, From, GetOptional, Begins, GetOptionalOctets;
    ok, ret := false, session;
    TimeoutFits(k, session);
    if given {
      ThirdShape(k, s);
      FieldIs(k, s, forTicket, SIG_ALG);
      FieldIs(k, s, forTicket, EARLY_DATA);
      FieldIs(k, s, forTicket, AUTH_TIMEOUT);
      AlpnBegins(k, s, forTicket);
    }
    var good, sigAlg, earlyData, authTimeout, alpn, rest;
    good, sigAlg, rest := ParseInt(elems, 23, 0, 0xFFFF);
    if !good {
      return;
    }
    good, earlyData, rest := ParseInt(rest, 24, 0, 0xFFFF_FFFF);
    if !good {
      return;
    }
    good, authTimeout, rest := ParseInt(rest, 25, session.timeout, 0xFFFF_FFFF);
    if !good {
      return;
    }
    good, alpn, rest := ParseOctetString(rest, 26);
    if !good || rest != [] {
      return;
    }
    FitsLast(k, session, sigAlg, earlyData, authTimeout, alpn);
    ret := session.(peerSigAlg := sigAlg, maxEarlyData := earlyData, authTimeout := authTimeout, earlyAlpn := alpn);
    ok := true;
  }

  lemma {:induction false} IdentityBegins(k: Known, s: Session, forTicket: bool)
    requires Storable(k, s)
    ensures Begins(From(k, s, forTicket, PSK_IDENTITY), 8, s.pskIdentity, From(k, s, forTicket, LIFETIME_HINT))
    ensures Begins(From(k, s, forTicket, TICKET), 10, if forTicket then None else s.ticket,
            From(k, s, forTicket, PEER_SHA256))
  {
    hide Storable, From, GetOptional;
    var psk, ticket := s.pskIdentity, if forTicket then None else s.ticket;
    FieldIs(k, s, forTicket, PSK_IDENTITY);
    FieldIs(k, s, forTicket, TICKET);
    BeginsExactly(From(k, s, forTicket, PSK_IDENTITY), 8, psk, From(k, s, forTicket, LIFETIME_HINT));
    BeginsExactly(From(k, s, forTicket, TICKET), 10, ticket, From(k, s, forTicket, PEER_SHA256));
  }

  lemma {:induction false} AlpnBegins(k: Known, s: Session, forTicket: bool)
    requires Storable(k, s)
    ensures Begins(From(k, s, forTicket, ALPN), 26, s.earlyAlpn, [])
  {
    hide Storable, From, GetOptional;
    FieldIs(k, s, forTicket, ALPN);
    NothingAfter(k, s, forTicket);
    BeginsExactly(From(k, s, forTicket, ALPN), 26, s.earlyAlpn, []);
  }

  lemma {:induction false} TimeoutFits(k: Known, s: Session)
    requires Fits(k, s)
    ensures s.timeout < 0x1_0000_0000
  {
  }

  lemma {:induction false} FitsThird(k: Known, s: Session, ageAdd: Option<nat>, isServer: bool)
    requires Fits(k, s) && (ageAdd.Some? ==> ageAdd.value < 0x1_0000_0000)
    ensures Fits(k, s.(ticketAgeAdd := ageAdd, isServer := isServer))
  {
  }

  lemma {:induction false} FitsLast(k: Known, s: Session, sigAlg: nat, earlyData: nat, authTimeout: nat,
      alpn: Option<seq<Byte>>)
    requires Fits(k, s) && sigAlg < 0x1_0000 && earlyData < 0x1_0000_0000 && authTimeout < 0x1_0000_0000
    ensures Fits(k, s.(peerSigAlg := sigAlg, maxEarlyData := earlyData, authTimeout := authTimeout, earlyAlpn := alpn))
  {
  }

  lemma {:induction false} U32Bounds(bs: seq<Byte>)
    requires |bs| == 4
    ensures GetU32(bs) < 0x1_0000_0000
  {
  }

  /** SSL_SESSION_parse. Of any input it makes only what the structure can hold. What
      SSL_SESSION_to_bytes_full wrote reads back as the session, up to what is not kept, except that a
      negative verify result is written but does not read back. */
  method Parse(k: Known, elems: seq<Elem>, ghost s: Session, ghost forTicket: bool) returns (r: Option<Session>)
    ensures r.Some? ==> Fits(k, r.value) && r.value.cipher.Some?
    ensures Storable(k, s) && s.cipher.Some? && elems == Encoded(k, s, forTicket) ==>
              r == if s.verifyResult >= 0 then Some(Normal(s, forTicket)) else None
  {
    hide Encoded, Fits, Storable, From;
    ghost var given := Storable(k, s) && s.cipher.Some? && elems == Encoded(k, s, forTicket);
    var ok, ret, rest := ParseHeader(k, elems, s, forTicket, given);
    if !ok {
      return None;
    }
    var peer;
    ok, ret, peer, rest := ParseFirst(k, rest, ret, s, forTicket, given);
    if !ok {
      return None;
    }
    ok, ret, rest := ParseIdentity(k, rest, ret, s, forTicket, given && s.verifyResult >= 0);
    if !ok {
      return None;
    }
    ok, ret, rest := ParseBuffers(k, rest, ret, s, forTicket, given && s.verifyResult >= 0);
    if !ok {
      return None;
    }
    ok, ret, rest := ParseSecond(k, rest, ret, peer, s, forTicket, given && s.verifyResult >= 0);
    if !ok {
      return None;
    }
    ok, ret, rest := ParseThird(k, rest, ret, s, forTicket, given && s.verifyResult >= 0);
    if !ok {
      return None;
    }
    ok, ret := ParseLast(k, rest, ret, s, forTicket, given && s.verifyResult >= 0);
    return if ok then Some(ret) else None;
  }

  /** The round trip, for sessions kept by the client or the server and for those put into tickets. */
  method RoundTrip(k: Known, s: Session, forTicket: bool) returns (r: Option<Session>)
    requires Storable(k, s) && s.cipher.Some?
    ensures r == if s.verifyResult >= 0 then Some(Normal(s, forTicket)) else None
  {
    var ok, elems := ToElements(k, s, forTicket);
    r := Parse(k, elems, s, forTicket);
  }
}
