/** The server's choice of a TLS 1.2 cipher: ssl3_choose_cipher in handshake_server.cc, with the
    equal-preference groups described in ssl/internal.h. */
module CipherChoice {
  datatype Option<+T> = None | Some(value: T)

  /** SSL_CIPHER: an identifier, the protocol versions it is for, and key exchange and
      authentication masks. */
  datatype Cipher = Cipher(id: nat, minVersion: nat, maxVersion: nat, mkey: bv32, auth: bv32)

  /** What the handshake can use. */
  datatype Config = Config(version: nat, maskK: bv32, maskA: bv32)

  /** A list of ciphers; flag `i` says that cipher `i` is not the last of its group. */
  datatype Preference = Preference(ciphers: seq<Cipher>, inGroup: seq<bool>)

  predicate Usable(cfg: Config, c: Cipher)
  {
    c.minVersion <= cfg.version <= c.maxVersion && c.mkey & cfg.maskK != 0 && c.auth & cfg.maskA != 0
  }

  predicate Acceptable(cfg: Config, prio: seq<Cipher>, allow: seq<Cipher>, i: nat)
    requires i < |prio|
  {
    Usable(cfg, prio[i]) && prio[i] in allow
  }

  /** The place of a cipher in a list. */
  function Rank(list: seq<Cipher>, c: Cipher): (r: nat)
    requires c in list
    ensures r < |list| && list[r] == c && c !in list[..r]
  {
    if list[0] == c then 0 else 1 + Rank(list[1..], c)
  }

  /** A group ends at or after `i` and before `j`. */
  ghost predicate Divided(inGroup: seq<bool>, i: nat, j: nat)
    requires j <= |inGroup|
  {
    exists k :: i <= k < j && !inGroup[k]
  }

  /** The choice: from the first group that has an acceptable cipher, the one `allow` ranks highest. A
      group that the flags never end is not looked at. */
  ghost predicate Chosen(cfg: Config, prio: seq<Cipher>, inGroup: seq<bool>, allow: seq<Cipher>, r: Option<Cipher>)
    requires |inGroup| == |prio|
  {
    match r
    case None => forall i :: 0 <= i < |prio| && Acceptable(cfg, prio, allow, i) ==> !Divided(inGroup, i, |prio|)
    case Some(c) => exists i :: 0 <= i < |prio| && prio[i] == c && Best(cfg, prio, inGroup, allow, i)
  }

  ghost predicate Best(cfg: Config, prio: seq<Cipher>, inGroup: seq<bool>, allow: seq<Cipher>, i: nat)
    requires |inGroup| == |prio| && i < |prio|
  {
    && Acceptable(cfg, prio, allow, i) && Divided(inGroup, i, |prio|)
    && forall j :: 0 <= j < |prio| && Acceptable(cfg, prio, allow, j) ==>
         && !Divided(inGroup, j, i)
         && (Divided(inGroup, i, j) || Rank(allow, prio[i]) <= Rank(allow, prio[j]))
  }

  /** The choice is determined. */
  lemma {:induction false} ChosenOnce(cfg: Config, prio: seq<Cipher>, inGroup: seq<bool>, allow: seq<Cipher>,
      r: Option<Cipher>, q: Option<Cipher>)
    requires |inGroup| == |prio| && Chosen(cfg, prio, inGroup, allow, r) && Chosen(cfg, prio, inGroup, allow, q)
    ensures r == q
  {
    if r.Some? && q.Some? {
      var i :| 0 <= i < |prio| && prio[i] == r.value && Best(cfg, prio, inGroup, allow, i);
      var j :| 0 <= j < |prio| && prio[j] == q.value && Best(cfg, prio, inGroup, allow, j);
      assert Rank(allow, prio[i]) == Rank(allow, prio[j]);
    }
  }

  /** With flags that end the last group, as they are meant to, there is no choice exactly when no
      cipher is acceptable. */
  lemma {:induction false} NoneExactly(cfg: Config, prio: seq<Cipher>, inGroup: seq<bool>, allow: seq<Cipher>,
      r: Option<Cipher>)
    requires |inGroup| == |prio| && (prio != [] ==> !inGroup[|prio| - 1]) && Chosen(cfg, prio, inGroup, allow, r)
    ensures r.None? <==> forall i :: 0 <= i < |prio| ==> !Acceptable(cfg, prio, allow, i)
  {
    forall i | 0 <= i < |prio| ensures Divided(inGroup, i, |prio|) {
      assert !inGroup[|prio| - 1];
    }
  }

  /** With no groups the choice is the first acceptable cipher, and nothing else is. */
  lemma {:induction false} WithoutGroups(cfg: Config, prio: seq<Cipher>, inGroup: seq<bool>, allow: seq<Cipher>,
      r: Option<Cipher>)
    requires |inGroup| == |prio| && forall k :: 0 <= k < |prio| ==> !inGroup[k]
    ensures Chosen(cfg, prio, inGroup, allow, r) <==>
              match r
              case None => forall i :: 0 <= i < |prio| ==> !Acceptable(cfg, prio, allow, i)
              case Some(c) => exists i :: 0 <= i < |prio| && prio[i] == c && FirstAcceptable(cfg, prio, allow, i)
  {
    forall i, j | 0 <= i <= |prio| && 0 <= j <= |prio| ensures Divided(inGroup, i, j) <==> i < j {
      assert i < j ==> !inGroup[i];
    }
    forall i | 0 <= i < |prio| ensures Best(cfg, prio, inGroup, allow, i) <==> FirstAcceptable(cfg, prio, allow, i) {
    }
  }

  predicate FirstAcceptable(cfg: Config, prio: seq<Cipher>, allow: seq<Cipher>, i: nat)
    requires i < |prio|
  {
    Acceptable(cfg, prio, allow, i) && forall j :: 0 <= j < i ==> !Acceptable(cfg, prio, allow, j)
  }

  /** sk_SSL_CIPHER_find. */
  method Find(list: seq<Cipher>, c: Cipher) returns (index: Option<nat>)
    ensures index.Some? <==> c in list
    ensures index.Some? ==> index.value == Rank(list, c)
  {
    for k := 0 to |list|
      invariant c !in list[..k]
    {
      if list[k] == c {
        RankIs(list, c, k);
        return Some(k);
      }
    }
    return None;
  }

  lemma {:induction false} RankIs(list: seq<Cipher>, c: Cipher, k: nat)
    requires k < |list| && list[k] == c && c !in list[..k]
    ensures Rank(list, c) == k
  {
    if k > 0 {
      assert list[..k][0] == list[0];
      assert forall x :: x in list[1..][..k - 1] ==> x in list[..k];
      RankIs(list[1..], c, k - 1);
    }
  }

  /** The best rank among the acceptable ciphers before `i`. */
  ghost predicate MinRank(cfg: Config, prio: seq<Cipher>, allow: seq<Cipher>, i: nat, min: Option<nat>)
    requires i <= |prio|
  {
    && (min.None? <==> forall j :: 0 <= j < i ==> !Acceptable(cfg, prio, allow, j))
    && (min.Some? ==>
          && (exists j :: 0 <= j < i && Acceptable(cfg, prio, allow, j) && Rank(allow, prio[j]) == min.value)
          && forall j :: 0 <= j < i && Acceptable(cfg, prio, allow, j) ==> min.value <= Rank(allow, prio[j]))
  }

  ghost predicate OneGroup(cfg: Config, prio: seq<Cipher>, inGroup: seq<bool>, allow: seq<Cipher>, i: nat)
    requires |inGroup| == |prio| && i <= |prio|
  {
    forall j :: 0 <= j < i && Acceptable(cfg, prio, allow, j) ==> !Divided(inGroup, j, i)
  }

  /** At the end of a group that has an acceptable cipher, the best of them is the choice. */
  lemma {:induction false} GroupEnds(cfg: Config, prio: seq<Cipher>, inGroup: seq<bool>, allow: seq<Cipher>, i: nat,
      min: nat)
    requires |inGroup| == |prio| && i < |prio| && !inGroup[i] && OneGroup(cfg, prio, inGroup, allow, i)
    requires MinRank(cfg, prio, allow, i + 1, Some(min))
    ensures min < |allow| && Chosen(cfg, prio, inGroup, allow, Some(allow[min]))
  {
    var b :| 0 <= b < i + 1 && Acceptable(cfg, prio, allow, b) && Rank(allow, prio[b]) == min;
    forall j | 0 <= j < |prio| && Acceptable(cfg, prio, allow, j)
      ensures !Divided(inGroup, j, b) && (Divided(inGroup, b, j) || min <= Rank(allow, prio[j]))
    {
      if j <= i {
        assert j < i ==> !Divided(inGroup, j, i);
      } else {
        assert b <= i < j && !inGroup[i];
      }
    }
    assert b <= i < |prio| && !inGroup[i];
    assert Best(cfg, prio, inGroup, allow, b);
  }

  lemma {:induction false} MinAdd(cfg: Config, prio: seq<Cipher>, allow: seq<Cipher>, i: nat, min: Option<nat>)
    requires i < |prio| && MinRank(cfg, prio, allow, i, min) && Acceptable(cfg, prio, allow, i)
    ensures var rank := Rank(allow, prio[i]);
            MinRank(cfg, prio, allow, i + 1, Some(if min.None? || min.value > rank then rank else min.value))
  {
    hide Rank, Usable;
  }

  lemma {:induction false} MinSkip(cfg: Config, prio: seq<Cipher>, allow: seq<Cipher>, i: nat, min: Option<nat>)
    requires i < |prio| && MinRank(cfg, prio, allow, i, min) && !Acceptable(cfg, prio, allow, i)
    ensures MinRank(cfg, prio, allow, i + 1, min)
  {
    hide Rank, Usable;
  }

  lemma {:induction false} MinStart(cfg: Config, prio: seq<Cipher>, inGroup: seq<bool>, allow: seq<Cipher>)
    requires |inGroup| == |prio|
    ensures MinRank(cfg, prio, allow, 0, None) && OneGroup(cfg, prio, inGroup, allow, 0)
  {
  }

  /** The group goes on, or nothing acceptable has been seen. */
  lemma {:induction false} GroupGoesOn(cfg: Config, prio: seq<Cipher>, inGroup: seq<bool>, allow: seq<Cipher>, i: nat,
      min: Option<nat>)
    requires |inGroup| == |prio| && i < |prio| && OneGroup(cfg, prio, inGroup, allow, i)
    requires MinRank(cfg, prio, allow, i + 1, min) && (inGroup[i] || min.None?)
    ensures OneGroup(cfg, prio, inGroup, allow, i + 1)
  {
  }

  /** The loop of ssl3_choose_cipher; without groups, `inGroup` is None. */
  method Scan(cfg: Config, prio: seq<Cipher>, inGroup: Option<seq<bool>>, allow: seq<Cipher>)
    returns (r: Option<Cipher>)
    requires inGroup.Some? ==> |inGroup.value| == |prio|
    ensures Chosen(cfg, prio, if inGroup.Some? then inGroup.value else seq(|prio|, _ => false), allow, r)
  {
    hide MinRank, OneGroup, Chosen, Rank, Usable;
    ghost var flags := if inGroup.Some? then inGroup.value else seq(|prio|, _ => false);
    var groupMin: Option<nat> := None;
    MinStart(cfg, prio, flags, allow);
    for i := 0 to |prio|
      invariant MinRank(cfg, prio, allow, i, groupMin) && OneGroup(cfg, prio, flags, allow, i)
      invariant inGroup.None? ==> groupMin.None?
    {
      var c := prio[i];
      var found: Option<nat> := None;
      if Usable(cfg, c) {
        found := Find(allow, c);
      }
      if found.Some? {
        MinAdd(cfg, prio, allow, i, groupMin);
        var index := found.value;
        if inGroup.Some? && inGroup.value[i] {
          if groupMin.None? || groupMin.value > index {
            groupMin := Some(index);
          }
        } else {
          if groupMin.Some? && groupMin.value < index {
            index := groupMin.value;
          }
          GroupEnds(cfg, prio, flags, allow, i, index);
          return Some(allow[index]);
        }
      } else {
        MinSkip(cfg, prio, allow, i, groupMin);
      }
      if inGroup.Some? && !inGroup.value[i] && groupMin.Some? {
        GroupEnds(cfg, prio, flags, allow, i, groupMin.value);
        return Some(allow[groupMin.value]);
      }
      GroupGoesOn(cfg, prio, flags, allow, i, groupMin);
    }
    NothingChosen(cfg, prio, flags, allow);
    return None;
  }

  lemma {:induction false} NothingChosen(cfg: Config, prio: seq<Cipher>, inGroup: seq<bool>, allow: seq<Cipher>)
    requires |inGroup| == |prio| && OneGroup(cfg, prio, inGroup, allow, |prio|)
    ensures Chosen(cfg, prio, inGroup, allow, None)
  {
  }

  /** ssl3_choose_cipher, given the parsed list of the client: by the server's groups and then the
      client's order, or by the client's order alone. */
  method ChooseCipher(cfg: Config, client: Option<seq<Cipher>>, server: Preference, serverPreference: bool)
    returns (r: Option<Cipher>)
    requires |server.inGroup| == |server.ciphers|
    ensures client.None? ==> r.None?
    ensures client.Some? && serverPreference ==> Chosen(cfg, server.ciphers, server.inGroup, client.value, r)
    ensures client.Some? && !serverPreference ==>
              Chosen(cfg, client.value, seq(|client.value|, _ => false), server.ciphers, r)
  {
    if client.None? {
      return None;
    }
    if serverPreference {
      r := Scan(cfg, server.ciphers, Some(server.inGroup), client.value);
    } else {
      r := Scan(cfg, client.value, None, server.ciphers);
    }
  }
}
