/** The bit set in which pb_decode_noinit remembers the required fields it has met: two
    32-bit words, each taken as the set of its one bits. */
module PbRequired {
  import opened PbWire
  import opened PbSchema

  type Word = s: set<nat> | forall b :: b in s ==> b < 32 witness {}

  const PB_MAX_REQUIRED_FIELDS: nat := 64

  const ALL_BITS: Word := set b: nat | b < 32

  /** `allbits >> n`, which C leaves undefined from 32 on. */
  function AllBitsShifted(n: nat): Word
    requires n < 32
  {
    set b | b in ALL_BITS && b < 32 - n
  }

  /** The words hold exactly the indices below 64 of `seen`. */
  ghost predicate Holds(words: seq<Word>, seen: set<nat>)
  {
    |words| == 2 && forall n :: 0 <= n < PB_MAX_REQUIRED_FIELDS ==> (n % 32 in words[n / 32] <==> n in seen)
  }

  /** The check after the loop: None where the C is undefined, by a shift of 32 or by reading
      past the second word. */
  function Check(words: seq<Word>, count: nat): Option<bool>
    requires |words| == 2
  {
    if count == 0 then Some(true)
    else match WholeWords(words, 0, count / 32)
         case None => None
         case Some(false) => Some(false)
         case Some(true) =>
           if count / 32 >= 2 || count % 32 == 0 then None
           else Some(words[count / 32] == AllBitsShifted(32 - count % 32))
  }

  function WholeWords(words: seq<Word>, i: nat, n: nat): Option<bool>
    requires |words| == 2
    decreases n - i
  {
    if i >= n then Some(true)
    else if i >= 2 then None
    else if words[i] != ALL_BITS then Some(false)
    else WholeWords(words, i + 1, n)
  }

  /** The counts of required fields for which the check is always defined. */
  predicate Admitted(count: nat)
  {
    count == 0 || (count < PB_MAX_REQUIRED_FIELDS && count % 32 != 0)
  }

  /** Tables on which the final check of required fields is defined by C, at every depth. */
  ghost predicate Runnable(t: Table)
    decreases t
  {
    WellFormed(t) && Admitted(ReqIndex(t, |t|)) && forall i :: 0 <= i < |t| ==> RunnableField(t[i])
  }

  ghost predicate RunnableField(f: Field)
    decreases f
  {
    f.ltype.Submessage? ==> Runnable(f.ltype.fields)
  }

  lemma {:induction false} FullWord(words: seq<Word>, seen: set<nat>, i: nat)
    requires Holds(words, seen) && i < 2
    ensures words[i] == ALL_BITS <==> forall n :: 32 * i <= n < 32 * i + 32 ==> n in seen
  {
    forall n | 32 * i <= n < 32 * i + 32 ensures n % 32 in words[i] <==> n in seen {
      assert n / 32 == i;
    }
    if forall n :: 32 * i <= n < 32 * i + 32 ==> n in seen {
      forall b: nat | b < 32 ensures b in words[i] {
        assert (32 * i + b) % 32 == b;
      }
    }
    if words[i] == ALL_BITS {
      forall n | 32 * i <= n < 32 * i + 32 ensures n in seen {
        assert n % 32 in ALL_BITS;
      }
    }
  }

  lemma {:induction false} PartialWord(words: seq<Word>, seen: set<nat>, count: nat)
    requires Holds(words, seen) && count < PB_MAX_REQUIRED_FIELDS && count % 32 != 0
    requires forall n :: n in seen ==> n < count
    ensures words[count / 32] == AllBitsShifted(32 - count % 32)
       <==> forall n :: 32 * (count / 32) <= n < count ==> n in seen
  {
    var i := count / 32;
    var mask := AllBitsShifted(32 - count % 32);
    if forall n :: 32 * i <= n < count ==> n in seen {
      forall b: nat | b < 32 ensures b in words[i] <==> b in mask {
        assert (32 * i + b) % 32 == b && (32 * i + b) / 32 == i;
      }
      assert words[i] == mask;
    }
    if words[i] == mask {
      forall n | 32 * i <= n < count ensures n in seen {
        assert n / 32 == i && n % 32 in mask;
      }
    }
  }

  /** For an admitted count the check is defined and passes exactly when every required field
      was met. For any other it is undefined exactly when nothing is missing from the whole
      words it gets to look at. */
  lemma {:induction false} CheckIsAllSeen(words: seq<Word>, seen: set<nat>, count: nat)
    requires Holds(words, seen) && forall n :: n in seen ==> n < count
    ensures Admitted(count) ==> Check(words, count) == Some(forall n :: 0 <= n < count ==> n in seen)
    ensures !Admitted(count) ==>
              (Check(words, count).None? <==> forall n :: 0 <= n < 64 && n < 32 * (count / 32) ==> n in seen)
  {
    FullWord(words, seen, 0);
    FullWord(words, seen, 1);
    if Admitted(count) && count != 0 {
      PartialWord(words, seen, count);
      assert WholeWords(words, 0, count / 32) == Some(count / 32 == 1 ==> words[0] == ALL_BITS);
    } else if count != 0 {
      var k := count / 32;
      assert k >= 1;
      assert WholeWords(words, 2, k) == if k > 2 then None else Some(true);
      assert WholeWords(words, 1, k) ==
        if k <= 1 then Some(true) else if words[1] != ALL_BITS then Some(false) else WholeWords(words, 2, k);
    }
  }

  /** A message type with 32 required fields, all present, is such a case. */
  lemma {:induction false} ThirtyTwoRequired()
    ensures Check([ALL_BITS, {}], 32).None?
  {
    assert WholeWords([ALL_BITS, {}], 1, 1) == Some(true);
  }
}
