/** The final acceptance test of the decoder: the bit words that record which required
    fields were seen, against the set of those fields. */
module RequiredFields {
  import opened Bits
  import opened Wire
  import opened Schema
  import opened Decoding

  const ALL_BITS: nat := 0xFFFF_FFFF

  /** The required field that bit b of word w stands for was seen. */
  ghost predicate Recorded(fs: Fields, seen: set<nat>, w: nat, b: nat) {
    exists i | 0 <= i < |fs| :: Tracked(fs, i) && RequiredBefore(fs, i) == 32 * w + b && i in seen
  }

  ghost predicate WordOk(fs: Fields, word: nat, w: nat, seen: set<nat>) {
    word < TWO32 && forall b: nat | b < 32 :: Bit(word, b) == 1 <==> Recorded(fs, seen, w, b)
  }

  /** Each bit of the two words is set exactly if its required field was seen. */
  ghost predicate Words(fs: Fields, w0: nat, w1: nat, seen: set<nat>) {
    WordOk(fs, w0, 0, seen) && WordOk(fs, w1, 1, seen)
  }

  lemma NoneRecorded(fs: Fields)
    ensures Words(fs, 0, 0, {})
  {
    forall r: nat
      ensures Bit(0, r) == 0
    {
      BitOfZero(r);
    }
  }

  lemma {:induction false} RequiredBeforeMono(fs: Fields, i: nat, j: nat)
    requires i < j <= |fs| && fs[i].htype.Required?
    ensures RequiredBefore(fs, i) < RequiredBefore(fs, j)
    decreases j
  {
    if i + 1 < j {
      RequiredBeforeMono(fs, i, j - 1);
    }
  }

  lemma SameRank(fs: Fields, i: nat, j: nat)
    requires i < |fs| && j < |fs| && fs[i].htype.Required? && fs[j].htype.Required?
    requires RequiredBefore(fs, i) == RequiredBefore(fs, j)
    ensures i == j
  {
    if i < j {
      RequiredBeforeMono(fs, i, j);
    } else if j < i {
      RequiredBeforeMono(fs, j, i);
    }
  }

  lemma {:induction false} NthRequired(fs: Fields, n: nat, r: nat) returns (i: nat)
    requires n <= |fs| && r < RequiredBefore(fs, n)
    ensures i < n && fs[i].htype.Required? && RequiredBefore(fs, i) == r
  {
    if r == RequiredBefore(fs, n - 1) {
      i := n - 1;
    } else {
      i := NthRequired(fs, n - 1, r);
    }
  }

  lemma RecordOne(fs: Fields, seen: set<nat>, i: nat, w: nat, b: nat)
    requires i < |fs| && Tracked(fs, i)
    ensures Recorded(fs, seen + {i}, w, b) <==> Recorded(fs, seen, w, b) || RequiredBefore(fs, i) == 32 * w + b
  {
    if Recorded(fs, seen + {i}, w, b) {
      var j :| 0 <= j < |fs| && Tracked(fs, j) && RequiredBefore(fs, j) == 32 * w + b && j in seen + {i};
      assert j == i || Recorded(fs, seen, w, b);
    }
    if Recorded(fs, seen, w, b) {
      var j :| 0 <= j < |fs| && Tracked(fs, j) && RequiredBefore(fs, j) == 32 * w + b && j in seen;
      assert j in seen + {i};
    }
    assert i in seen + {i};
  }

  lemma SetBit(w: nat, k: nat, r: nat)
    requires k < 32 && w < TWO32
    ensures Or(w, Pow2(k)) < TWO32
    ensures Bit(Or(w, Pow2(k)), r) == 1 <==> Bit(w, r) == 1 || r == k
  {
    Pow2At32(32);
    assert Pow2(k) < Pow2(32) by {
      Pow2Mono(k + 1, 32);
      assert Pow2(k + 1) == 2 * Pow2(k);
    }
    OrBound(w, Pow2(k), 32);
    OrBit(w, Pow2(k), r);
    BitOfPow2(k, r);
  }

  /** Setting the bit of one more field, or leaving the other word alone. */
  lemma RecordWord(fs: Fields, word: nat, w: nat, seen: set<nat>, i: nat)
    requires WordOk(fs, word, w, seen) && i < |fs| && Tracked(fs, i)
    ensures WordOk(fs, if RequiredBefore(fs, i) / 32 == w then Or(word, Pow2(RequiredBefore(fs, i) % 32)) else word, w, seen + {i})
  {
    hide Bit, Or, Pow2, Recorded;
    var r := RequiredBefore(fs, i);
    var word' := if r / 32 == w then Or(word, Pow2(r % 32)) else word;
    SetBit(word, r % 32, 0);
    forall b: nat | b < 32
      ensures Bit(word', b) == 1 <==> Recorded(fs, seen + {i}, w, b)
    {
      RecordOne(fs, seen, i, w, b);
      SetBit(word, r % 32, b);
    }
  }

  /** The mask of k ones has exactly its k lowest bits set. */
  lemma MaskBits(w: nat, k: nat, r: nat)
    requires w == Pow2(k) - 1 && r < k
    ensures Bit(w, r) == 1
  {
    BitOfMask(k, r);
  }

  /** A word with its k lowest bits set and no others is that mask. */
  lemma WordIsMask(w: nat, k: nat)
    requires w < TWO32 && k <= 32
    requires forall r: nat | r < 32 :: Bit(w, r) == 1 <==> r < k
    ensures w == Pow2(k) - 1
  {
    Pow2At32(32);
    Pow2Mono(k, 32);
    forall r: nat | r < 32
      ensures Bit(w, r) == Bit(Pow2(k) - 1, r)
    {
      BitOfMask(k, r);
      BitIsBinary(w, r);
    }
    BitsExtensional(w, Pow2(k) - 1, 32);
  }

  /** `allbits >> (32 - k)` is that mask. */
  lemma {:induction false} ShiftedMask(k: nat, n: nat)
    ensures Shr(Pow2(k + n) - 1, n) == Pow2(k) - 1
  {
    if n != 0 {
      assert Pow2(k + n) - 1 == 2 * (Pow2(k + (n - 1)) - 1) + 1;
      ShiftedMask(k, n - 1);
    }
  }

  lemma AllBitsShifted(k: nat)
    requires k <= 32
    ensures Shr(ALL_BITS, 32 - k) == Pow2(k) - 1
  {
    hide Shr, Pow2;
    Pow2At32(32);
    ShiftedMask(k, 32 - k);
  }

  /** Number of required fields whose presence the test checks. */
  function TrackedCount(fs: Fields): nat {
    var n := RequiredBefore(fs, |fs|);
    if n > MAX_REQUIRED_FIELDS then MAX_REQUIRED_FIELDS else n
  }

  ghost predicate AllSeen(fs: Fields, seen: set<nat>) {
    forall i | 0 <= i < |fs| :: Tracked(fs, i) ==> i in seen
  }

  lemma AllSeenByRank(fs: Fields, seen: set<nat>)
    ensures AllSeen(fs, seen) <==> forall w: nat, b: nat | b < 32 && 32 * w + b < TrackedCount(fs) :: Recorded(fs, seen, w, b)
    ensures forall w: nat, b: nat | TrackedCount(fs) <= 32 * w + b :: !Recorded(fs, seen, w, b)
  {
    forall i | 0 <= i < |fs| && Tracked(fs, i)
      ensures RequiredBefore(fs, i) < TrackedCount(fs)
      ensures Recorded(fs, seen, RequiredBefore(fs, i) / 32, RequiredBefore(fs, i) % 32) ==> i in seen
    {
      RequiredBeforeMono(fs, i, |fs|);
      if Recorded(fs, seen, RequiredBefore(fs, i) / 32, RequiredBefore(fs, i) % 32) {
        var j :| 0 <= j < |fs| && Tracked(fs, j) && RequiredBefore(fs, j) == RequiredBefore(fs, i) && j in seen;
        SameRank(fs, i, j);
      }
    }
    if AllSeen(fs, seen) {
      forall w: nat, b: nat | b < 32 && 32 * w + b < TrackedCount(fs)
        ensures Recorded(fs, seen, w, b)
      {
        var i := NthRequired(fs, |fs|, 32 * w + b);
        assert Tracked(fs, i);
      }
    }
  }

  /** The test of the whole words and then of the remaining bits. */
  method CheckWords(count: nat, w0: nat, w1: nat, ghost fs: Fields, ghost seen: set<nat>) returns (ok: bool)
    requires Words(fs, w0, w1, seen) && count == TrackedCount(fs)
    ensures ok <==> AllSeen(fs, seen)
  {
    hide Bit, Shr, Recorded, AllSeen;
    AllSeenByRank(fs, seen);
    var words := [w0, w1];
    ok := true;
    if count > 0 {
      var i := 0;
      while i < count / 32
        invariant i <= count / 32
        invariant forall w: nat, b: nat | w < i && b < 32 :: Recorded(fs, seen, w, b)
      {
        WordTest(fs, words[i], i, seen, 32);
        if words[i] != ALL_BITS {
          return false;
        }
        i := i + 1;
      }
      if count % 32 != 0 {
        WordTest(fs, words[count / 32], count / 32, seen, count % 32);
        if words[count / 32] != Shr(ALL_BITS, 32 - count % 32) {
          return false;
        }
      }
    }
  }

  /** Comparing a word with the mask of k ones tests its k lowest bits. */
  lemma WordTest(fs: Fields, word: nat, w: nat, seen: set<nat>, k: nat)
    requires WordOk(fs, word, w, seen) && k <= 32
    requires forall b: nat | k <= b < 32 :: !Recorded(fs, seen, w, b)
    ensures word == Shr(ALL_BITS, 32 - k) <==> forall b: nat | b < k :: Recorded(fs, seen, w, b)
    ensures k == 32 ==> Shr(ALL_BITS, 32 - k) == ALL_BITS
  {
    AllBitsShifted(k);
    if word == Pow2(k) - 1 {
      forall b: nat | b < k
        ensures Recorded(fs, seen, w, b)
      {
        MaskBits(word, k, b);
      }
    } else if forall b: nat | b < k :: Recorded(fs, seen, w, b) {
      forall r: nat | r < 32
        ensures Bit(word, r) == 1 <==> r < k
      {
        assert Recorded(fs, seen, w, r) <==> r < k;
      }
      WordIsMask(word, k);
    }
  }
}
