/** Arbitrary-precision addition: word arithmetic with carries on three kinds of storage
    refines integer addition. */
module BigNumbers {
  type Word = x: int | 0 <= x < 0x1_0000_0000_0000_0000
  type Words = seq<Word>

  // ----- what the words mean -----

  /** The integer, least significant word first. */
  function Value(ws: Words): nat {
    if ws == [] then 0 else ws[0] + 0x1_0000_0000_0000_0000 * Value(ws[1..])
  }

  /** v moved up by n words. */
  function Shifted(v: nat, n: nat): nat {
    if n == 0 then v else 0x1_0000_0000_0000_0000 * Shifted(v, n - 1)
  }

  /** The digit at an index, zero past the end. */
  function At(ws: Words, i: nat): Word {
    if i < |ws| then ws[i] else 0
  }

  /** The words from an index on. */
  function From(ws: Words, i: nat): Words {
    if i < |ws| then ws[i..] else []
  }

  predicate Normal(ws: Words) {
    ws == [] || ws[|ws| - 1] != 0
  }

  function Trim(ws: Words): (r: Words)
    ensures Normal(r) && |r| <= |ws|
  {
    if Normal(ws) then ws else Trim(ws[..|ws| - 1])
  }

  lemma {:induction false} TrimAt(ws: Words, i: nat)
    ensures At(Trim(ws), i) == At(ws, i)
  {
    if !Normal(ws) {
      TrimAt(ws[..|ws| - 1], i);
    }
  }

  function Zeros(n: nat): (r: Words)
    ensures |r| == n && forall i | 0 <= i < n :: r[i] == 0
  {
    seq(n, i => 0)
  }

  /** The digits after setting one: extended with zeros, or without leading zeros. */
  function Put(ws: Words, i: nat, w: Word): Words {
    if i < |ws| then Trim(ws[i := w])
    else if w == 0 then ws
    else ws + Zeros(i - |ws|) + [w]
  }

  lemma PutAt(ws: Words, i: nat, w: Word)
    requires Normal(ws)
    ensures Normal(Put(ws, i, w))
    ensures At(Put(ws, i, w), i) == w
    ensures forall j: nat | j != i :: At(Put(ws, i, w), j) == At(ws, j)
    ensures |Put(ws, i, w)| <= (if i < |ws| then |ws| else i + 1)
  {
    if i < |ws| {
      forall j: nat ensures At(Put(ws, i, w), j) == At(ws[i := w], j) { TrimAt(ws[i := w], j); }
    }
  }

  lemma {:induction false} ShiftedSum(a: nat, b: nat, n: nat)
    ensures Shifted(a + b, n) == Shifted(a, n) + Shifted(b, n)
  {
    if n > 0 {
      ShiftedSum(a, b, n - 1);
    }
  }

  lemma {:induction false} ShiftedWord(a: nat, n: nat)
    ensures Shifted(0x1_0000_0000_0000_0000 * a, n) == Shifted(a, n + 1)
  {
    if n > 0 {
      ShiftedWord(a, n - 1);
    }
  }

  lemma {:induction false} ShiftedZero(n: nat)
    ensures Shifted(0, n) == 0
  {
    if n > 0 {
      ShiftedZero(n - 1);
    }
  }

  lemma {:induction false} ShiftedMonotone(a: nat, b: nat, n: nat)
    requires a <= b
    ensures Shifted(a, n) <= Shifted(b, n)
    ensures a < b ==> Shifted(a, n) < Shifted(b, n)
  {
    if n > 0 {
      ShiftedMonotone(a, b, n - 1);
    }
  }

  lemma {:induction false} ShiftedTwice(a: nat, m: nat, n: nat)
    ensures Shifted(Shifted(a, m), n) == Shifted(a, m + n)
  {
    if n > 0 {
      ShiftedTwice(a, m, n - 1);
    }
  }

  /** The value depends on the digits alone. */
  lemma {:induction false} SameDigits(a: Words, b: Words)
    requires forall i: nat :: At(a, i) == At(b, i)
    ensures Value(a) == Value(b)
    decreases |a| + |b|
  {
    if a != [] || b != [] {
      var a', b' := From(a, 1), From(b, 1);
      forall i: nat ensures At(a', i) == At(b', i) {
        assert At(a, i + 1) == At(b, i + 1);
      }
      SameDigits(a', b');
      assert At(a, 0) == At(b, 0);
    }
  }

  lemma TrimValue(ws: Words)
    ensures Value(Trim(ws)) == Value(ws)
  {
    var t := Trim(ws);
    forall j: nat ensures At(t, j) == At(ws, j) { TrimAt(ws, j); }
    SameDigits(t, ws);
  }

  lemma {:induction false} UpdateValue(ws: Words, i: nat, w: Word)
    requires i < |ws|
    ensures Value(ws[i := w]) + Shifted(ws[i], i) == Value(ws) + Shifted(w, i)
  {
    if i > 0 {
      assert ws[i := w][1..] == ws[1..][i - 1 := w];
      UpdateValue(ws[1..], i - 1, w);
    }
  }

  lemma {:induction false} ExtendValue(ws: Words, n: nat, w: Word)
    ensures Value(ws + Zeros(n) + [w]) == Value(ws) + Shifted(w, |ws| + n)
  {
    var r := ws + Zeros(n) + [w];
    if |ws| > 0 {
      assert r[1..] == ws[1..] + Zeros(n) + [w];
      ExtendValue(ws[1..], n, w);
    } else if n > 0 {
      assert r[1..] == [] + Zeros(n - 1) + [w];
      ExtendValue([], n - 1, w);
    } else {
      assert r == [w] && r[1..] == [];
    }
  }

  /** Setting one digit changes the value by exactly that digit. */
  lemma PutValue(ws: Words, i: nat, w: Word)
    ensures Value(Put(ws, i, w)) + Shifted(At(ws, i), i) == Value(ws) + Shifted(w, i)
  {
    if i < |ws| {
      UpdateValue(ws, i, w);
      TrimValue(ws[i := w]);
    } else {
      ShiftedZero(i);
      ExtendValue(ws, i - |ws|, w);
    }
  }

  /** Splitting the lowest of the remaining words off. */
  lemma FromValue(ws: Words, i: nat)
    ensures Value(From(ws, i)) == At(ws, i) + 0x1_0000_0000_0000_0000 * Value(From(ws, i + 1))
  {
    if i < |ws| {
      assert ws[i..][1..] == From(ws, i + 1);
    }
  }

  lemma {:induction false} ValueBelow(ws: Words, n: nat)
    requires |ws| <= n
    ensures Value(ws) < Shifted(1, n)
  {
    if ws == [] {
      ShiftedMonotone(0, 1, n);
      ShiftedZero(n);
    } else {
      ValueBelow(ws[1..], n - 1);
    }
  }

  lemma {:induction false} ValueAbove(ws: Words)
    requires Normal(ws) && ws != []
    ensures Value(ws) >= Shifted(1, |ws| - 1)
  {
    if |ws| > 1 {
      ValueAbove(ws[1..]);
    }
  }

  lemma ValuePositive(ws: Words)
    requires Normal(ws)
    ensures ws != [] <==> Value(ws) > 0
  {
    if ws != [] {
      ValueAbove(ws);
      ShiftedMonotone(0, 1, |ws| - 1);
      ShiftedZero(|ws| - 1);
    }
  }

  /** Equal integers have equal normal digits. */
  lemma {:induction false} Canonical(a: Words, b: Words)
    requires Normal(a) && Normal(b) && Value(a) == Value(b)
    ensures a == b
  {
    if a == [] {
      ValuePositive(b);
    } else if b == [] {
      ValuePositive(a);
    } else {
      assert a[0] == Value(a) % 0x1_0000_0000_0000_0000 == b[0];
      Canonical(a[1..], b[1..]);
      assert a == [a[0]] + a[1..] && b == [b[0]] + b[1..];
    }
  }

  /** The highest differing digit decides the order. */
  lemma {:induction false} HighestDigitDecides(a: Words, b: Words, i: nat)
    requires |a| == |b| && i < |a| && a[i] < b[i]
    requires forall k | i < k < |a| :: a[k] == b[k]
    ensures Value(a) < Value(b)
  {
    if i == 0 {
      assert a[1..] == b[1..];
    } else {
      HighestDigitDecides(a[1..], b[1..], i - 1);
    }
  }

  // ----- word arithmetic -----

  function AddingReportingOverflow(a: Word, b: Word): (r: (Word, bool)) {
    if a + b < 0x1_0000_0000_0000_0000 then (a + b, false) else (a + b - 0x1_0000_0000_0000_0000, true)
  }

  function SubtractingReportingOverflow(a: Word, b: Word): (r: (Word, bool)) {
    if b <= a then (a - b, false) else (a - b + 0x1_0000_0000_0000_0000, true)
  }

  function Bit(b: bool): Word {
    if b then 1 else 0
  }

  /** One digit of a sum and the carry out of it. */
  function DigitSum(a: Word, b: Word, carry: bool): (Word, bool) {
    var (d, c) := AddingReportingOverflow(a, b);
    if carry then
      var (d2, c2) := AddingReportingOverflow(d, 1);
      (d2, c || c2)
    else
      (d, c)
  }

  function DigitDifference(a: Word, b: Word, carry: bool): (Word, bool) {
    var (d, c) := SubtractingReportingOverflow(a, b);
    if carry then
      var (d2, c2) := SubtractingReportingOverflow(d, 1);
      (d2, c || c2)
    else
      (d, c)
  }

  /** The digits and the carry after one turn of the adding loop. */
  function DigitAdded(ws: Words, at: nat, other: Word, carry: bool): (Words, bool) {
    var (d, carry') := DigitSum(At(ws, at), other, carry);
    (Put(ws, at, d), carry')
  }

  function DigitSubtracted(ws: Words, at: nat, other: Word, carry: bool): (Words, bool) {
    var (d, carry') := DigitDifference(At(ws, at), other, carry);
    (Put(ws, at, d), carry')
  }

  /** At most one of the two additions overflows, and the digit and the carry out are
      together the sum. */
  lemma CarriesNeverBoth(a: Word, b: Word, carry: bool)
    ensures var (d, carry') := DigitSum(a, b, carry);
            d + 0x1_0000_0000_0000_0000 * Bit(carry') == a + b + Bit(carry)
    ensures var (d, c) := AddingReportingOverflow(a, b);
            !(c && AddingReportingOverflow(d, 1).1)
  {
  }

  lemma BorrowsNeverBoth(a: Word, b: Word, carry: bool)
    ensures var (d, carry') := DigitDifference(a, b, carry);
            d + b + Bit(carry) == a + 0x1_0000_0000_0000_0000 * Bit(carry')
    ensures var (d, c) := SubtractingReportingOverflow(a, b);
            !(c && SubtractingReportingOverflow(d, 1).1)
  {
  }

  /** One turn of the adding loop: the digits plus what is left to add stay the same. */
  lemma AddDigit(ws: Words, at: nat, b: Words, bi: nat, carry: bool, d: Word, carry': bool)
    requires At(ws, at) + At(b, bi) + Bit(carry) == d + 0x1_0000_0000_0000_0000 * Bit(carry')
    ensures Value(Put(ws, at, d)) + Shifted(Bit(carry') + Value(From(b, bi + 1)), at + 1)
            == Value(ws) + Shifted(Bit(carry) + Value(From(b, bi)), at)
  {
    hide Value, Shifted, Put, At, From;
    var rest := Bit(carry') + Value(From(b, bi + 1));
    PutValue(ws, at, d);
    FromValue(b, bi);
    ShiftedWord(rest, at);
    ShiftedSum(d, 0x1_0000_0000_0000_0000 * rest, at);
    ShiftedSum(At(ws, at), Bit(carry) + Value(From(b, bi)), at);
  }

  /** One turn of the subtracting loop: the digits plus what was taken off, less the
      borrow, stay the same. */
  lemma SubtractDigit(ws: Words, at: nat, b: Words, bi: nat, carry: bool, d: Word, carry': bool)
    requires d + At(b, bi) + Bit(carry) == At(ws, at) + 0x1_0000_0000_0000_0000 * Bit(carry')
    ensures Value(Put(ws, at, d)) + Shifted(Bit(carry) + Value(From(b, bi)), at)
            == Value(ws) + Shifted(Bit(carry') + Value(From(b, bi + 1)), at + 1)
  {
    hide Value, Shifted, Put, At, From;
    var rest := Bit(carry') + Value(From(b, bi + 1));
    PutValue(ws, at, d);
    FromValue(b, bi);
    ShiftedWord(rest, at);
    ShiftedSum(At(ws, at), 0x1_0000_0000_0000_0000 * rest, at);
    ShiftedSum(d, Bit(carry) + Value(From(b, bi)), at);
  }

  /** One turn of the single-word loop. */
  lemma WordStep(ws: Words, i: nat, carry: Word, d: Word, c: bool)
    requires At(ws, i) + carry == d + 0x1_0000_0000_0000_0000 * Bit(c)
    ensures Value(Put(ws, i, d)) + Shifted(Bit(c), i + 1) == Value(ws) + Shifted(carry, i)
  {
    PutValue(ws, i, d);
    ShiftedWord(Bit(c), i);
    ShiftedSum(d, 0x1_0000_0000_0000_0000 * Bit(c), i);
    ShiftedSum(At(ws, i), carry, i);
  }

  /** The single-word loop at word i. */
  ghost predicate AddingWord(ws: Words, was: Words, word: Word, shift: nat, i: nat, carry: Word) {
    && shift <= i
    && Value(ws) + Shifted(carry, i) == Value(was) + Shifted(word, shift)
    && (forall j: nat | j < shift || i <= j :: At(ws, j) == At(was, j))
    && (carry > 0 ==> i == shift || i <= |was|)
  }

  ghost function WordTurnsLeft(was: Words, i: nat, carry: Word): nat {
    Bit(carry > 0) + (if i < |was| then |was| - i else 0)
  }

  lemma WordTurns(ws: Words, was: Words, word: Word, shift: nat, i: nat, carry: Word, d: Word, c: bool)
    requires Normal(ws) && AddingWord(ws, was, word, shift, i, carry) && carry > 0
    requires (d, c) == AddingReportingOverflow(At(ws, i), carry)
    ensures AddingWord(Put(ws, i, d), was, word, shift, i + 1, Bit(c))
    ensures WordTurnsLeft(was, i + 1, Bit(c)) < WordTurnsLeft(was, i, carry)
  {
    hide Value, Shifted, Put;
    WordStep(ws, i, carry, d, c);
    PutAt(ws, i, d);
  }

  /** The adding loop after bi words: nothing gained or lost, the words below the shift
      and above the loop untouched, a carry only while there are words to take it. */
  ghost predicate Adding(ws: Words, was: Words, b: Words, shift: nat, bi: nat, carry: bool) {
    && Value(ws) + Shifted(Bit(carry) + Value(From(b, bi)), shift + bi) == Value(was) + Shifted(Value(b), shift)
    && (forall j: nat | j < shift || shift + bi <= j :: At(ws, j) == At(was, j))
    && (carry ==> bi <= |b| || shift + bi <= |was|)
  }

  ghost function TurnsLeft(was: Words, b: Words, shift: nat, bi: nat, carry: bool): nat {
    Bit(carry) + (if bi < |b| then |b| - bi else 0) + (if shift + bi < |was| then |was| - (shift + bi) else 0)
  }

  lemma AddingStarts(ws: Words, b: Words, shift: nat)
    ensures Adding(ws, ws, b, shift, 0, false)
  {
    assert From(b, 0) == b;
  }

  lemma AddingTurns(ws: Words, was: Words, b: Words, shift: nat, bi: nat, carry: bool)
    requires Normal(ws) && Adding(ws, was, b, shift, bi, carry) && (bi < |b| || carry)
    ensures var (ws', carry') := DigitAdded(ws, shift + bi, At(b, bi), carry);
            && Adding(ws', was, b, shift, bi + 1, carry')
            && TurnsLeft(was, b, shift, bi + 1, carry') < TurnsLeft(was, b, shift, bi, carry)
  {
    hide Value, Shifted, Put, From;
    var (d, carry') := DigitSum(At(ws, shift + bi), At(b, bi), carry);
    CarriesNeverBoth(At(ws, shift + bi), At(b, bi), carry);
    hide DigitSum;
    AddDigit(ws, shift + bi, b, bi, carry, d, carry');
    PutAt(ws, shift + bi, d);
  }

  lemma AddingEnds(ws: Words, was: Words, b: Words, shift: nat, bi: nat)
    requires |b| <= bi && Adding(ws, was, b, shift, bi, false)
    ensures Value(ws) == Value(was) + Shifted(Value(b), shift)
    ensures forall j: nat | j < shift :: At(ws, j) == At(was, j)
  {
    ShiftedZero(shift + bi);
  }

  /** The subtracting loop after bi words. */
  ghost predicate Subtracting(ws: Words, was: Words, b: Words, shift: nat, bi: nat, carry: bool) {
    && Value(ws) + Shifted(Value(b), shift) == Value(was) + Shifted(Bit(carry) + Value(From(b, bi)), shift + bi)
    && (bi <= |b| || shift + bi <= |was|)
    && |ws| <= Max(|was|, shift + |b|)
  }

  /** What subtraction leaves: the difference, or, reported exactly when b is the larger,
      the complement of the difference. */
  ghost predicate Subtracted(ws: Words, was: Words, b: Words, shift: nat, overflow: bool) {
    && (overflow <==> Value(was) < Shifted(Value(b), shift))
    && Value(ws) + Shifted(Value(b), shift)
       == Value(was) + (if overflow then Shifted(1, Max(|was|, shift + |b|)) else 0)
  }

  lemma SubtractingStarts(ws: Words, b: Words, shift: nat)
    ensures Subtracting(ws, ws, b, shift, 0, false)
  {
    assert From(b, 0) == b;
  }

  lemma SubtractingTurns(ws: Words, was: Words, b: Words, shift: nat, bi: nat, carry: bool)
    requires Normal(ws) && Subtracting(ws, was, b, shift, bi, carry) && (bi < |b| || shift + bi < |was|)
    ensures var (ws', carry') := DigitSubtracted(ws, shift + bi, At(b, bi), carry);
            && Subtracting(ws', was, b, shift, bi + 1, carry')
            && TurnsLeft(was, b, shift, bi + 1, false) < TurnsLeft(was, b, shift, bi, false)
  {
    hide Value, Shifted, Put, From, At;
    var (d, carry') := DigitDifference(At(ws, shift + bi), At(b, bi), carry);
    BorrowsNeverBoth(At(ws, shift + bi), At(b, bi), carry);
    hide DigitDifference;
    SubtractDigit(ws, shift + bi, b, bi, carry, d, carry');
    PutAt(ws, shift + bi, d);
  }

  lemma SubtractingEnds(ws: Words, was: Words, b: Words, shift: nat, bi: nat, carry: bool)
    requires Subtracting(ws, was, b, shift, bi, carry)
    requires |b| <= bi && (|was| <= shift + bi || !carry)
    ensures Subtracted(ws, was, b, shift, carry)
  {
    assert Value(From(b, bi)) == 0;
    hide Value, Shifted, From;
    ShiftedZero(shift + bi);
    if carry {
      assert shift + bi == Max(|was|, shift + |b|);
      ValueBelow(ws, shift + bi);
    }
  }

  // ----- storage -----

  datatype Kind = Inline(low: Word, high: Word) | Slice(from: nat, to: nat) | Array

  datatype Ordering = Ascending | Same | Descending

  class BigUInt {
    var kind: Kind
    var storage: Words

    /** Inline integers own no storage; slices lie inside it and, like arrays, end in a
        digit that is not zero. */
    ghost predicate Valid()
      reads this
    {
      match kind
      case Inline(_, _) => storage == []
      case Slice(from, to) => from < to <= |storage| && storage[to - 1] != 0
      case Array => Normal(storage)
    }

    /** The stored digits, leading zeros included. */
    ghost function Stored(): Words
      reads this
      requires kind.Slice? ==> kind.from <= kind.to <= |storage|
    {
      match kind
      case Inline(low, high) => [low, high]
      case Slice(from, to) => storage[from..to]
      case Array => storage
    }

    /** The digits of the integer. */
    ghost function Digits(): (r: Words)
      requires Valid()
      reads this
      ensures Normal(r)
    {
      Trim(Stored())
    }

    ghost function Int(): nat
      requires Valid()
      reads this
    {
      Value(Digits())
    }

    constructor ()
      ensures Valid() && Digits() == []
    {
      kind, storage := Inline(0, 0), [];
      InlineDigits(0, 0);
    }

    constructor FromWords(words: Words)
      ensures Valid() && Digits() == Trim(words)
    {
      kind, storage := Array, words;
      new;
      Normalize();
    }

    constructor FromSlice(words: Words, startIndex: nat, endIndex: nat)
      requires startIndex <= endIndex <= |words|
      ensures Valid() && Digits() == Trim(words[startIndex..endIndex])
    {
      kind, storage := Slice(startIndex, endIndex), words;
      new;
      Normalize();
    }

    /** A copy, as an assignment makes of a value. */
    constructor Copy(other: BigUInt)
      requires other.Valid()
      ensures Valid() && Digits() == other.Digits()
    {
      kind, storage := other.kind, other.storage;
    }

    function IsZero(): (r: bool)
      requires Valid()
      reads this
      ensures r <==> Int() == 0
    {
      ValuePositive(Digits());
      match kind
      case Inline(low, high) =>
        InlineDigits(low, high);
        low == 0 && high == 0
      case Array => storage == []
      case Slice(_, _) => false
    }

    function Count(): (n: nat)
      requires Valid()
      reads this
      ensures n == |Digits()|
    {
      match kind
      case Inline(low, high) =>
        InlineDigits(low, high);
        if high != 0 then 2 else if low != 0 then 1 else 0
      case Slice(from, to) => to - from
      case Array => |storage|
    }

    function Get(index: nat): (word: Word)
      requires Valid()
      reads this
      ensures word == At(Digits(), index)
    {
      TrimAt(Stored(), index);
      match kind
      case Inline(low, high) => if index == 0 then low else if index == 1 then high else 0
      case Slice(from, to) => if index < to - from then storage[from + index] else 0
      case Array => if index < |storage| then storage[index] else 0
    }

    /** Drops leading zeros, and makes short slices inline. */
    method Normalize()
      requires kind.Slice? ==> kind.from <= kind.to <= |storage|
      requires kind.Inline? ==> storage == []
      modifies this
      ensures Valid() && Digits() == Trim(old(Stored()))
    {
      match kind {
        case Slice(start, end) =>
          NormalizeSlice(start, end);
        case Array =>
          while storage != [] && storage[|storage| - 1] == 0
            invariant kind.Array? && Trim(storage) == Trim(old(storage))
            decreases |storage|
          {
            storage := storage[..|storage| - 1];
          }
        case Inline(_, _) =>
      }
    }

    method NormalizeSlice(start: nat, limit: nat)
      requires kind == Slice(start, limit) && start <= limit <= |storage|
      modifies this
      ensures Valid() && Digits() == Trim(old(Stored()))
    {
      var end := limit;
      while start < end && storage[end - 1] == 0
        invariant start <= end <= limit
        invariant Trim(storage[start..end]) == Trim(storage[start..limit])
      {
        assert storage[start..end][..end - start - 1] == storage[start..end - 1];
        end := end - 1;
      }
      hide Trim;
      if end - start == 0 {
        InlineDigits(0, 0);
        assert Trim([]) == [] by { TrimShort(0); }
        kind, storage := Inline(0, 0), [];
      } else if end - start == 1 {
        InlineDigits(storage[start], 0);
        TrimShort(storage[start]);
        assert storage[start..end] == [storage[start]];
        kind, storage := Inline(storage[start], 0), [];
      } else if end - start == 2 {
        assert storage[start..end] == [storage[start], storage[start + 1]];
        kind, storage := Inline(storage[start], storage[start + 1]), [];
      } else if end - start == |storage| {
        assert storage[start..end] == storage;
        kind := Array;
      } else {
        kind := Slice(start, end);
      }
    }

    method EnsureArray()
      requires Valid()
      modifies this
      ensures Valid() && kind.Array? && Digits() == old(Digits())
    {
      match kind {
        case Inline(w0, w1) =>
          InlineDigits(w0, w1);
          kind := Array;
          storage := if w1 != 0 then [w0, w1] else if w0 != 0 then [w0] else [];
        case Slice(start, end) =>
          kind, storage := Array, storage[start..end];
        case Array =>
      }
    }

    method ReserveCapacity()
      requires Valid()
      modifies this
      ensures Valid() && kind.Array? && Digits() == old(Digits())
    {
      match kind {
        case Inline(w0, w1) =>
          InlineDigits(w0, w1);
          kind := Array;
          if w1 != 0 {
            storage := storage + [w0];
            storage := storage + [w1];
          } else if w0 != 0 {
            storage := storage + [w0];
          }
        case Slice(start, end) =>
          kind, storage := Array, storage[start..end];
        case Array =>
      }
    }

    method Replace(index: nat, word: Word)
      requires Valid() && !kind.Inline? && index < |Digits()|
      modifies this
      ensures Valid() && Digits() == Put(old(Digits()), index, word)
    {
      EnsureArray();
      storage := storage[index := word];
      if word == 0 && index == |storage| - 1 {
        Normalize();
      }
    }

    method Extend(index: nat, word: Word)
      requires Valid() && index >= |Digits()|
      modifies this
      ensures Valid() && Digits() == Put(old(Digits()), index, word)
    {
      if word == 0 {
        return;
      }
      ReserveCapacity();
      storage := storage + Zeros(index - |storage|);
      storage := storage + [word];
    }

    /** The digit setter: any index may be written, on every kind of storage. */
    method Set(index: nat, word: Word)
      requires Valid()
      modifies this
      ensures Valid() && Digits() == Put(old(Digits()), index, word)
    {
      match kind {
        case Inline(w0, w1) =>
          InlineDigits(w0, w1);
          if index == 0 {
            kind := Inline(word, w1);
            InlinePut(w0, w1, word);
          } else if index == 1 {
            kind := Inline(w0, word);
            InlinePut(w0, w1, word);
          } else {
            Extend(index, word);
          }
        case Slice(start, end) =>
          if index < end - start {
            Replace(index, word);
          } else {
            Extend(index, word);
          }
        case Array =>
          if index < |storage| {
            Replace(index, word);
          } else {
            Extend(index, word);
          }
      }
    }

    // ----- addition -----

    method AddWord(word: Word, shift: nat)
      requires Valid()
      modifies this
      ensures Valid() && Int() == old(Int()) + Shifted(word, shift)
      ensures forall j: nat | j < shift :: At(Digits(), j) == old(At(Digits(), j))
    {
      hide Value, Shifted, Put, At, Digits, Valid, Get;
      var carry: Word := word;
      var i := shift;
      ghost var was := Digits();
      while carry > 0
        invariant Valid() && AddingWord(Digits(), was, word, shift, i, carry)
        decreases WordTurnsLeft(was, i, carry)
      {
        var digit := Get(i);
        var (d, c) := AddingReportingOverflow(digit, carry);
        WordTurns(Digits(), was, word, shift, i, carry, d, c);
        Set(i, d);
        carry := if c then 1 else 0;
        i := i + 1;
      }
      ShiftedZero(i);
    }

    /** Adds b, moved up by shift words: the carry loop is integer addition. The argument
        is a copy, as for every value passed to a mutating method. */
    method Add(b: BigUInt, shift: nat)
      requires Valid() && b.Valid() && b != this
      modifies this
      ensures Valid() && Int() == old(Int()) + Shifted(b.Int(), shift)
      ensures forall j: nat | j < shift :: At(Digits(), j) == old(At(Digits(), j))
    {
      hide Adding, Value, Shifted, Trim, Put, From, At, Get, Count, TurnsLeft, Digits, Valid;
      var carry := false;
      var bi := 0;
      var bc := b.Count();
      ghost var was, bs := Digits(), b.Digits();
      AddingStarts(was, bs, shift);
      while bi < bc || carry
        invariant Valid() && b.Valid() && b.Digits() == bs
        invariant Adding(Digits(), was, bs, shift, bi, carry)
        decreases TurnsLeft(was, bs, shift, bi, carry)
      {
        AddingTurns(Digits(), was, bs, shift, bi, carry);
        var ai := shift + bi;
        var (d, c) := AddingReportingOverflow(Get(ai), b.Get(bi));
        if carry {
          var (d2, c2) := AddingReportingOverflow(d, 1);
          Set(ai, d2);
          carry := c || c2;
        } else {
          Set(ai, d);
          carry := c;
        }
        bi := bi + 1;
      }
      AddingEnds(Digits(), was, bs, shift, bi);
    }

    method Sum(b: BigUInt, shift: nat) returns (r: BigUInt)
      requires Valid() && b.Valid()
      ensures fresh(r) && r.Valid() && r.Int() == Int() + Shifted(b.Int(), shift)
    {
      r := new BigUInt.Copy(this);
      r.Add(b, shift);
    }

    method Increment(shift: nat)
      requires Valid()
      modifies this
      ensures Valid() && Int() == old(Int()) + Shifted(1, shift)
    {
      AddWord(1, shift);
    }

    // ----- subtraction and order, as signed addition uses them -----

    /** Subtracts b, moved up by shift words. An overflow is reported exactly when b so
        moved is larger, and the digits are then the complement of the difference. */
    method SubtractReportingOverflow(b: BigUInt, shift: nat) returns (overflow: bool)
      requires Valid() && b.Valid() && b != this
      modifies this
      ensures Valid() && Subtracted(Digits(), old(Digits()), b.Digits(), shift, overflow)
    {
      hide Subtracting, Subtracted, Value, Shifted, Trim, Put, From, At, Get, Count, TurnsLeft, Digits, Valid;
      var carry := false;
      var bi := 0;
      var bc := b.Count();
      var count := Count();
      ghost var was, bs := Digits(), b.Digits();
      SubtractingStarts(was, bs, shift);
      while bi < bc || (shift + bi < count && carry)
        invariant Valid() && b.Valid() && b.Digits() == bs
        invariant Subtracting(Digits(), was, bs, shift, bi, carry)
        decreases TurnsLeft(was, bs, shift, bi, false)
      {
        SubtractingTurns(Digits(), was, bs, shift, bi, carry);
        var ai := shift + bi;
        var (d, c) := SubtractingReportingOverflow(Get(ai), b.Get(bi));
        if carry {
          var (d2, c2) := SubtractingReportingOverflow(d, 1);
          Set(ai, d2);
          carry := c || c2;
        } else {
          Set(ai, d);
          carry := c;
        }
        bi := bi + 1;
      }
      SubtractingEnds(Digits(), was, bs, shift, bi, carry);
      overflow := carry;
    }

    /** The larger number's side of subtraction. */
    method Minus(b: BigUInt) returns (r: BigUInt)
      requires Valid() && b.Valid() && Int() >= b.Int()
      ensures fresh(r) && r.Valid() && r.Int() == Int() - b.Int()
    {
      r := new BigUInt.Copy(this);
      var overflow := r.SubtractReportingOverflow(b, 0);
      assert !overflow;
    }

    static method Compare(a: BigUInt, b: BigUInt) returns (o: Ordering)
      requires a.Valid() && b.Valid()
      ensures o == if a.Int() < b.Int() then Ascending else if a.Int() > b.Int() then Descending else Same
    {
      var ac := a.Count();
      var bc := b.Count();
      ghost var ad, bd := a.Digits(), b.Digits();
      if ac != bc {
        if ac > bc {
          LongerIsLarger(ad, bd);
        } else {
          LongerIsLarger(bd, ad);
        }
        return if ac > bc then Descending else Ascending;
      }
      for i := ac downto 0
        invariant forall k | i <= k < ac :: ad[k] == bd[k]
      {
        var x := a.Get(i);
        var y := b.Get(i);
        if x != y {
          if x < y {
            HighestDigitDecides(ad, bd, i);
          } else {
            HighestDigitDecides(bd, ad, i);
          }
          return if x > y then Descending else Ascending;
        }
      }
      assert ad == bd;
      return Same;
    }
  }

  function Max(a: nat, b: nat): nat {
    if a < b then b else a
  }

  lemma InlineDigits(w0: Word, w1: Word)
    ensures Trim([w0, w1]) == if w1 != 0 then [w0, w1] else if w0 != 0 then [w0] else []
  {
    assert [w0, w1][..1] == [w0];
  }

  lemma TrimShort(w: Word)
    ensures Trim([]) == [] && Trim([w]) == if w != 0 then [w] else []
  {
  }

  lemma InlinePut(w0: Word, w1: Word, word: Word)
    ensures Put(Trim([w0, w1]), 0, word) == Trim([word, w1])
    ensures Put(Trim([w0, w1]), 1, word) == Trim([w0, word])
  {
    InlineDigits(w0, w1);
    InlineDigits(word, w1);
    InlineDigits(w0, word);
    if w1 != 0 {
      assert [w0, w1][0 := word] == [word, w1] && [w0, w1][1 := word] == [w0, word];
    } else if w0 != 0 {
      assert [w0][0 := word] == [word] && [w0] + Zeros(0) + [word] == [w0, word];
    } else {
      assert [] + Zeros(0) + [word] == [word] && [] + Zeros(1) + [word] == [0, word];
    }
  }

  lemma LongerIsLarger(a: Words, b: Words)
    requires Normal(a) && Normal(b) && |b| < |a|
    ensures Value(b) < Value(a)
  {
    ValueBelow(b, |a| - 1);
    ValueAbove(a);
  }

  /** On equal integers, adding a word and adding the integer made of that word leave the
      very same digits. */
  method AddBothWays(a: BigUInt, word: Word, shift: nat) returns (x: BigUInt, y: BigUInt)
    requires a.Valid()
    ensures fresh(x) && fresh(y) && x.Valid() && y.Valid()
    ensures x.Digits() == y.Digits() && x.Int() == a.Int() + Shifted(word, shift)
  {
    x := new BigUInt.Copy(a);
    x.AddWord(word, shift);
    var w := new BigUInt.FromWords([word]);
    assert w.Int() == word by { OneWord(word); }
    y := new BigUInt.Copy(a);
    y.Add(w, shift);
    Canonical(x.Digits(), y.Digits());
  }

  lemma OneWord(word: Word)
    ensures Value(Trim([word])) == word
  {
    TrimValue([word]);
    assert [word][1..] == [];
  }

  // ----- signed integers -----

  datatype Sign = Plus | Minus

  datatype BigInt = BigInt(sign: Sign, magnitude: BigUInt) {
    ghost function Int(): int
      requires magnitude.Valid()
      reads magnitude
    {
      var m: int := magnitude.Int();
      if sign.Minus? then -m else m
    }

    ghost predicate NegativeZero()
      requires magnitude.Valid()
      reads magnitude
    {
      sign.Minus? && magnitude.Int() == 0
    }
  }

  method Signed(sign: Sign, magnitude: BigUInt) returns (r: BigInt)
    requires magnitude.Valid()
    ensures r.magnitude == magnitude && !r.NegativeZero()
    ensures r.Int() == BigInt(sign, magnitude).Int()
  {
    var zero := magnitude.IsZero();
    r := BigInt(if zero then Plus else sign, magnitude);
  }

  /** Signed addition is integer addition over all four sign cases, and never gives a
      negative zero. */
  method AddSigned(a: BigInt, b: BigInt) returns (r: BigInt)
    requires a.magnitude.Valid() && b.magnitude.Valid()
    ensures fresh(r.magnitude) && r.magnitude.Valid()
    ensures r.Int() == a.Int() + b.Int() && !r.NegativeZero()
  {
    var m: BigUInt;
    if a.sign == b.sign {
      m := a.magnitude.Sum(b.magnitude, 0);
      r := Signed(a.sign, m);
    } else {
      var order := BigUInt.Compare(a.magnitude, b.magnitude);
      match (a.sign, b.sign) {
        case (Plus, Minus) =>
          if order != Ascending {
            m := a.magnitude.Minus(b.magnitude);
            r := Signed(Plus, m);
          } else {
            m := b.magnitude.Minus(a.magnitude);
            r := Signed(Minus, m);
          }
        case (Minus, Plus) =>
          if order != Descending {
            m := b.magnitude.Minus(a.magnitude);
            r := Signed(Plus, m);
          } else {
            m := a.magnitude.Minus(b.magnitude);
            r := Signed(Minus, m);
          }
      }
    }
  }
}
