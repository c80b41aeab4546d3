/** When a message that parses is also accepted: which records arrived decides it. */
module Acceptance {
  import opened Options
  import opened Wire
  import opened Schema
  import opened Decoding

  /** A record of a known field, with the number of array items it brought. */
  datatype Record = Record(field: nat, items: nat)

  /** Number of values in a packed run. */
  function PackedCount(f: Field, was: Value, d: bytes): nat
    requires FieldOk(f) && FitsV(f.ltype, f.dataSize, was)
    decreases |d|
  {
    if d == [] then 0
    else match DecV(f, was, d)
         case Fail => 0
         case Got(_, rest) => 1 + PackedCount(f, was, rest)
  }

  function ItemsIn(f: Field, wt: WireType, s: bytes): nat
    requires FieldOk(f)
  {
    if wt == WtString && Packable(f.ltype) then
      match Delimited(s)
      case Fail => 0
      case Got(d, _) =>
        ZeroVFits(f.ltype, f.dataSize);
        PackedCount(f, ZeroV(f.ltype, f.dataSize), d)
    else 1
  }

  /** The records of known fields that the field loop takes in, in order. */
  function Records(fs: Fields, st: Progress, s: bytes): seq<Record>
    requires SchemaOk(fs) && FitsP(fs, st)
    decreases |s|
  {
    if s == [] then []
    else
      match ReadHeader(s)
      case FieldHeader(tag, wt, rest) =>
        var i := IndexOf(fs, tag);
        (match Dispatch(fs, st, tag, wt, rest)
         case Fail => []
         case Got(st', rest') =>
           (if i < |fs| then [Record(i, ItemsIn(fs[i], wt, rest))] else []) + Records(fs, st', rest'))
      case _ => []
  }

  predicate Matched(rs: seq<Record>, i: nat) {
    exists k | 0 <= k < |rs| :: rs[k].field == i
  }

  /** Records of one fixed-count array that no other fixed-count array interrupts are a
      run; every run brings exactly the items the array holds. */
  predicate RunsComplete(fs: Fields, rs: seq<Record>, current: Option<nat>, total: nat)
    decreases |rs|
  {
    if rs == [] then
      current.Some? && current.value < |fs| ==> total == fs[current.value].arraySize
    else
      var i := rs[0].field;
      if i >= |fs| || !IsFixedCount(fs[i]) then RunsComplete(fs, rs[1..], current, total)
      else if current == Some(i) then RunsComplete(fs, rs[1..], current, total + rs[0].items)
      else
        && (current.Some? && current.value < |fs| ==> total == fs[current.value].arraySize)
        && RunsComplete(fs, rs[1..], Some(i), rs[0].items)
  }

  lemma {:induction false} PackedCounts(f: Field, was: Value, items: seq<Value>, count: nat, d: bytes)
    requires FieldOk(f) && FitsV(f.ltype, f.dataSize, was) && Packable(f.ltype) && FitsItems(f, items)
    requires DecPacked(f, items, count, d).Got? && DecPacked(f, items, count, d).rest == []
    ensures DecPacked(f, items, count, d).value.1 == count + PackedCount(f, was, d)
    decreases |d|
  {
    if d != [] {
      assert DecV(f, items[count], d) == DecV(f, was, d) by { PackableAlone(f, items[count], was, d); }
      hide DecV, FitsV, FieldOk;
      var p := DecV(f, was, d);
      PackedCounts(f, was, items[count := p.value], count + 1, p.rest);
    }
  }

  lemma PackableAlone(f: Field, a: Value, b: Value, d: bytes)
    requires FieldOk(f) && FitsV(f.ltype, f.dataSize, a) && FitsV(f.ltype, f.dataSize, b) && Packable(f.ltype)
    ensures DecV(f, a, d) == DecV(f, b, d)
  {
    hide FitsV;
  }

  lemma ArrayCounts(f: Field, items: seq<Value>, count: nat, wt: WireType, s: bytes)
    requires FieldOk(f) && FitsItems(f, items) && DecArray(f, items, count, wt, s).Got?
    ensures DecArray(f, items, count, wt, s).value.1 == count + ItemsIn(f, wt, s)
  {
    hide DecV, FitsV, FieldOk, DecPacked;
    if wt == WtString && Packable(f.ltype) {
      ZeroVFits(f.ltype, f.dataSize);
      PackedCounts(f, ZeroV(f.ltype, f.dataSize), items, count, Delimited(s).value);
    }
  }

  /** What record r does to the bookkeeping. */
  ghost predicate Books(fs: Fields, st: Progress, r: Record, st': Progress)
    requires r.field < |fs|
  {
    var i := r.field;
    && st'.seen == (if Tracked(fs, i) then st.seen + {i} else st.seen)
    && (!IsFixedCount(fs[i]) ==> st'.fixed == st.fixed && st'.fixedSize == st.fixedSize)
    && (IsFixedCount(fs[i]) ==> st'.fixed == Some(i))
    && (IsFixedCount(fs[i]) && st.fixed == Some(i) ==> st'.fixedSize == st.fixedSize + r.items)
    && (IsFixedCount(fs[i]) && st.fixed != Some(i) ==> FixedComplete(fs, st) && st'.fixedSize == r.items)
  }

  /** A record of a fixed-count array adds its items to the count, or, when another array
      was in progress, demands that one complete and starts anew. */
  lemma RecordEffect(fs: Fields, st: Progress, i: nat, wt: WireType, s: bytes)
    requires SchemaOk(fs) && FitsP(fs, st) && i < |fs| && DecField(fs, st, i, wt, s).Got?
    ensures FieldOk(fs[i]) && Books(fs, st, Record(i, ItemsIn(fs[i], wt, s)), DecField(fs, st, i, wt, s).value)
  {
    hide DecV, DecArray, FieldOk, FitsV, ItemsIn;
    SlotFits(fs, st.msg, i);
    if IsFixedCount(fs[i]) {
      ArrayCounts(fs[i], st.msg.slots[i].items, EnterFixed(fs, st, i).value.fixedSize, wt, s);
    }
  }

  /** From `st` the records rs have led to `end`, as far as the final test can tell. */
  ghost predicate History(fs: Fields, st: Progress, rs: seq<Record>, end: Progress) {
    && (forall i | 0 <= i < |fs| && Tracked(fs, i) :: i in end.seen <==> i in st.seen || Matched(rs, i))
    && (RunsComplete(fs, rs, st.fixed, st.fixedSize) <==> FixedComplete(fs, end))
  }

  lemma FirstRecord(fs: Fields, st: Progress, r: Record, st': Progress, rest: seq<Record>, end: Progress)
    requires r.field < |fs| && Books(fs, st, r, st') && History(fs, st', rest, end)
    ensures History(fs, st, [r] + rest, end)
  {
    var rs := [r] + rest;
    assert rs[0] == r && rs[1..] == rest;
    forall i | 0 <= i < |fs| && Tracked(fs, i)
      ensures i in end.seen <==> i in st.seen || Matched(rs, i)
    {
      MatchedFirst(r, rest, i);
    }
  }

  lemma MatchedFirst(r: Record, rest: seq<Record>, i: nat)
    ensures Matched([r] + rest, i) <==> r.field == i || Matched(rest, i)
  {
    var rs := [r] + rest;
    assert rs[0] == r;
    if k :| 0 <= k < |rest| && rest[k].field == i {
      assert rs[k + 1].field == i;
    }
  }

  /** The records from one header on. */
  lemma RecordsTurn(fs: Fields, st: Progress, s: bytes)
    requires SchemaOk(fs) && FitsP(fs, st) && s != [] && ReadHeader(s).FieldHeader? && Loop(fs, st, s).Got?
    ensures var h := ReadHeader(s);
            var i, p := IndexOf(fs, h.tag), Dispatch(fs, st, h.tag, h.wt, h.rest);
            && p.Got? && Loop(fs, st, s) == Loop(fs, p.value, p.rest)
            && (i < |fs| ==>
                  && FieldOk(fs[i]) && p == DecField(fs, st, i, h.wt, h.rest)
                  && Records(fs, st, s) == [Record(i, ItemsIn(fs[i], h.wt, h.rest))] + Records(fs, p.value, p.rest))
            && (i == |fs| ==> p.value == st && Records(fs, st, s) == Records(fs, p.value, p.rest))
  {
    hide DecField, ItemsIn, ReadHeader, Varint32, SkipField, FieldOk, FitsM;
  }

  /** The loop's bookkeeping is the history of records: a tracked required field is seen
      exactly if a record of it arrived, and the runs of fixed-count arrays are complete
      exactly if the last one is. */
  lemma {:induction false} LoopRecords(fs: Fields, st: Progress, s: bytes)
    requires SchemaOk(fs) && FitsP(fs, st) && Loop(fs, st, s).Got?
    ensures History(fs, st, Records(fs, st, s), Loop(fs, st, s).value)
    decreases |s|
  {
    hide DecField, ItemsIn, ReadHeader, Dispatch, History, Books, SchemaOk, FitsM;
    if s != [] && ReadHeader(s).FieldHeader? {
      var h := ReadHeader(s);
      var i, p := IndexOf(fs, h.tag), Dispatch(fs, st, h.tag, h.wt, h.rest);
      RecordsTurn(fs, st, s);
      LoopRecords(fs, p.value, p.rest);
      if i < |fs| {
        RecordEffect(fs, st, i, h.wt, h.rest);
        FirstRecord(fs, st, Record(i, ItemsIn(fs[i], h.wt, h.rest)), p.value, Records(fs, p.value, p.rest), Loop(fs, st, s).value);
      }
    } else {
      NoRecords(fs, st);
    }
  }

  lemma NoRecords(fs: Fields, st: Progress)
    ensures History(fs, st, [], st)
  {
  }

  /** pb_decode_noinit succeeds exactly if the field loop gets through, a record arrived
      for each of the first 64 required fields, and every run of a fixed-count array
      brought exactly its number of items. */
  lemma AcceptedExactly(fs: Fields, m: Msg, s: bytes)
    requires SchemaOk(fs) && FitsM(fs, m)
    ensures var rs := Records(fs, Start(m), s);
            DecM(fs, m, s).Got? <==>
            && Loop(fs, Start(m), s).Got?
            && (forall i | 0 <= i < |fs| && fs[i].htype.Required? && RequiredBefore(fs, i) < 64 :: Matched(rs, i))
            && RunsComplete(fs, rs, None, 0)
  {
    hide Loop, SchemaOk;
    if Loop(fs, Start(m), s).Got? {
      LoopRecords(fs, Start(m), s);
    }
  }
}
