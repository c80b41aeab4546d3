/** What a message becomes when another one is merged into it, field by field: the meaning
    of decoding onto a structure that already holds something. */
module Merging {
  import opened Schema
  import opened Encoding
  import opened Decoding

  // ----- the merge -----

  /** What a submessage is merged into: items of arrays start from defaults. */
  function Base(f: Field, a: Value): Value
    requires f.ltype.Submessage? && a.Sub?
  {
    if f.htype.Repeated? then Sub(DefaultM(f.ltype.fields, a.msg)) else a
  }

  lemma BaseFits(f: Field, a: Value)
    requires FieldOk(f) && f.ltype.Submessage? && FitsV(f.ltype, f.dataSize, a)
    ensures SchemaOk(f.ltype.fields) && FitsM(f.ltype.fields, Base(f, a).msg)
  {
    DefaultMFits(f.ltype.fields, a.msg);
  }

  /** Submessages merge, everything else is overwritten. */
  function MergeV(f: Field, a: Value, v: Value): Value
    requires FieldOk(f) && FitsV(f.ltype, f.dataSize, a) && FitsV(f.ltype, f.dataSize, v)
    decreases f, 0
  {
    match f.ltype
    case Submessage(fs) =>
      BaseFits(f, a);
      Sub(MergeM(fs, Base(f, a).msg, v.msg))
    case _ => v
  }

  /** Items 0..n of b behind the first `at` items of a. */
  function MergeItems(f: Field, a: seq<Value>, at: nat, b: seq<Value>, n: nat): (r: seq<Value>)
    requires FieldOk(f) && FitsItems(f, a) && FitsItems(f, b)
    ensures |r| == |a|
    decreases f, 1
  {
    seq(|a|, k requires 0 <= k < |a| => if at <= k < at + n && k - at < |b| then MergeV(f, a[k], b[k - at]) else a[k])
  }

  /** Arrays are appended to, absent fields stay, and a union switches to the member sent. */
  function MergeS(f: Field, a: Slot, wa: nat, s: Slot, ws: nat): Slot
    requires FieldOk(f) && FitsS(f, a) && FitsS(f, s)
    decreases f, 2
  {
    if f.htype.Repeated? then
      if a.Rep? then Rep(a.count + s.count, MergeItems(f, a.items, a.count, s.items, s.count))
      else FixedCount(MergeItems(f, a.items, 0, s.items, f.arraySize))
    else if !Present(f, s, ws) then a
    else if f.htype.OneOf? then
      UnionBaseFits(f, a.v, wa);
      Single(MergeV(f, UnionBase(f, a.v, wa), s.v))
    else if a.Opt? then Opt(true, MergeV(f, a.v, s.v))
    else Single(MergeV(f, a.v, s.v))
  }

  function MergeM(fs: Fields, a: Msg, m: Msg): Msg
    requires SchemaOk(fs) && FitsM(fs, a) && FitsM(fs, m)
    decreases fs
  {
    Msg(seq(|fs|, i requires 0 <= i < |fs| => MergeS(fs[i], a.slots[i], Which(fs, a, i), m.slots[i], Which(fs, m, i))),
        seq(|fs|, u requires 0 <= u < |fs| => if m.which[u] != 0 then m.which[u] else a.which[u]))
  }

  lemma {:induction false} MergeVFits(f: Field, a: Value, v: Value)
    requires FieldOk(f) && FitsV(f.ltype, f.dataSize, a) && FitsV(f.ltype, f.dataSize, v)
    ensures FitsV(f.ltype, f.dataSize, MergeV(f, a, v))
    decreases f, 0
  {
    if f.ltype.Submessage? {
      BaseFits(f, a);
      MergeMFits(f.ltype.fields, Base(f, a).msg, v.msg);
    }
  }

  lemma {:induction false} MergeItemsFit(f: Field, a: seq<Value>, at: nat, b: seq<Value>, n: nat)
    requires FieldOk(f) && FitsItems(f, a) && FitsItems(f, b)
    ensures FitsItems(f, MergeItems(f, a, at, b, n))
    decreases f, 1
  {
    forall k | 0 <= k < |a|
      ensures FitsV(f.ltype, f.dataSize, MergeItems(f, a, at, b, n)[k])
    {
      if at <= k < at + n && k - at < |b| {
        MergeVFits(f, a[k], b[k - at]);
      }
    }
  }

  lemma {:induction false} MergeSFits(f: Field, a: Slot, wa: nat, s: Slot, ws: nat)
    requires FieldOk(f) && FitsS(f, a) && FitsS(f, s)
    ensures FitsS(f, MergeS(f, a, wa, s, ws))
    decreases f, 2
  {
    hide FitsV, MergeV;
    if f.htype.Repeated? {
      MergeItemsFit(f, a.items, if a.Rep? then a.count else 0, s.items, if s.Rep? then s.count else f.arraySize);
    } else if f.htype.OneOf? {
      UnionBaseFits(f, a.v, wa);
      MergeVFits(f, UnionBase(f, a.v, wa), s.v);
    } else {
      MergeVFits(f, a.v, s.v);
    }
  }

  lemma {:induction false} MergeMFits(fs: Fields, a: Msg, m: Msg)
    requires SchemaOk(fs) && FitsM(fs, a) && FitsM(fs, m)
    ensures FitsM(fs, MergeM(fs, a, m))
    decreases fs
  {
    hide FitsV, MergeS, FieldOk;
    forall i | 0 <= i < |fs|
      ensures FitsS(fs[i], MergeM(fs, a, m).slots[i])
    {
      SlotFits(fs, a, i);
      SlotFits(fs, m, i);
      MergeSFits(fs[i], a.slots[i], Which(fs, a, i), m.slots[i], Which(fs, m, i));
    }
  }

  // ----- room -----

  /** The arrays of a have room for the items of m. */
  ghost predicate RoomV(f: Field, a: Value, v: Value)
    requires FieldOk(f) && FitsV(f.ltype, f.dataSize, a) && FitsV(f.ltype, f.dataSize, v)
    decreases f, 0
  {
    if f.ltype.Submessage? then
      BaseFits(f, a);
      RoomM(f.ltype.fields, Base(f, a).msg, v.msg)
    else true
  }

  ghost predicate RoomS(f: Field, a: Slot, wa: nat, s: Slot, ws: nat)
    requires FieldOk(f) && FitsS(f, a) && FitsS(f, s)
    decreases f, 1
  {
    if f.htype.Repeated? then a.Rep? && s.count > 0 ==> a.count + s.count <= f.arraySize
    else if !Present(f, s, ws) then true
    else if f.htype.OneOf? then
      UnionBaseFits(f, a.v, wa);
      RoomV(f, UnionBase(f, a.v, wa), s.v)
    else RoomV(f, a.v, s.v)
  }

  ghost predicate RoomM(fs: Fields, a: Msg, m: Msg)
    requires SchemaOk(fs) && FitsM(fs, a) && FitsM(fs, m)
    decreases fs
  {
    forall i | 0 <= i < |fs| :: RoomS(fs[i], a.slots[i], Which(fs, a, i), m.slots[i], Which(fs, m, i))
  }

  /** There is room for field i. */
  ghost predicate RoomAt(fs: Fields, a: Msg, m: Msg, i: nat)
    requires SchemaOk(fs) && FitsM(fs, a) && FitsM(fs, m) && i < |fs|
  {
    RoomS(fs[i], a.slots[i], Which(fs, a, i), m.slots[i], Which(fs, m, i))
  }

  /** Nothing is in the arrays, and no union is set. */
  ghost predicate VacantV(f: Field, v: Value)
    requires FitsV(f.ltype, f.dataSize, v)
    decreases f, 0
  {
    f.ltype.Submessage? ==> VacantM(f.ltype.fields, v.msg)
  }

  ghost predicate VacantS(f: Field, s: Slot, which: nat)
    requires FitsS(f, s)
    decreases f, 1
  {
    match f.htype
    case OneOf => which == 0
    case Repeated => s.Rep? ==> s.count == 0
    case _ => VacantV(f, s.v)
  }

  ghost predicate VacantM(fs: Fields, m: Msg)
    requires FitsM(fs, m)
    decreases fs
  {
    forall i | 0 <= i < |fs| :: VacantS(fs[i], m.slots[i], Which(fs, m, i))
  }

  lemma {:induction false} DefaultVacantV(f: Field, v: Value)
    requires FieldOk(f) && FitsV(f.ltype, f.dataSize, v)
    ensures FitsV(f.ltype, f.dataSize, DefaultV(f, v)) && VacantV(f, DefaultV(f, v))
    decreases f, 0
  {
    ZeroVFits(f.ltype, f.dataSize);
    if f.ltype.Submessage? {
      DefaultVacant(f.ltype.fields, v.msg);
    }
  }

  lemma {:induction false} DefaultVacant(fs: Fields, m: Msg)
    requires SchemaOk(fs) && FitsM(fs, m)
    ensures FitsM(fs, DefaultM(fs, m)) && VacantM(fs, DefaultM(fs, m))
    decreases fs
  {
    hide FitsV, VacantV, DefaultV, FieldOk;
    DefaultMFits(fs, m);
    forall i | 0 <= i < |fs|
      ensures VacantS(fs[i], DefaultM(fs, m).slots[i], 0)
    {
      SlotFits(fs, m, i);
      if fs[i].htype.Required? || fs[i].htype.Optional? {
        DefaultVacantV(fs[i], m.slots[i].v);
      }
    }
  }

  /** A vacant structure has room for every message within its bounds. */
  lemma {:induction false} VacantRoomV(f: Field, a: Value, v: Value)
    requires FieldOk(f) && FitsV(f.ltype, f.dataSize, a) && FitsV(f.ltype, f.dataSize, v)
    requires BoundedV(f.ltype, f.dataSize, v) && (f.htype.Repeated? || VacantV(f, a))
    ensures RoomV(f, a, v)
    decreases f, 0
  {
    if f.ltype.Submessage? {
      BaseFits(f, a);
      if f.htype.Repeated? {
        DefaultVacant(f.ltype.fields, a.msg);
      }
      VacantRoom(f.ltype.fields, Base(f, a).msg, v.msg);
    }
  }

  lemma {:induction false} VacantRoomS(f: Field, a: Slot, wa: nat, s: Slot, ws: nat)
    requires FieldOk(f) && FitsS(f, a) && FitsS(f, s) && VacantS(f, a, wa) && BoundedS(f, s, ws)
    ensures RoomS(f, a, wa, s, ws)
    decreases f, 1
  {
    hide FitsV, BoundedV, VacantV, RoomV, IsZeroV;
    if !f.htype.Repeated? && Present(f, s, ws) {
      if f.htype.OneOf? {
        assert f.tag != 0 by { TagNotZero(f); }
        UnionBaseFits(f, a.v, wa);
        SwitchedVacant(f, a.v, wa);
        VacantRoomV(f, UnionBase(f, a.v, wa), s.v);
      } else {
        VacantRoomV(f, a.v, s.v);
      }
    }
  }

  lemma TagNotZero(f: Field)
    requires FieldOk(f)
    ensures f.tag != 0
  {
  }

  lemma SwitchedVacant(f: Field, v: Value, which: nat)
    requires FieldOk(f) && FitsV(f.ltype, f.dataSize, v) && which != f.tag
    ensures FitsV(f.ltype, f.dataSize, UnionBase(f, v, which)) && VacantV(f, UnionBase(f, v, which))
  {
    UnionBaseFits(f, v, which);
    if f.ltype.Submessage? {
      ZeroMFits(f.ltype.fields);
      DefaultVacant(f.ltype.fields, ZeroM(f.ltype.fields));
    }
  }

  lemma {:induction false} VacantRoom(fs: Fields, a: Msg, m: Msg)
    requires SchemaOk(fs) && FitsM(fs, a) && FitsM(fs, m) && VacantM(fs, a) && BoundedM(fs, m)
    ensures RoomM(fs, a, m)
    decreases fs
  {
    hide FitsS, VacantS, BoundedS, RoomS, FieldOk;
    forall i | 0 <= i < |fs|
      ensures FieldOk(fs[i]) && FitsS(fs[i], a.slots[i]) && FitsS(fs[i], m.slots[i])
      ensures RoomS(fs[i], a.slots[i], Which(fs, a, i), m.slots[i], Which(fs, m, i))
    {
      SlotFits(fs, a, i);
      SlotFits(fs, m, i);
      assert BoundedS(fs[i], m.slots[i], Which(fs, m, i));
      VacantRoomS(fs[i], a.slots[i], Which(fs, a, i), m.slots[i], Which(fs, m, i));
    }
  }

  // ----- alike in all storage -----

  /** Alike in everything that is stored, used or not, up to the bytes behind a string's NUL
      and behind a bytes field's size. */
  ghost predicate AlikeV(f: Field, a: Value, b: Value)
    requires FitsV(f.ltype, f.dataSize, a) && FitsV(f.ltype, f.dataSize, b)
    decreases f, 0
  {
    match f.ltype
    case Submessage(fs) => AlikeM(fs, a.msg, b.msg)
    case _ => SameV(f.ltype, f.dataSize, a, b)
  }

  ghost predicate AlikeItems(f: Field, a: seq<Value>, b: seq<Value>)
    requires FitsItems(f, a) && FitsItems(f, b)
    decreases f, 1
  {
    forall k | 0 <= k < |a| :: AlikeV(f, a[k], b[k])
  }

  ghost predicate AlikeS(f: Field, a: Slot, b: Slot)
    requires FitsS(f, a) && FitsS(f, b)
    decreases f, 2
  {
    if f.htype.Repeated? then (a.Rep? ==> a.count == b.count) && AlikeItems(f, a.items, b.items)
    else (a.Opt? ==> a.has == b.has) && AlikeV(f, a.v, b.v)
  }

  ghost predicate AlikeM(fs: Fields, a: Msg, b: Msg)
    requires FitsM(fs, a) && FitsM(fs, b)
    decreases fs
  {
    && (forall i | 0 <= i < |fs| :: AlikeS(fs[i], a.slots[i], b.slots[i]))
    && (forall i | 0 <= i < |fs| && fs[i].htype.OneOf? :: Which(fs, a, i) == Which(fs, b, i))
  }

  lemma {:induction false} AlikeReflexiveV(f: Field, v: Value)
    requires FitsV(f.ltype, f.dataSize, v)
    ensures AlikeV(f, v, v)
    decreases f, 0
  {
    if f.ltype.Submessage? {
      forall i | 0 <= i < |f.ltype.fields|
        ensures AlikeS(f.ltype.fields[i], v.msg.slots[i], v.msg.slots[i])
      {
        AlikeReflexiveS(f.ltype.fields[i], v.msg.slots[i]);
      }
    }
  }

  lemma {:induction false} AlikeReflexiveS(f: Field, s: Slot)
    requires FitsS(f, s)
    ensures AlikeS(f, s, s)
    decreases f, 1
  {
    hide FitsV, AlikeV;
    if f.htype.Repeated? {
      forall k | 0 <= k < |s.items| ensures AlikeV(f, s.items[k], s.items[k]) { AlikeReflexiveV(f, s.items[k]); }
    } else {
      AlikeReflexiveV(f, s.v);
    }
  }

  lemma {:induction false} AlikeTransitiveV(f: Field, a: Value, b: Value, c: Value)
    requires FitsV(f.ltype, f.dataSize, a) && FitsV(f.ltype, f.dataSize, b) && FitsV(f.ltype, f.dataSize, c)
    requires AlikeV(f, a, b) && AlikeV(f, b, c)
    ensures AlikeV(f, a, c)
    decreases f, 0
  {
    if f.ltype.Submessage? {
      AlikeTransitive(f.ltype.fields, a.msg, b.msg, c.msg);
    }
  }

  lemma {:induction false} AlikeTransitiveS(f: Field, a: Slot, b: Slot, c: Slot)
    requires FitsS(f, a) && FitsS(f, b) && FitsS(f, c) && AlikeS(f, a, b) && AlikeS(f, b, c)
    ensures AlikeS(f, a, c)
    decreases f, 1
  {
    hide FitsV, AlikeV;
    if f.htype.Repeated? {
      forall k | 0 <= k < |a.items| ensures AlikeV(f, a.items[k], c.items[k]) { AlikeTransitiveV(f, a.items[k], b.items[k], c.items[k]); }
    } else {
      AlikeTransitiveV(f, a.v, b.v, c.v);
    }
  }

  lemma {:induction false} AlikeTransitive(fs: Fields, a: Msg, b: Msg, c: Msg)
    requires FitsM(fs, a) && FitsM(fs, b) && FitsM(fs, c) && AlikeM(fs, a, b) && AlikeM(fs, b, c)
    ensures AlikeM(fs, a, c)
    decreases fs
  {
    hide FitsS, AlikeS;
    forall i | 0 <= i < |fs|
      ensures FitsS(fs[i], a.slots[i]) && FitsS(fs[i], c.slots[i]) && AlikeS(fs[i], a.slots[i], c.slots[i])
    {
      assert FitsS(fs[i], a.slots[i]) && FitsS(fs[i], b.slots[i]) && FitsS(fs[i], c.slots[i]);
      AlikeTransitiveS(fs[i], a.slots[i], b.slots[i], c.slots[i]);
    }
  }

  lemma {:induction false} AlikeSameV(f: Field, a: Value, b: Value)
    requires FitsV(f.ltype, f.dataSize, a) && FitsV(f.ltype, f.dataSize, b) && AlikeV(f, a, b)
    ensures SameV(f.ltype, f.dataSize, a, b)
    decreases f, 0
  {
    if f.ltype.Submessage? {
      AlikeSame(f.ltype.fields, a.msg, b.msg);
    }
  }

  lemma {:induction false} AlikeSameS(f: Field, a: Slot, b: Slot, which: nat)
    requires FitsS(f, a) && FitsS(f, b) && AlikeS(f, a, b)
    ensures SameS(f, a, which, b, which)
    decreases f, 1
  {
    hide FitsV, AlikeV, SameV;
    if f.htype.Repeated? {
      forall k | 0 <= k < |a.items| ensures SameV(f.ltype, f.dataSize, a.items[k], b.items[k]) { AlikeSameV(f, a.items[k], b.items[k]); }
    } else {
      AlikeSameV(f, a.v, b.v);
    }
  }

  /** What is alike is the same to a reader. */
  lemma {:induction false} AlikeSame(fs: Fields, a: Msg, b: Msg)
    requires FitsM(fs, a) && FitsM(fs, b) && AlikeM(fs, a, b)
    ensures SameM(fs, a, b)
    decreases fs
  {
    hide FitsS, AlikeS, SameS;
    forall i | 0 <= i < |fs|
      ensures FitsS(fs[i], a.slots[i]) && FitsS(fs[i], b.slots[i])
      ensures SameS(fs[i], a.slots[i], Which(fs, a, i), b.slots[i], Which(fs, b, i))
    {
      assert FitsS(fs[i], a.slots[i]) && FitsS(fs[i], b.slots[i]);
      AlikeSameS(fs[i], a.slots[i], b.slots[i], Which(fs, a, i));
      OnlyUnions(fs[i], a.slots[i], Which(fs, a, i), b.slots[i], Which(fs, b, i));
    }
  }

  lemma OnlyUnions(f: Field, a: Slot, wa: nat, b: Slot, wb: nat)
    requires FitsS(f, a) && FitsS(f, b) && SameS(f, a, wa, b, wa) && (f.htype.OneOf? ==> wa == wb)
    ensures SameS(f, a, wa, b, wb)
  {
    hide FitsV, SameV;
  }

  // ----- the default pass and the merge keep what is alike alike -----

  lemma {:induction false} DefaultAlikeV(f: Field, a: Value, b: Value)
    requires FieldOk(f) && FitsV(f.ltype, f.dataSize, a) && FitsV(f.ltype, f.dataSize, b) && AlikeV(f, a, b)
    ensures FitsV(f.ltype, f.dataSize, DefaultV(f, a)) && FitsV(f.ltype, f.dataSize, DefaultV(f, b))
    ensures AlikeV(f, DefaultV(f, a), DefaultV(f, b))
    decreases f, 0
  {
    ZeroVFits(f.ltype, f.dataSize);
    if f.ltype.Submessage? {
      DefaultAlike(f.ltype.fields, a.msg, b.msg);
    } else {
      AlikeReflexiveV(f, DefaultV(f, a));
    }
  }

  lemma {:induction false} DefaultAlike(fs: Fields, a: Msg, b: Msg)
    requires SchemaOk(fs) && FitsM(fs, a) && FitsM(fs, b) && AlikeM(fs, a, b)
    ensures FitsM(fs, DefaultM(fs, a)) && FitsM(fs, DefaultM(fs, b)) && AlikeM(fs, DefaultM(fs, a), DefaultM(fs, b))
    decreases fs
  {
    hide FitsV, AlikeV, FieldOk, DefaultV;
    DefaultMFits(fs, a);
    DefaultMFits(fs, b);
    forall i | 0 <= i < |fs|
      ensures AlikeS(fs[i], DefaultM(fs, a).slots[i], DefaultM(fs, b).slots[i])
    {
      SlotFits(fs, a, i);
      SlotFits(fs, b, i);
      assert AlikeS(fs[i], a.slots[i], b.slots[i]);
      if fs[i].htype.Required? || fs[i].htype.Optional? {
        DefaultAlikeV(fs[i], a.slots[i].v, b.slots[i].v);
      }
    }
  }

  lemma {:induction false} MergeAlikeV(f: Field, a: Value, b: Value, v: Value)
    requires FieldOk(f) && FitsV(f.ltype, f.dataSize, a) && FitsV(f.ltype, f.dataSize, b) && FitsV(f.ltype, f.dataSize, v)
    requires AlikeV(f, a, b)
    ensures FitsV(f.ltype, f.dataSize, MergeV(f, a, v)) && FitsV(f.ltype, f.dataSize, MergeV(f, b, v))
    ensures AlikeV(f, MergeV(f, a, v), MergeV(f, b, v)) && (RoomV(f, a, v) <==> RoomV(f, b, v))
    decreases f, 0
  {
    MergeVFits(f, a, v);
    MergeVFits(f, b, v);
    if f.ltype.Submessage? {
      BaseFits(f, a);
      BaseFits(f, b);
      DefaultAlike(f.ltype.fields, a.msg, b.msg);
      MergeAlike(f.ltype.fields, Base(f, a).msg, Base(f, b).msg, v.msg);
    } else {
      AlikeReflexiveV(f, v);
    }
  }

  lemma {:induction false} MergeAlikeItems(f: Field, a: seq<Value>, b: seq<Value>, at: nat, src: seq<Value>, n: nat)
    requires FieldOk(f) && FitsItems(f, a) && FitsItems(f, b) && FitsItems(f, src) && AlikeItems(f, a, b)
    ensures FitsItems(f, MergeItems(f, a, at, src, n)) && FitsItems(f, MergeItems(f, b, at, src, n))
    ensures AlikeItems(f, MergeItems(f, a, at, src, n), MergeItems(f, b, at, src, n))
    decreases f, 1
  {
    hide FitsV, AlikeV, FieldOk, MergeV;
    MergeItemsFit(f, a, at, src, n);
    MergeItemsFit(f, b, at, src, n);
    forall k | 0 <= k < |a|
      ensures AlikeV(f, MergeItems(f, a, at, src, n)[k], MergeItems(f, b, at, src, n)[k])
    {
      if at <= k < at + n && k - at < |src| {
        MergeAlikeV(f, a[k], b[k], src[k - at]);
      }
    }
  }

  lemma {:induction false} MergeAlikeS(f: Field, a: Slot, b: Slot, which: nat, s: Slot, ws: nat)
    requires FieldOk(f) && FitsS(f, a) && FitsS(f, b) && FitsS(f, s) && AlikeS(f, a, b)
    ensures FitsS(f, MergeS(f, a, which, s, ws)) && FitsS(f, MergeS(f, b, which, s, ws))
    ensures AlikeS(f, MergeS(f, a, which, s, ws), MergeS(f, b, which, s, ws))
    ensures RoomS(f, a, which, s, ws) <==> RoomS(f, b, which, s, ws)
    decreases f, 2
  {
    hide FitsV, AlikeV, FieldOk, MergeV, MergeItems, RoomV, IsZeroV;
    MergeSFits(f, a, which, s, ws);
    MergeSFits(f, b, which, s, ws);
    if f.htype.Repeated? {
      MergeAlikeItems(f, a.items, b.items, if a.Rep? then a.count else 0, s.items, if s.Rep? then s.count else f.arraySize);
    } else if f.htype.OneOf? {
      UnionBaseAlike(f, a.v, b.v, which);
      MergeAlikeV(f, UnionBase(f, a.v, which), UnionBase(f, b.v, which), s.v);
    } else {
      MergeAlikeV(f, a.v, b.v, s.v);
    }
  }

  lemma UnionBaseAlike(f: Field, a: Value, b: Value, which: nat)
    requires FieldOk(f) && FitsV(f.ltype, f.dataSize, a) && FitsV(f.ltype, f.dataSize, b) && AlikeV(f, a, b)
    ensures FitsV(f.ltype, f.dataSize, UnionBase(f, a, which)) && FitsV(f.ltype, f.dataSize, UnionBase(f, b, which))
    ensures AlikeV(f, UnionBase(f, a, which), UnionBase(f, b, which))
  {
    UnionBaseFits(f, a, which);
    UnionBaseFits(f, b, which);
    AlikeReflexiveV(f, UnionBase(f, a, which));
  }

  lemma {:induction false} MergeAlike(fs: Fields, a: Msg, b: Msg, m: Msg)
    requires SchemaOk(fs) && FitsM(fs, a) && FitsM(fs, b) && FitsM(fs, m) && AlikeM(fs, a, b)
    ensures FitsM(fs, MergeM(fs, a, m)) && FitsM(fs, MergeM(fs, b, m)) && AlikeM(fs, MergeM(fs, a, m), MergeM(fs, b, m))
    ensures RoomM(fs, a, m) <==> RoomM(fs, b, m)
    decreases fs
  {
    hide FitsS, AlikeS, FieldOk, MergeS, RoomS;
    MergeMFits(fs, a, m);
    MergeMFits(fs, b, m);
    forall i | 0 <= i < |fs|
      ensures FieldOk(fs[i]) && FitsS(fs[i], a.slots[i]) && FitsS(fs[i], b.slots[i]) && FitsS(fs[i], m.slots[i])
      ensures var s, t := MergeM(fs, a, m).slots[i], MergeM(fs, b, m).slots[i];
              FitsS(fs[i], s) && FitsS(fs[i], t) && AlikeS(fs[i], s, t)
      ensures RoomS(fs[i], a.slots[i], Which(fs, a, i), m.slots[i], Which(fs, m, i))
              <==> RoomS(fs[i], b.slots[i], Which(fs, b, i), m.slots[i], Which(fs, m, i))
    {
      SlotFits(fs, a, i);
      SlotFits(fs, b, i);
      SlotFits(fs, m, i);
      assert AlikeS(fs[i], a.slots[i], b.slots[i]);
      MergeAlikeS(fs[i], a.slots[i], b.slots[i], Which(fs, a, i), m.slots[i], Which(fs, m, i));
      WhichOnlyForUnions(fs[i], b.slots[i], Which(fs, a, i), Which(fs, b, i), m.slots[i], Which(fs, m, i));
    }
  }

  lemma WhichOnlyForUnions(f: Field, b: Slot, wa: nat, wb: nat, s: Slot, ws: nat)
    requires FieldOk(f) && FitsS(f, b) && FitsS(f, s) && (f.htype.OneOf? ==> wa == wb)
    ensures MergeS(f, b, wa, s, ws) == MergeS(f, b, wb, s, ws)
    ensures RoomS(f, b, wa, s, ws) == RoomS(f, b, wb, s, ws)
  {
    hide FitsV, FieldOk, MergeV, MergeItems, RoomV, IsZeroV;
  }

  // ----- the same to a reader -----

  lemma {:induction false} SameSymmetricV(f: Field, a: Value, b: Value)
    requires FitsV(f.ltype, f.dataSize, a) && FitsV(f.ltype, f.dataSize, b) && SameV(f.ltype, f.dataSize, a, b)
    ensures SameV(f.ltype, f.dataSize, b, a)
    decreases f, 0
  {
    if f.ltype.Submessage? {
      SameSymmetric(f.ltype.fields, a.msg, b.msg);
    }
  }

  lemma {:induction false} SameSymmetricS(f: Field, a: Slot, wa: nat, b: Slot, wb: nat)
    requires FitsS(f, a) && FitsS(f, b) && SameS(f, a, wa, b, wb)
    ensures SameS(f, b, wb, a, wa)
    decreases f, 1
  {
    hide FitsV, SameV;
    if f.htype.Repeated? {
      forall k | 0 <= k < |a.items| && (a.Rep? ==> k < a.count)
        ensures SameV(f.ltype, f.dataSize, b.items[k], a.items[k])
      {
        SameSymmetricV(f, a.items[k], b.items[k]);
      }
    } else if (f.htype.OneOf? ==> wa == f.tag) && (a.Opt? ==> a.has) {
      SameSymmetricV(f, a.v, b.v);
    }
  }

  lemma {:induction false} SameSymmetric(fs: Fields, a: Msg, b: Msg)
    requires FitsM(fs, a) && FitsM(fs, b) && SameM(fs, a, b)
    ensures SameM(fs, b, a)
    decreases fs
  {
    hide FitsS, SameS;
    forall i | 0 <= i < |fs|
      ensures FitsS(fs[i], a.slots[i]) && FitsS(fs[i], b.slots[i])
      ensures SameS(fs[i], b.slots[i], Which(fs, b, i), a.slots[i], Which(fs, a, i))
    {
      assert FitsS(fs[i], a.slots[i]) && FitsS(fs[i], b.slots[i]);
      SameSymmetricS(fs[i], a.slots[i], Which(fs, a, i), b.slots[i], Which(fs, b, i));
    }
  }

  lemma {:induction false} SameTransitiveV(f: Field, a: Value, b: Value, c: Value)
    requires FitsV(f.ltype, f.dataSize, a) && FitsV(f.ltype, f.dataSize, b) && FitsV(f.ltype, f.dataSize, c)
    requires SameV(f.ltype, f.dataSize, a, b) && SameV(f.ltype, f.dataSize, b, c)
    ensures SameV(f.ltype, f.dataSize, a, c)
    decreases f, 0
  {
    if f.ltype.Submessage? {
      SameTransitive(f.ltype.fields, a.msg, b.msg, c.msg);
    }
  }

  lemma {:induction false} SameTransitiveS(f: Field, a: Slot, wa: nat, b: Slot, wb: nat, c: Slot, wc: nat)
    requires FitsS(f, a) && FitsS(f, b) && FitsS(f, c) && SameS(f, a, wa, b, wb) && SameS(f, b, wb, c, wc)
    ensures SameS(f, a, wa, c, wc)
    decreases f, 1
  {
    hide FitsV, SameV;
    if f.htype.Repeated? {
      forall k | 0 <= k < |a.items| && (a.Rep? ==> k < a.count)
        ensures SameV(f.ltype, f.dataSize, a.items[k], c.items[k])
      {
        SameTransitiveV(f, a.items[k], b.items[k], c.items[k]);
      }
    } else if (f.htype.OneOf? ==> wa == f.tag) && (a.Opt? ==> a.has) {
      SameTransitiveV(f, a.v, b.v, c.v);
    }
  }

  lemma {:induction false} SameTransitive(fs: Fields, a: Msg, b: Msg, c: Msg)
    requires FitsM(fs, a) && FitsM(fs, b) && FitsM(fs, c) && SameM(fs, a, b) && SameM(fs, b, c)
    ensures SameM(fs, a, c)
    decreases fs
  {
    hide FitsS, SameS;
    forall i | 0 <= i < |fs|
      ensures FitsS(fs[i], a.slots[i]) && FitsS(fs[i], c.slots[i])
      ensures SameS(fs[i], a.slots[i], Which(fs, a, i), c.slots[i], Which(fs, c, i))
    {
      assert FitsS(fs[i], a.slots[i]) && FitsS(fs[i], b.slots[i]) && FitsS(fs[i], c.slots[i]);
      SameTransitiveS(fs[i], a.slots[i], Which(fs, a, i), b.slots[i], Which(fs, b, i), c.slots[i], Which(fs, c, i));
    }
  }
}
