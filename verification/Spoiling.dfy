/** Why round trips need zero defaults: for every schema that has another one anywhere, a
    message that does not come back. */
module Spoiling {
  import opened Options
  import opened Schema
  import opened Encoding
  import opened Decoding
  import opened Merging
  import opened RoundTrip
  import opened Framing
  import Bounds

  /** However the structure was before the default pass, merging m into it does not give m. */
  ghost predicate Spoiled(fs: Fields, m: Msg)
    requires SchemaOk(fs) && FitsM(fs, m)
  {
    forall dest {:trigger Differs(fs, dest, m)} | FitsM(fs, dest) :: Differs(fs, dest, m)
  }

  ghost predicate Differs(fs: Fields, dest: Msg, m: Msg)
    requires SchemaOk(fs) && FitsM(fs, dest) && FitsM(fs, m)
  {
    FitsM(fs, Onto(fs, dest, m)) && !SameM(fs, m, Onto(fs, dest, m))
  }

  lemma SpoiledFor(fs: Fields, m: Msg, dest: Msg)
    requires SchemaOk(fs) && FitsM(fs, m) && FitsM(fs, dest) && Spoiled(fs, m)
    ensures FitsM(fs, Onto(fs, dest, m)) && !SameM(fs, m, Onto(fs, dest, m))
  {
    hide FitsM, SameM, Onto, SchemaOk;
    assert Differs(fs, dest, m);
  }

  // ----- the message -----

  /** A zero field but for one submessage: present, the first item, or the active member. */
  function SlotWith(f: Field, v: Value): Slot {
    var zeros := seq(f.arraySize, _ => ZeroV(f.ltype, f.dataSize));
    match f.htype
    case Repeated =>
      var items := if f.arraySize > 0 then zeros[0 := v] else zeros;
      if f.sizeOffset == 0 then FixedCount(items) else Rep(1, items)
    case Optional => if f.sizeOffset == 0 then Single(v) else Opt(true, v)
    case _ => Single(v)
  }

  /** A zero message but for that field. */
  function MessageWith(fs: Fields, i: nat, v: Value): Msg
    requires i < |fs|
  {
    Msg(ZeroM(fs).slots[i := SlotWith(fs[i], v)],
        if fs[i].htype.OneOf? then ZeroM(fs).which[UnionOf(fs, i) := fs[i].tag] else ZeroM(fs).which)
  }

  lemma SlotWithFits(f: Field, v: Value, which: nat)
    requires FieldOk(f) && (f.htype.Repeated? ==> f.arraySize > 0)
    requires FitsV(f.ltype, f.dataSize, v) && BoundedV(f.ltype, f.dataSize, v)
    ensures FitsS(f, SlotWith(f, v)) && BoundedS(f, SlotWith(f, v), which)
  {
    hide FitsV, BoundedV, ZeroV;
    ZeroBoundedV(f);
  }

  lemma ZeroBoundedV(f: Field)
    requires FieldOk(f)
    ensures FitsV(f.ltype, f.dataSize, ZeroV(f.ltype, f.dataSize)) && BoundedV(f.ltype, f.dataSize, ZeroV(f.ltype, f.dataSize))
  {
    Bounds.ZeroReadyV(f);
    Bounds.KeptBoundedV(f, ZeroV(f.ltype, f.dataSize));
  }

  lemma ZeroBounded(fs: Fields)
    requires SchemaOk(fs)
    ensures FitsM(fs, ZeroM(fs)) && BoundedM(fs, ZeroM(fs))
  {
    Bounds.ZeroKeptM(fs);
    Bounds.KeptBoundedM(fs, ZeroM(fs));
  }

  lemma MessageWithBounded(fs: Fields, i: nat, v: Value)
    requires SchemaOk(fs) && i < |fs| && (fs[i].htype.Repeated? ==> fs[i].arraySize > 0)
    requires FitsV(fs[i].ltype, fs[i].dataSize, v) && BoundedV(fs[i].ltype, fs[i].dataSize, v)
    ensures FitsM(fs, MessageWith(fs, i, v)) && BoundedM(fs, MessageWith(fs, i, v))
  {
    hide FitsS, BoundedS, FieldOk, SlotWith, ZeroM, BoundedV, FitsV;
    ZeroBounded(fs);
    ZeroWhich(fs);
    var z, m := ZeroM(fs), MessageWith(fs, i, v);
    SchemaField(fs, i);
    SlotWithFits(fs[i], v, Which(fs, m, i));
    assert FitsM(fs, m);
    forall j | 0 <= j < |fs|
      ensures BoundedS(fs[j], m.slots[j], Which(fs, m, j)) && WhichOk(fs, m, j)
    {
      assert BoundedS(fs[j], z.slots[j], Which(fs, z, j));
      if j != i {
        SchemaField(fs, j);
        OtherTag(fs, i, j);
        StillBounded(fs[j], z.slots[j], Which(fs, m, j));
      }
    }
  }

  lemma ZeroWhich(fs: Fields)
    ensures |ZeroM(fs).which| == |ZeroM(fs).slots| == |fs| && forall u | 0 <= u < |fs| :: ZeroM(fs).which[u] == 0
  {
  }

  lemma SchemaField(fs: Fields, i: nat)
    requires SchemaOk(fs) && i < |fs|
    ensures FieldOk(fs[i]) && fs[i].tag != 0
  {
  }

  lemma OtherTag(fs: Fields, i: nat, j: nat)
    requires SchemaOk(fs) && i < |fs| && j < |fs| && i != j
    ensures fs[i].tag != fs[j].tag
  {
    hide FieldOk;
  }

  lemma StillBounded(f: Field, s: Slot, which: nat)
    requires FitsS(f, s) && BoundedS(f, s, 0) && (f.htype.OneOf? ==> which != f.tag)
    ensures BoundedS(f, s, which)
  {
    hide FitsV, BoundedV;
  }

  // ----- why it does not come back -----

  /** Merging a zero message changes nothing. */
  lemma ZeroMergeStays(fs: Fields, a: Msg, m: Msg)
    requires SchemaOk(fs) && FitsM(fs, a) && FitsM(fs, m) && IsZeroM(fs, m)
    ensures FitsM(fs, MergeM(fs, a, m)) && SameM(fs, a, MergeM(fs, a, m))
  {
    hide FitsS, SameS, MergeS, FieldOk, IsZeroS;
    MergeMFits(fs, a, m);
    var y := MergeM(fs, a, m);
    forall i | 0 <= i < |fs|
      ensures FitsS(fs[i], a.slots[i]) && FitsS(fs[i], y.slots[i])
      ensures SameS(fs[i], a.slots[i], Which(fs, a, i), y.slots[i], Which(fs, y, i))
    {
      SlotFits(fs, a, i);
      SlotFits(fs, m, i);
      assert IsZeroS(fs[i], m.slots[i], Which(fs, m, i));
      ZeroSlotStays(fs[i], a.slots[i], Which(fs, a, i), m.slots[i], Which(fs, m, i));
      AlikeReflexiveS(fs[i], a.slots[i]);
      AlikeSameS(fs[i], a.slots[i], a.slots[i], Which(fs, a, i));
      ZeroWhichOnly(fs[i], a.slots[i], Which(fs, a, i), m.slots[i], Which(fs, m, i), Which(fs, y, i));
    }
  }

  lemma ZeroSlotStays(f: Field, a: Slot, wa: nat, s: Slot, ws: nat)
    requires FieldOk(f) && FitsS(f, a) && FitsS(f, s) && IsZeroS(f, s, ws)
    ensures MergeS(f, a, wa, s, ws) == a
  {
    TagNotZero(f);
    hide FitsV, FieldOk, MergeV, IsZeroV;
    if f.htype.Repeated? {
      assert MergeItems(f, a.items, a.count, s.items, 0) == a.items;
    }
  }

  lemma ZeroWhichOnly(f: Field, a: Slot, wa: nat, s: Slot, ws: nat, wy: nat)
    requires FitsS(f, a) && FitsS(f, s) && IsZeroS(f, s, ws) && SameS(f, a, wa, a, wa)
    requires wy == if ws != 0 then ws else wa
    ensures SameS(f, a, wa, a, wy)
  {
    hide FitsV, SameV, IsZeroV;
  }

  /** Where x is merged into default values, the field does not give x back. */
  lemma SpoiledItem(f: Field, x: Msg, c: Msg, v: Value)
    requires FieldOk(f) && f.ltype.Submessage? && SchemaOk(f.ltype.fields) && FitsM(f.ltype.fields, x) && FitsM(f.ltype.fields, c)
    requires Spoiled(f.ltype.fields, x) && v == Sub(Onto(f.ltype.fields, c, x))
    ensures FitsV(f.ltype, f.dataSize, Sub(x)) && FitsV(f.ltype, f.dataSize, v) && !SameV(f.ltype, f.dataSize, Sub(x), v)
  {
    hide FitsM, SameM, Onto, FieldOk, SchemaOk, Spoiled;
    SpoiledFor(f.ltype.fields, x, c);
  }

  /** The same where a zero x is not sent at all. */
  lemma SpoiledAbsent(f: Field, x: Msg, c: Msg)
    requires FieldOk(f) && f.ltype.Submessage? && SchemaOk(f.ltype.fields) && FitsM(f.ltype.fields, x) && FitsM(f.ltype.fields, c)
    requires Spoiled(f.ltype.fields, x) && IsZeroM(f.ltype.fields, x)
    ensures FitsM(f.ltype.fields, DefaultM(f.ltype.fields, c))
    ensures !SameM(f.ltype.fields, x, DefaultM(f.ltype.fields, c))
  {
    hide FitsM, SameM, MergeM, FieldOk, SchemaOk, IsZeroM, DefaultM, Spoiled;
    var fs := f.ltype.fields;
    DefaultMFits(fs, c);
    var d := DefaultM(fs, c);
    SpoiledFor(fs, x, c);
    ZeroMergeStays(fs, d, x);
    if SameM(fs, x, d) {
      SameTransitive(fs, x, d, MergeM(fs, d, x));
    }
  }

  lemma FirstItem(f: Field, a: Slot, x: Msg, ws: nat)
    requires FieldOk(f) && f.ltype.Submessage? && SchemaOk(f.ltype.fields) && f.htype.Repeated? && f.arraySize > 0
    requires FitsS(f, a) && FitsM(f.ltype.fields, x) && FitsS(f, SlotWith(f, Sub(x))) && FitsS(f, DefaultS(f, a))
    ensures FitsV(f.ltype, f.dataSize, a.items[0])
    ensures MergeS(f, DefaultS(f, a), 0, SlotWith(f, Sub(x)), ws).items[0] == Sub(Onto(f.ltype.fields, a.items[0].msg, x))
  {
    hide FitsM, MergeM, FieldOk, SchemaOk, DefaultM, ZeroV;
    assert DefaultS(f, a).items == a.items;
    assert SlotWith(f, Sub(x)).items[0] == Sub(x);
    assert MergeV(f, a.items[0], Sub(x)) == Sub(Onto(f.ltype.fields, a.items[0].msg, x));
    var s := SlotWith(f, Sub(x));
    assert MergeItems(f, a.items, 0, s.items, if s.Rep? then 1 else f.arraySize)[0] == MergeV(f, a.items[0], s.items[0]);
  }

  /** The field with the spoiled submessage is not what becomes of it, whatever storage a
      the default pass started from. */
  lemma SlotDiffers(f: Field, a: Slot, x: Msg, ws: nat)
    requires FieldOk(f) && f.ltype.Submessage? && SchemaOk(f.ltype.fields) && (f.htype.Repeated? ==> f.arraySize > 0)
    requires FitsS(f, a) && FitsM(f.ltype.fields, x) && Spoiled(f.ltype.fields, x) && (f.htype.OneOf? ==> ws == f.tag)
    requires FitsS(f, SlotWith(f, Sub(x))) && FitsS(f, DefaultS(f, a))
    ensures var y := MergeS(f, DefaultS(f, a), 0, SlotWith(f, Sub(x)), ws);
            FitsS(f, y) && !SameS(f, SlotWith(f, Sub(x)), ws, y, ws)
  {
    hide FitsM, SameM, MergeM, FieldOk, SchemaOk, IsZeroM, DefaultM, ZeroV, ZeroM, Spoiled;
    var fs, s, d := f.ltype.fields, SlotWith(f, Sub(x)), DefaultS(f, a);
    MergeSFits(f, d, 0, s, ws);
    var y := MergeS(f, d, 0, s, ws);
    if f.htype.Repeated? {
      FirstItem(f, a, x, ws);
      SpoiledItem(f, x, a.items[0].msg, y.items[0]);
      assert s.items[0] == Sub(x);
    } else if f.htype.OneOf? {
      ZeroMFits(fs);
      TagNotZero(f);
      assert y.v == Sub(Onto(fs, ZeroM(fs), x));
      SpoiledItem(f, x, ZeroM(fs), y.v);
    } else if Present(f, s, ws) {
      assert y.v == Sub(Onto(fs, a.v.msg, x));
      SpoiledItem(f, x, a.v.msg, y.v);
    } else {
      assert y.v == Sub(DefaultM(fs, a.v.msg));
      SpoiledAbsent(f, x, a.v.msg);
    }
  }

  lemma FieldSpoils(fs: Fields, i: nat, x: Msg)
    requires SchemaOk(fs) && i < |fs| && FieldOk(fs[i]) && fs[i].ltype.Submessage? && SchemaOk(fs[i].ltype.fields)
    requires fs[i].htype.Repeated? ==> fs[i].arraySize > 0
    requires FitsM(fs[i].ltype.fields, x) && Spoiled(fs[i].ltype.fields, x)
    requires FitsM(fs, MessageWith(fs, i, Sub(x)))
    ensures Spoiled(fs, MessageWith(fs, i, Sub(x)))
  {
    hide SlotWith, SameS, MergeS, FieldOk, Spoiled, DefaultS, FitsM, SchemaOk, Differs, MessageWith;
    var f, m := fs[i], MessageWith(fs, i, Sub(x));
    forall dest | FitsM(fs, dest)
      ensures Differs(fs, dest, m)
    {
      SpoilsOnto(fs, i, x, dest);
    }
    AllDiffer(fs, m);
  }

  lemma AllDiffer(fs: Fields, m: Msg)
    requires SchemaOk(fs) && FitsM(fs, m) && forall dest {:trigger Differs(fs, dest, m)} | FitsM(fs, dest) :: Differs(fs, dest, m)
    ensures Spoiled(fs, m)
  {
  }

  lemma SpoilsOnto(fs: Fields, i: nat, x: Msg, dest: Msg)
    requires SchemaOk(fs) && i < |fs| && FieldOk(fs[i]) && fs[i].ltype.Submessage? && SchemaOk(fs[i].ltype.fields)
    requires fs[i].htype.Repeated? ==> fs[i].arraySize > 0
    requires FitsM(fs[i].ltype.fields, x) && Spoiled(fs[i].ltype.fields, x)
    requires FitsM(fs, MessageWith(fs, i, Sub(x))) && FitsM(fs, dest)
    ensures Differs(fs, dest, MessageWith(fs, i, Sub(x)))
  {
    hide SlotWith, SameS, MergeS, FieldOk, Spoiled, DefaultS, FitsS, SchemaOk, ZeroM;
    var f, m := fs[i], MessageWith(fs, i, Sub(x));
    ZeroWhich(fs);
    DefaultMFits(fs, dest);
    var d := DefaultM(fs, dest);
    MergeMFits(fs, d, m);
    var y := MergeM(fs, d, m);
    SlotFits(fs, dest, i);
    SlotFits(fs, d, i);
    SlotFits(fs, m, i);
    SchemaField(fs, i);
    SlotDiffers(f, dest.slots[i], x, Which(fs, m, i));
    assert y.slots[i] == MergeS(f, d.slots[i], 0, m.slots[i], Which(fs, m, i));
    OnlyWhich(f, m.slots[i], Which(fs, m, i), y.slots[i], Which(fs, y, i));
    assert !SameS(f, m.slots[i], Which(fs, m, i), y.slots[i], Which(fs, y, i));
  }

  lemma OnlyWhich(f: Field, s: Slot, ws: nat, y: Slot, wy: nat)
    requires FitsS(f, s) && FitsS(f, y) && (f.htype.OneOf? ==> ws == wy)
    ensures SameS(f, s, ws, y, wy) == SameS(f, s, ws, y, ws)
  {
    hide FitsV, SameV;
  }

  /** A top-level field whose default is not zero spoils the zero message. */
  lemma DefaultSpoils(fs: Fields, i: nat)
    requires SchemaOk(fs) && i < |fs| && !fs[i].ltype.Submessage? && !ZeroDefaultsF(fs[i])
    ensures FitsM(fs, ZeroM(fs)) && Spoiled(fs, ZeroM(fs))
  {
    ZeroMFits(fs);
    forall dest | FitsM(fs, dest)
      ensures Differs(fs, dest, ZeroM(fs))
    {
      DefaultMFits(fs, dest);
      MergeMFits(fs, DefaultM(fs, dest), ZeroM(fs));
      DefaultShows(fs, dest, i);
    }
  }

  lemma {:induction false} SpoiledSubmessage(f: Field) returns (x: Msg)
    requires FieldOk(f) && f.ltype.Submessage? && SchemaOk(f.ltype.fields) && !ZeroDefaults(f.ltype.fields)
    ensures FitsM(f.ltype.fields, x) && BoundedM(f.ltype.fields, x) && Spoiled(f.ltype.fields, x)
    decreases f
  {
    hide FitsM, BoundedM, Spoiled, FieldOk, SchemaOk, ZeroDefaults;
    x := SpoiledMessage(f.ltype.fields);
  }

  /** For every schema with a default other than zero, at any depth, a message within its
      bounds that no structure gives back. */
  lemma {:induction false} SpoiledMessage(fs: Fields) returns (m: Msg)
    requires SchemaOk(fs) && !ZeroDefaults(fs)
    ensures FitsM(fs, m) && BoundedM(fs, m) && Spoiled(fs, m)
    decreases fs
  {
    hide FitsM, BoundedM, Spoiled, FieldOk, ZeroM, MessageWith;
    var i :| 0 <= i < |fs| && !ZeroDefaultsF(fs[i]);
    SchemaField(fs, i);
    if fs[i].ltype.Submessage? {
      SubmessageOk(fs[i]);
      var x := SpoiledSubmessage(fs[i]);
      MessageWithBounded(fs, i, Sub(x));
      FieldSpoils(fs, i, x);
      m := MessageWith(fs, i, Sub(x));
    } else {
      ZeroBounded(fs);
      DefaultSpoils(fs, i);
      m := ZeroM(fs);
    }
  }

  /** Exactly when the round trip holds: for every schema whose bounded messages are short
      enough to send, every message comes back iff no proto3 singular field, at any depth,
      has a default other than zero. */
  lemma RoundTripExactly(fs: Fields, dest: Msg)
    requires SchemaOk(fs) && FitsM(fs, dest)
    requires forall m | FitsM(fs, m) && BoundedM(fs, m) :: Sendable(fs, m)
    ensures (forall m | Sendable(fs, m) :: Recovers(fs, dest, m)) <==> ZeroDefaults(fs)
  {
    hide SchemaOk, Sendable, Recovers, ZeroDefaults, FitsM, BoundedM, Onto, SameM;
    if ZeroDefaults(fs) {
      forall m | Sendable(fs, m) ensures Recovers(fs, dest, m) { DecodeRoundTrip(fs, dest, m); }
    } else {
      var m := SpoiledMessage(fs);
      assert Differs(fs, dest, m);
      RecoversExactly(fs, dest, m);
    }
  }
}
