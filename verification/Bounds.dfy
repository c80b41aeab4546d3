/** What the decoder leaves in the message, whatever the input: counts within their
    arrays, sizes within their buffers, strings terminated, unions well tagged. */
module Bounds {
  import opened Options
  import opened Wire
  import opened Schema
  import opened Encoding
  import opened Decoding
  import opened Framing
  import opened Acceptance
  import Merging
  import RoundTrip

  /** Like `BoundedV`, but absent optional data counts too. The items of fixed-count
      arrays, which have no count and which the default pass does not set, count only as
      part of the `whole`. */
  ghost predicate KeptV(whole: bool, lt: LType, size: nat, v: Value)
    requires FitsV(lt, size, v)
    decreases lt
  {
    match lt
    case Submessage(fs) => KeptM(whole, fs, v.msg)
    case _ => BoundedV(lt, size, v)
  }

  ghost predicate KeptS(whole: bool, f: Field, s: Slot, which: nat)
    requires FitsS(f, s)
    decreases f
  {
    match f.htype
    case Required => KeptV(whole, f.ltype, f.dataSize, s.v)
    case Optional => KeptV(whole, f.ltype, f.dataSize, s.v)
    case OneOf => which == f.tag ==> KeptV(whole, f.ltype, f.dataSize, s.v)
    case Repeated =>
      if s.Rep? then
        && s.count <= f.arraySize
        && (forall k | 0 <= k < s.count :: KeptV(whole, f.ltype, f.dataSize, s.items[k]))
        && (whole ==> forall k | 0 <= k < |s.items| :: ReadyV(f.ltype, f.dataSize, s.items[k]))
      else whole ==> forall k | 0 <= k < |s.items| :: KeptV(whole, f.ltype, f.dataSize, s.items[k])
  }

  ghost predicate KeptM(whole: bool, fs: Fields, m: Msg)
    requires FitsM(fs, m)
    decreases fs
  {
    forall i | 0 <= i < |fs| :: KeptS(whole, fs[i], m.slots[i], Which(fs, m, i)) && WhichOk(fs, m, i)
  }

  /** Storage in which whatever the default pass leaves alone is within its bounds: the
      items of fixed-count arrays, at any depth. */
  ghost predicate ReadyV(lt: LType, size: nat, v: Value)
    requires FitsV(lt, size, v)
    decreases lt
  {
    match lt
    case Submessage(fs) => ReadyM(fs, v.msg)
    case _ => true
  }

  ghost predicate ReadyS(f: Field, s: Slot)
    requires FitsS(f, s)
    decreases f
  {
    match f.htype
    case Required => ReadyV(f.ltype, f.dataSize, s.v)
    case Optional => ReadyV(f.ltype, f.dataSize, s.v)
    case OneOf => true
    case Repeated =>
      forall k | 0 <= k < |s.items| ::
        if s.Rep? then ReadyV(f.ltype, f.dataSize, s.items[k]) else KeptV(true, f.ltype, f.dataSize, s.items[k])
  }

  ghost predicate ReadyM(fs: Fields, m: Msg)
    requires FitsM(fs, m)
    decreases fs
  {
    forall i | 0 <= i < |fs| :: ReadyS(fs[i], m.slots[i])
  }

  /** A message that is within its bounds as a whole can be used as storage again. */
  lemma {:induction false} KeptReadyV(f: Field, v: Value)
    requires FitsV(f.ltype, f.dataSize, v) && KeptV(true, f.ltype, f.dataSize, v)
    ensures ReadyV(f.ltype, f.dataSize, v)
    decreases f, 0
  {
    if f.ltype.Submessage? {
      forall i | 0 <= i < |f.ltype.fields|
        ensures ReadyS(f.ltype.fields[i], v.msg.slots[i])
      {
        assert KeptS(true, f.ltype.fields[i], v.msg.slots[i], Which(f.ltype.fields, v.msg, i));
        KeptReadyS(f.ltype.fields[i], v.msg.slots[i], Which(f.ltype.fields, v.msg, i));
      }
    }
  }

  lemma {:induction false} KeptReadyS(f: Field, s: Slot, which: nat)
    requires FitsS(f, s) && KeptS(true, f, s, which)
    ensures ReadyS(f, s)
    decreases f, 1
  {
    hide KeptV, ReadyV, FitsV;
    if f.htype.Required? || f.htype.Optional? {
      KeptReadyV(f, s.v);
    }
  }

  /** Zeroed storage is ready. */
  lemma {:induction false} ZeroReadyV(f: Field)
    requires FieldOk(f)
    ensures var z := ZeroV(f.ltype, f.dataSize);
            FitsV(f.ltype, f.dataSize, z) && KeptV(true, f.ltype, f.dataSize, z) && ReadyV(f.ltype, f.dataSize, z)
    decreases f, 0
  {
    ZeroVFits(f.ltype, f.dataSize);
    ZeroStrLen(f.dataSize);
    if f.ltype.Submessage? {
      ZeroKeptM(f.ltype.fields);
      KeptReadyV(f, ZeroV(f.ltype, f.dataSize));
    }
  }

  lemma {:induction false} ZeroKeptM(fs: Fields)
    requires SchemaOk(fs)
    ensures FitsM(fs, ZeroM(fs)) && KeptM(true, fs, ZeroM(fs)) && ReadyM(fs, ZeroM(fs))
    decreases fs
  {
    hide KeptV, ReadyV, FitsV, FieldOk;
    ZeroMFits(fs);
    forall i | 0 <= i < |fs|
      ensures KeptS(true, fs[i], ZeroM(fs).slots[i], 0) && ReadyS(fs[i], ZeroM(fs).slots[i])
    {
      ZeroReadyV(fs[i]);
      ZeroSFits(fs[i]);
      assert ZeroM(fs).slots[i] == ZeroS(fs[i]);
    }
  }

  // ----- the default pass establishes it -----

  lemma {:induction false} ZeroStrLen(n: nat)
    ensures StrLen(Zeros(n)) == 0
  {
  }

  lemma {:induction false} DefaultKeptV(whole: bool, f: Field, v: Value)
    requires FieldOk(f) && FitsV(f.ltype, f.dataSize, v)
    requires whole ==> ReadyV(f.ltype, f.dataSize, v)
    ensures FitsV(f.ltype, f.dataSize, DefaultV(f, v)) && KeptV(whole, f.ltype, f.dataSize, DefaultV(f, v))
    decreases f, 0
  {
    match f.ltype
    case Submessage(fs) =>
      DefaultMFits(fs, v.msg);
      DefaultKeptM(whole, fs, v.msg);
    case _ =>
      ZeroVFits(f.ltype, f.dataSize);
      ZeroStrLen(f.dataSize);
  }

  lemma {:induction false} DefaultKeptS(whole: bool, f: Field, s: Slot)
    requires FieldOk(f) && FitsS(f, s)
    requires whole ==> ReadyS(f, s)
    ensures FitsS(f, DefaultS(f, s)) && KeptS(whole, f, DefaultS(f, s), 0)
    decreases f, 1
  {
    hide DefaultV, KeptV, ReadyV;
    DefaultSFits(f, s);
    if s.Single? || s.Opt? {
      if !f.htype.OneOf? {
        DefaultKeptV(whole, f, s.v);
      }
    }
  }

  lemma {:induction false} DefaultKeptM(whole: bool, fs: Fields, m: Msg)
    requires SchemaOk(fs) && FitsM(fs, m)
    requires whole ==> ReadyM(fs, m)
    ensures FitsM(fs, DefaultM(fs, m)) && KeptM(whole, fs, DefaultM(fs, m))
    decreases fs
  {
    hide KeptV, DefaultV, ReadyS;
    DefaultMFits(fs, m);
    forall i | 0 <= i < |fs|
      ensures KeptS(whole, fs[i], DefaultM(fs, m).slots[i], 0)
    {
      SlotFits(fs, m, i);
      DefaultKeptS(whole, fs[i], m.slots[i]);
    }
  }

  // ----- every record keeps it -----

  /** A decoded item is within its bounds; only a merged submessage depends on what was there. */
  lemma {:induction false} DecVKept(whole: bool, f: Field, was: Value, s: bytes)
    requires FieldOk(f) && FitsV(f.ltype, f.dataSize, was) && DecV(f, was, s).Got?
    requires f.ltype.Submessage? && !f.htype.Repeated? ==> KeptV(whole, f.ltype, f.dataSize, was)
    requires whole && f.htype.Repeated? ==> ReadyV(f.ltype, f.dataSize, was)
    ensures KeptV(whole, f.ltype, f.dataSize, DecV(f, was, s).value)
    decreases |s|, 0
  {
    hide Varint32, Varint64, Delimited, DecInt, FieldOk, DecM;
    match f.ltype
    case Submessage(fs) =>
      RoundTrip.SubmessageOk(f);
      if f.htype.Repeated? {
        DefaultKeptM(whole, fs, was.msg);
      }
      var base := if f.htype.Repeated? then DefaultM(fs, was.msg) else was.msg;
      DecMKept(whole, fs, base, Delimited(s).value);
    case String =>
      var n, rest := Varint32(s).value, Varint32(s).rest;
      StoredStringEnds(rest[..n], was.chars[n + 1..]);
    case _ =>
  }

  lemma StoredStringEnds(s: bytes, junk: bytes)
    ensures StrLen(s + [0] + junk) <= |s|
  {
    var all := s + [0] + junk;
    assert all[|s|] == 0;
  }

  lemma {:induction false} DecPackedKept(whole: bool, f: Field, items: seq<Value>, count: nat, s: bytes)
    requires FieldOk(f) && FitsItems(f, items) && count <= f.arraySize && Packable(f.ltype)
    requires forall k | 0 <= k < count :: KeptV(whole, f.ltype, f.dataSize, items[k])
    requires DecPacked(f, items, count, s).Got?
    ensures var (items', n) := DecPacked(f, items, count, s).value;
            && (forall k | 0 <= k < n :: KeptV(whole, f.ltype, f.dataSize, items'[k]))
            && (forall k | n <= k < |items| :: items'[k] == items[k])
    decreases |s|, 1
  {
    hide DecV, FieldOk, FitsV;
    if s != [] && count < f.arraySize {
      DecVKept(whole, f, items[count], s);
      DecPackedKept(whole, f, items[count := DecV(f, items[count], s).value], count + 1, DecV(f, items[count], s).rest);
    }
  }

  lemma {:induction false} DecArrayKept(whole: bool, f: Field, items: seq<Value>, count: nat, wt: WireType, s: bytes)
    requires FieldOk(f) && FitsItems(f, items) && count <= f.arraySize && f.htype.Repeated?
    requires forall k | 0 <= k < count :: KeptV(whole, f.ltype, f.dataSize, items[k])
    requires whole ==> forall k | 0 <= k < |items| :: ReadyV(f.ltype, f.dataSize, items[k])
    requires DecArray(f, items, count, wt, s).Got?
    ensures var (items', n) := DecArray(f, items, count, wt, s).value;
            && n <= f.arraySize
            && (forall k | 0 <= k < n :: KeptV(whole, f.ltype, f.dataSize, items'[k]))
            && (forall k | n <= k < |items| :: items'[k] == items[k])
            && (whole ==> forall k | 0 <= k < |items| :: ReadyV(f.ltype, f.dataSize, items'[k]))
    decreases |s|, 2
  {
    hide DecV, FieldOk, FitsV, KeptV, DecPacked, Delimited;
    if wt == WtString && Packable(f.ltype) {
      DecPackedKept(whole, f, items, count, Delimited(s).value);
      PackableReady(f, DecArray(f, items, count, wt, s).value.0);
    } else {
      DecVKept(whole, f, items[count], s);
      if whole {
        KeptReadyV(f, DecV(f, items[count], s).value);
      }
    }
  }

  lemma PackableReady(f: Field, items: seq<Value>)
    requires Packable(f.ltype) && forall k | 0 <= k < |items| :: FitsV(f.ltype, f.dataSize, items[k])
    ensures forall k | 0 <= k < |items| :: ReadyV(f.ltype, f.dataSize, items[k])
  {
    hide FitsV;
  }

  lemma AllReady(f: Field, items: seq<Value>)
    requires forall k | 0 <= k < |items| :: FitsV(f.ltype, f.dataSize, items[k]) && KeptV(true, f.ltype, f.dataSize, items[k])
    ensures forall k | 0 <= k < |items| :: ReadyV(f.ltype, f.dataSize, items[k])
  {
    forall k | 0 <= k < |items|
      ensures ReadyV(f.ltype, f.dataSize, items[k])
    {
      KeptReadyV(f, items[k]);
    }
  }

  lemma WhichAfter(fs: Fields, m: Msg, i: nat, v: Value, j: nat)
    requires FitsM(fs, m) && i < |fs| && j < |fs| && fs[i].htype.OneOf? && WhichOk(fs, m, j)
    ensures WhichOk(fs, Msg(m.slots[i := Single(v)], m.which[UnionOf(fs, i) := fs[i].tag]), j)
  {
    hide FitsS;
  }

  lemma MemberKept(whole: bool, fs: Fields, m: Msg, i: nat, v: Value)
    requires SchemaOk(fs) && FitsM(fs, m) && KeptM(whole, fs, m) && i < |fs| && fs[i].htype.OneOf?
    requires FitsV(fs[i].ltype, fs[i].dataSize, v) && KeptV(whole, fs[i].ltype, fs[i].dataSize, v)
    ensures var m' := Msg(m.slots[i := Single(v)], m.which[UnionOf(fs, i) := fs[i].tag]);
            FitsM(fs, m') && KeptM(whole, fs, m')
  {
    hide FitsV, KeptV, FieldOk, WhichOk;
    var m' := Msg(m.slots[i := Single(v)], m.which[UnionOf(fs, i) := fs[i].tag]);
    assert FitsM(fs, m');
    forall j | 0 <= j < |fs|
      ensures KeptS(whole, fs[j], m'.slots[j], Which(fs, m', j)) && WhichOk(fs, m', j)
    {
      assert KeptS(whole, fs[j], m.slots[j], Which(fs, m, j)) && WhichOk(fs, m, j);
      WhichAfter(fs, m, i, v, j);
      OtherMember(whole, fs, m, m', i, j);
    }
  }

  lemma OtherMember(whole: bool, fs: Fields, m: Msg, m': Msg, i: nat, j: nat)
    requires SchemaOk(fs) && FitsM(fs, m) && FitsM(fs, m') && i < |fs| && j < |fs| && fs[i].htype.OneOf?
    requires m'.slots == m.slots[i := m'.slots[i]] && m'.which == m.which[UnionOf(fs, i) := fs[i].tag]
    requires FitsS(fs[j], m.slots[j]) && FitsS(fs[j], m'.slots[j]) && KeptS(whole, fs[j], m.slots[j], Which(fs, m, j))
    requires FitsS(fs[i], m'.slots[i]) && KeptV(whole, fs[i].ltype, fs[i].dataSize, m'.slots[i].v)
    ensures KeptS(whole, fs[j], m'.slots[j], Which(fs, m', j))
  {
    hide FitsV, KeptV, FieldOk;
    if j != i {
      assert fs[j].tag != fs[i].tag;
    }
  }

  lemma {:induction false} DecFieldKept(whole: bool, fs: Fields, st: Progress, i: nat, wt: WireType, s: bytes)
    requires SchemaOk(fs) && FitsP(fs, st) && KeptM(whole, fs, st.msg) && i < |fs|
    requires DecField(fs, st, i, wt, s).Got?
    ensures KeptM(whole, fs, DecField(fs, st, i, wt, s).value.msg)
    decreases |s|, 4
  {
    hide DecV, FieldOk, FitsV, KeptV, DecArray, DefaultM, WhichOk;
    SlotFits(fs, st.msg, i);
    var f, slot, m := fs[i], st.msg.slots[i], st.msg;
    assert KeptS(whole, f, slot, Which(fs, m, i));
    if f.htype.OneOf? {
      var base := UnionBase(f, slot.v, Which(fs, m, i));
      UnionBaseFits(f, slot.v, Which(fs, m, i));
      UnionBaseKept(whole, f, slot, Which(fs, m, i));
      DecVKept(whole, f, base, s);
      MemberKept(whole, fs, m, i, DecV(f, base, s).value);
    } else {
      SlotKept(whole, fs, st, i, wt, s);
      OtherSlots(whole, fs, m, DecField(fs, st, i, wt, s).value.msg, i);
    }
  }

  lemma OtherSlots(whole: bool, fs: Fields, m: Msg, m': Msg, i: nat)
    requires FitsM(fs, m) && FitsM(fs, m') && KeptM(whole, fs, m) && i < |fs| && m'.which == m.which
    requires m'.slots == m.slots[i := m'.slots[i]]
    requires FitsS(fs[i], m'.slots[i]) && KeptS(whole, fs[i], m'.slots[i], Which(fs, m', i))
    ensures KeptM(whole, fs, m')
  {
    hide FitsS, KeptS;
    forall j | 0 <= j < |fs|
      ensures KeptS(whole, fs[j], m'.slots[j], Which(fs, m', j)) && WhichOk(fs, m', j)
    {
      assert KeptS(whole, fs[j], m.slots[j], Which(fs, m, j)) && WhichOk(fs, m, j);
    }
  }

  lemma UnionBaseKept(whole: bool, f: Field, s: Slot, which: nat)
    requires FieldOk(f) && f.htype.OneOf? && FitsS(f, s) && KeptS(whole, f, s, which)
    requires FitsV(f.ltype, f.dataSize, UnionBase(f, s.v, which))
    ensures f.ltype.Submessage? ==> KeptV(whole, f.ltype, f.dataSize, UnionBase(f, s.v, which))
  {
    if f.ltype.Submessage? && which != f.tag {
      ZeroMFits(f.ltype.fields);
      ZeroKeptM(f.ltype.fields);
      DefaultKeptM(whole, f.ltype.fields, ZeroM(f.ltype.fields));
    }
  }

  lemma {:induction false} SlotKept(whole: bool, fs: Fields, st: Progress, i: nat, wt: WireType, s: bytes)
    requires SchemaOk(fs) && FitsP(fs, st) && i < |fs| && !fs[i].htype.OneOf?
    requires FieldOk(fs[i]) && FitsS(fs[i], st.msg.slots[i]) && KeptS(whole, fs[i], st.msg.slots[i], Which(fs, st.msg, i))
    requires DecField(fs, st, i, wt, s).Got?
    ensures var m' := DecField(fs, st, i, wt, s).value.msg;
            FitsS(fs[i], m'.slots[i]) && KeptS(whole, fs[i], m'.slots[i], Which(fs, m', i)) && m'.which == st.msg.which
            && m'.slots == st.msg.slots[i := m'.slots[i]]
    decreases |s|, 3
  {
    hide DecV, FieldOk, FitsV, KeptV, DecArray, DefaultM;
    var f, slot := fs[i], st.msg.slots[i];
    match f.htype
    case Required => DecVKept(whole, f, slot.v, s);
    case Optional => DecVKept(whole, f, slot.v, s);
    case Repeated =>
      if f.sizeOffset != 0 {
        DecArrayKept(whole, f, slot.items, slot.count, wt, s);
      } else if whole {
        AllReady(f, slot.items);
        DecArrayKept(whole, f, slot.items, EnterFixed(fs, st, i).value.fixedSize, wt, s);
      }
  }

  lemma {:induction false} LoopKept(whole: bool, fs: Fields, st: Progress, s: bytes)
    requires SchemaOk(fs) && FitsP(fs, st) && KeptM(whole, fs, st.msg) && Loop(fs, st, s).Got?
    ensures KeptM(whole, fs, Loop(fs, st, s).value.msg)
    decreases |s|, 5
  {
    hide DecField, KeptM, ReadHeader, SkipField, Varint32, SchemaOk;
    if s != [] && ReadHeader(s).FieldHeader? {
      var h := ReadHeader(s);
      var p := Dispatch(fs, st, h.tag, h.wt, h.rest);
      if IndexOf(fs, h.tag) < |fs| {
        DecFieldKept(whole, fs, st, IndexOf(fs, h.tag), h.wt, h.rest);
      }
      LoopKept(whole, fs, p.value, p.rest);
    }
  }

  lemma {:induction false} DecMKept(whole: bool, fs: Fields, m: Msg, s: bytes)
    requires SchemaOk(fs) && FitsM(fs, m) && KeptM(whole, fs, m) && DecM(fs, m, s).Got?
    ensures KeptM(whole, fs, DecM(fs, m, s).value)
    decreases |s|, 6
  {
    hide Loop, KeptM, Accept;
    LoopKept(whole, fs, Start(m), s);
  }

  /** Whatever the input, a message that pb_decode accepts is within its bounds: as a whole
      if the structure's fixed-count arrays were, and without them in any case. */
  lemma DecodeKept(fs: Fields, dest: Msg, s: bytes)
    requires SchemaOk(fs) && FitsM(fs, dest) && Decode(fs, dest, s).Got?
    ensures KeptM(false, fs, Decode(fs, dest, s).value)
    ensures ReadyM(fs, dest) ==> KeptM(true, fs, Decode(fs, dest, s).value)
  {
    hide DecM, KeptM;
    DefaultKeptM(false, fs, dest);
    DecMKept(false, fs, DefaultM(fs, dest), s);
    if ReadyM(fs, dest) {
      DefaultKeptM(true, fs, dest);
      DecMKept(true, fs, DefaultM(fs, dest), s);
    }
  }

  // ----- the stray counts of the default pass -----

  /** b is a with some of it set to zero: characters, sizes, has-flags, counts and
      which-members, each as a whole; numbers may be anything. That is what a count of zero
      does that is written over an array. */
  ghost predicate ZeroedV(lt: LType, size: nat, a: Value, b: Value)
    requires FitsV(lt, size, a) && FitsV(lt, size, b)
    decreases lt
  {
    match lt
    case String => forall p | 0 <= p < size :: b.chars[p] == a.chars[p] || b.chars[p] == 0
    case Bytes => b.size == a.size || b.size == 0
    case Submessage(fs) => ZeroedM(fs, a.msg, b.msg)
    case _ => true
  }

  ghost predicate ZeroedS(f: Field, a: Slot, b: Slot)
    requires FitsS(f, a) && FitsS(f, b)
    decreases f
  {
    if f.htype.Repeated? then
      && (a.Rep? ==> b.count == a.count || b.count == 0)
      && forall k | 0 <= k < |a.items| :: ZeroedV(f.ltype, f.dataSize, a.items[k], b.items[k])
    else (a.Opt? ==> b.has == a.has || !b.has) && ZeroedV(f.ltype, f.dataSize, a.v, b.v)
  }

  ghost predicate ZeroedM(fs: Fields, a: Msg, b: Msg)
    requires FitsM(fs, a) && FitsM(fs, b)
    decreases fs
  {
    && (forall i | 0 <= i < |fs| :: ZeroedS(fs[i], a.slots[i], b.slots[i]))
    && (forall u | 0 <= u < |fs| :: b.which[u] == a.which[u] || b.which[u] == 0)
  }

  lemma ZeroedStrLen(a: bytes, b: bytes)
    requires |a| == |b| && forall p | 0 <= p < |a| :: b[p] == a[p] || b[p] == 0
    ensures StrLen(b) <= StrLen(a)
  {
  }

  lemma {:induction false} ZeroedKeptV(f: Field, a: Value, b: Value)
    requires FieldOk(f) && FitsV(f.ltype, f.dataSize, a) && FitsV(f.ltype, f.dataSize, b)
    requires ZeroedV(f.ltype, f.dataSize, a, b)
    ensures KeptV(true, f.ltype, f.dataSize, a) ==> KeptV(true, f.ltype, f.dataSize, b)
    ensures ReadyV(f.ltype, f.dataSize, a) ==> ReadyV(f.ltype, f.dataSize, b)
    decreases f, 0
  {
    match f.ltype
    case String => ZeroedStrLen(a.chars, b.chars);
    case Submessage(fs) => ZeroedKept(fs, a.msg, b.msg);
    case _ =>
  }

  lemma {:induction false} ZeroedKeptS(f: Field, a: Slot, wa: nat, b: Slot, wb: nat)
    requires FieldOk(f) && FitsS(f, a) && FitsS(f, b) && ZeroedS(f, a, b) && (wb == wa || wb == 0)
    ensures KeptS(true, f, a, wa) ==> KeptS(true, f, b, wb)
    ensures ReadyS(f, a) ==> ReadyS(f, b)
    decreases f, 1
  {
    Merging.TagNotZero(f);
    hide FitsV, KeptV, ReadyV, ZeroedV, FieldOk;
    if f.htype.Repeated? {
      forall k | 0 <= k < |a.items|
        ensures KeptV(true, f.ltype, f.dataSize, a.items[k]) ==> KeptV(true, f.ltype, f.dataSize, b.items[k])
        ensures ReadyV(f.ltype, f.dataSize, a.items[k]) ==> ReadyV(f.ltype, f.dataSize, b.items[k])
      {
        ZeroedKeptV(f, a.items[k], b.items[k]);
      }
    } else {
      ZeroedKeptV(f, a.v, b.v);
    }
  }

  /** Setting things to zero keeps a message within its bounds, and storage ready. */
  lemma {:induction false} ZeroedKept(fs: Fields, a: Msg, b: Msg)
    requires SchemaOk(fs) && FitsM(fs, a) && FitsM(fs, b) && ZeroedM(fs, a, b)
    ensures KeptM(true, fs, a) ==> KeptM(true, fs, b)
    ensures ReadyM(fs, a) ==> ReadyM(fs, b)
    decreases fs
  {
    hide FitsS, KeptS, ReadyS, ZeroedS, FieldOk;
    forall i | 0 <= i < |fs|
      ensures FitsS(fs[i], a.slots[i]) && FitsS(fs[i], b.slots[i])
      ensures KeptS(true, fs[i], a.slots[i], Which(fs, a, i)) ==> KeptS(true, fs[i], b.slots[i], Which(fs, b, i))
      ensures ReadyS(fs[i], a.slots[i]) ==> ReadyS(fs[i], b.slots[i])
      ensures WhichOk(fs, a, i) ==> WhichOk(fs, b, i)
    {
      SlotFits(fs, a, i);
      SlotFits(fs, b, i);
      ZeroedKeptS(fs[i], a.slots[i], Which(fs, a, i), b.slots[i], Which(fs, b, i));
      SameOrZero(fs, a, b, i);
    }
  }

  lemma SameOrZero(fs: Fields, a: Msg, b: Msg, i: nat)
    requires i < |fs| == |a.which| == |b.which| && (Which(fs, b, i) == Which(fs, a, i) || Which(fs, b, i) == 0)
    ensures WhichOk(fs, a, i) ==> WhichOk(fs, b, i)
  {
  }

  /** What is accepted into a structure whose default values the stray counts have struck is
      within its bounds all the same, as a whole if the structure was ready. */
  lemma StruckKept(fs: Fields, dest: Msg, x: Msg, s: bytes)
    requires SchemaOk(fs) && FitsM(fs, dest) && ReadyM(fs, dest)
    requires FitsM(fs, DefaultM(fs, dest)) && FitsM(fs, x) && ZeroedM(fs, DefaultM(fs, dest), x)
    requires DecM(fs, x, s).Got?
    ensures KeptM(true, fs, DecM(fs, x, s).value)
  {
    hide DecM, KeptM, ReadyM, ZeroedM, DefaultM;
    DefaultKeptM(true, fs, dest);
    ZeroedKept(fs, DefaultM(fs, dest), x);
    DecMKept(true, fs, x, s);
  }

  // ----- fixed-count arrays that were received -----

  /** Items of fixed-count array i up to n are within their bounds. */
  ghost predicate ItemsKept(whole: bool, fs: Fields, m: Msg, i: nat, n: nat)
    requires i < |fs| && FitsM(fs, m) && FitsS(fs[i], m.slots[i]) && IsFixedCount(fs[i])
  {
    forall k | 0 <= k < n && k < |m.slots[i].items| :: KeptV(whole, fs[i].ltype, fs[i].dataSize, m.slots[i].items[k])
  }

  /** The storage of its items is ready. */
  ghost predicate ItemsReady(fs: Fields, m: Msg, i: nat)
    requires i < |fs| && FitsM(fs, m) && FitsS(fs[i], m.slots[i]) && IsFixedCount(fs[i])
  {
    forall k | 0 <= k < |m.slots[i].items| :: ReadyV(fs[i].ltype, fs[i].dataSize, m.slots[i].items[k])
  }

  /** Before the first record of array i it is not the one in progress; afterwards it is
      complete, or in progress and complete up to the count. */
  ghost predicate Receiving(whole: bool, fs: Fields, st: Progress, i: nat, arrived: bool)
    requires i < |fs| && FitsP(fs, st) && FitsS(fs[i], st.msg.slots[i]) && IsFixedCount(fs[i])
  {
    && (whole ==> ItemsReady(fs, st.msg, i))
    && (if !arrived then st.fixed != Some(i)
        else || ItemsKept(whole, fs, st.msg, i, fs[i].arraySize)
             || (st.fixed == Some(i) && ItemsKept(whole, fs, st.msg, i, st.fixedSize)))
  }

  lemma RecordReceived(whole: bool, fs: Fields, st: Progress, j: nat, wt: WireType, s: bytes, i: nat, arrived: bool)
    requires SchemaOk(fs) && FitsP(fs, st) && i < |fs| && j < |fs| && FieldOk(fs[j])
    requires FitsS(fs[i], st.msg.slots[i]) && IsFixedCount(fs[i]) && Receiving(whole, fs, st, i, arrived)
    requires DecField(fs, st, j, wt, s).Got? && FitsS(fs[i], DecField(fs, st, j, wt, s).value.msg.slots[i])
    ensures Receiving(whole, fs, DecField(fs, st, j, wt, s).value, i, arrived || j == i)
  {
    hide DecField, FieldOk, FitsS, KeptV, ReadyV;
    if j == i {
      OwnRecord(whole, fs, st, wt, s, i, arrived);
    } else {
      OtherRecord(fs, st, j, wt, s, i);
    }
  }

  lemma OwnRecord(whole: bool, fs: Fields, st: Progress, wt: WireType, s: bytes, i: nat, arrived: bool)
    requires SchemaOk(fs) && FitsP(fs, st) && i < |fs| && FieldOk(fs[i])
    requires FitsS(fs[i], st.msg.slots[i]) && IsFixedCount(fs[i]) && Receiving(whole, fs, st, i, arrived)
    requires DecField(fs, st, i, wt, s).Got? && FitsS(fs[i], DecField(fs, st, i, wt, s).value.msg.slots[i])
    ensures Receiving(whole, fs, DecField(fs, st, i, wt, s).value, i, true)
  {
    hide DecV, DecArray, FieldOk, FitsV, KeptV, ReadyV;
    var n := EnterFixed(fs, st, i).value.fixedSize;
    assert ItemsKept(whole, fs, st.msg, i, n);
    DecArrayKept(whole, fs[i], st.msg.slots[i].items, n, wt, s);
  }

  /** Another field's record leaves array i alone, which must be complete when another
      fixed-count array takes over. */
  lemma OtherRecord(fs: Fields, st: Progress, j: nat, wt: WireType, s: bytes, i: nat)
    requires SchemaOk(fs) && FitsP(fs, st) && i < |fs| && j < |fs| && i != j && FieldOk(fs[j])
    requires DecField(fs, st, j, wt, s).Got?
    ensures var st' := DecField(fs, st, j, wt, s).value;
            && st'.msg.slots[i] == st.msg.slots[i]
            && (st'.fixed == Some(i) ==> st.fixed == Some(i) && st'.fixedSize == st.fixedSize)
            && (st.fixed == Some(i) && st'.fixed != Some(i) ==> FixedComplete(fs, st))
  {
    hide DecV, DecArray, FieldOk, FitsV;
    SlotFits(fs, st.msg, j);
  }

  lemma {:induction false} LoopReceived(whole: bool, fs: Fields, st: Progress, s: bytes, i: nat, arrived: bool)
    requires SchemaOk(fs) && FitsP(fs, st) && i < |fs| && FitsS(fs[i], st.msg.slots[i]) && IsFixedCount(fs[i])
    requires Receiving(whole, fs, st, i, arrived) && Loop(fs, st, s).Got?
    ensures var end := Loop(fs, st, s).value;
            FitsS(fs[i], end.msg.slots[i]) && Receiving(whole, fs, end, i, arrived || Matched(Records(fs, st, s), i))
    decreases |s|
  {
    hide DecField, Dispatch, ItemsIn, ReadHeader, SchemaOk, Receiving, FitsS, Matched;
    SlotFits(fs, Loop(fs, st, s).value.msg, i);
    if s != [] && ReadHeader(s).FieldHeader? {
      var h := ReadHeader(s);
      var j, p := IndexOf(fs, h.tag), Dispatch(fs, st, h.tag, h.wt, h.rest);
      RecordsTurn(fs, st, s);
      SlotFits(fs, p.value.msg, i);
      if j < |fs| {
        RecordReceived(whole, fs, st, j, h.wt, h.rest, i, arrived);
        LoopReceived(whole, fs, p.value, p.rest, i, arrived || j == i);
        MatchedFirst(Record(j, ItemsIn(fs[j], h.wt, h.rest)), Records(fs, p.value, p.rest), i);
      } else {
        LoopReceived(whole, fs, p.value, p.rest, i, arrived);
      }
    } else {
      NothingMatched(i);
    }
  }

  lemma NothingMatched(i: nat)
    ensures !Matched([], i)
  {
  }

  /** A fixed-count array of which any record arrived in an accepted message is within its
      bounds in all of its items, whatever the structure held before: as a whole if the
      storage of its items was ready, and without arrays further down in any case. */
  lemma ReceivedKept(fs: Fields, m: Msg, s: bytes, i: nat)
    requires SchemaOk(fs) && FitsM(fs, m) && i < |fs| && IsFixedCount(fs[i])
    requires DecM(fs, m, s).Got? && Matched(Records(fs, Start(m), s), i)
    ensures FitsS(fs[i], m.slots[i]) && FitsS(fs[i], DecM(fs, m, s).value.slots[i])
    ensures ItemsKept(false, fs, DecM(fs, m, s).value, i, fs[i].arraySize)
    ensures ItemsReady(fs, m, i) ==> ItemsKept(true, fs, DecM(fs, m, s).value, i, fs[i].arraySize)
  {
    hide Loop, Matched, FitsS, ItemsReady;
    SlotFits(fs, m, i);
    LoopReceived(false, fs, Start(m), s, i, false);
    if ItemsReady(fs, m, i) {
      LoopReceived(true, fs, Start(m), s, i, false);
    }
  }

  // ----- what was decoded can be encoded again -----

  lemma {:induction false} KeptBoundedV(f: Field, v: Value)
    requires FitsV(f.ltype, f.dataSize, v) && KeptV(true, f.ltype, f.dataSize, v)
    ensures BoundedV(f.ltype, f.dataSize, v)
    decreases f, 0
  {
    if f.ltype.Submessage? {
      KeptBoundedM(f.ltype.fields, v.msg);
    }
  }

  lemma {:induction false} KeptBoundedS(f: Field, s: Slot, which: nat)
    requires FitsS(f, s) && KeptS(true, f, s, which)
    ensures BoundedS(f, s, which)
    decreases f, 1
  {
    hide KeptV, BoundedV, FitsV, ReadyV;
    match f.htype
    case Required => KeptBoundedV(f, s.v);
    case Optional => KeptBoundedV(f, s.v);
    case OneOf =>
      if which == f.tag {
        KeptBoundedV(f, s.v);
      }
    case Repeated =>
      var n := if s.Rep? then s.count else f.arraySize;
      forall k | 0 <= k < n
        ensures BoundedV(f.ltype, f.dataSize, s.items[k])
      {
        KeptBoundedV(f, s.items[k]);
      }
  }

  lemma {:induction false} KeptBoundedM(fs: Fields, m: Msg)
    requires FitsM(fs, m) && KeptM(true, fs, m)
    ensures BoundedM(fs, m)
    decreases fs
  {
    forall i | 0 <= i < |fs|
      ensures BoundedS(fs[i], m.slots[i], Which(fs, m, i))
    {
      KeptBoundedS(fs[i], m.slots[i], Which(fs, m, i));
    }
  }

  /** From any input: if decoding succeeds, encoding the result succeeds, and decoding
      that again, onto anything, gives the same message. Decoding is a normal form. */
  lemma DecodeEncodeDecode(fs: Fields, dest: Msg, dest': Msg, s: bytes)
    requires SchemaOk(fs) && FitsM(fs, dest) && FitsM(fs, dest') && ReadyM(fs, dest) && RoundTrip.ZeroDefaults(fs)
    requires Decode(fs, dest, s).Got?
    ensures EncM(fs, Decode(fs, dest, s).value).Some?
    ensures var e := EncM(fs, Decode(fs, dest, s).value).value;
            |e| < TWO32 ==>
              Decode(fs, dest', e).Got? && SameM(fs, Decode(fs, dest, s).value, Decode(fs, dest', e).value)
  {
    hide KeptM, BoundedM, SameM, EncM, Decode, ReadyM;
    var m := Decode(fs, dest, s).value;
    DecodeKept(fs, dest, s);
    KeptBoundedM(fs, m);
    Encodes(fs, m);
    if |EncM(fs, m).value| < TWO32 {
      DecodeRoundTrip(fs, dest', m);
    }
  }

  lemma Encodes(fs: Fields, m: Msg)
    requires SchemaOk(fs) && FitsM(fs, m) && BoundedM(fs, m)
    ensures EncM(fs, m).Some?
  {
    BoundedEncodes(fs, m, 0);
  }

  // ----- schemas without fixed-count arrays -----

  ghost predicate NoFixedCount(fs: Fields)
    decreases fs
  {
    forall i | 0 <= i < |fs| :: NoFixedCountF(fs[i])
  }

  ghost predicate NoFixedCountF(f: Field)
    decreases f
  {
    !IsFixedCount(f) && (f.ltype.Submessage? ==> NoFixedCount(f.ltype.fields))
  }

  lemma {:induction false} AlwaysReadyV(f: Field, v: Value)
    requires NoFixedCountF(f) && FitsV(f.ltype, f.dataSize, v)
    ensures ReadyV(f.ltype, f.dataSize, v)
    decreases f
  {
    if f.ltype.Submessage? {
      AlwaysReady(f.ltype.fields, v.msg);
    }
  }

  /** Without fixed-count arrays any storage is ready. */
  lemma {:induction false} AlwaysReady(fs: Fields, m: Msg)
    requires NoFixedCount(fs) && FitsM(fs, m)
    ensures ReadyM(fs, m)
    decreases fs
  {
    hide FitsV, ReadyV;
    forall i | 0 <= i < |fs|
      ensures ReadyS(fs[i], m.slots[i])
    {
      assert FitsS(fs[i], m.slots[i]);
      var f, s := fs[i], m.slots[i];
      assert NoFixedCountF(f);
      if s.Rep? {
        forall k | 0 <= k < |s.items| ensures ReadyV(f.ltype, f.dataSize, s.items[k]) { AlwaysReadyV(f, s.items[k]); }
      } else if !s.FixedCount? {
        AlwaysReadyV(f, s.v);
      }
    }
  }
}
