/** What the default pass leaves, field by field and at every depth, and what can be read of
    fields that never arrived. */
module Defaults {
  import opened Options
  import opened Wire
  import opened Schema
  import opened Decoding
  import opened Acceptance
  import opened RoundTrip
  import opened Framing
  import Merge

  // ----- the default values -----

  /** An item of zero bytes only. */
  ghost predicate AllZero(lt: LType, v: Value) {
    match lt
    case Bool => v == Flag(false)
    case Bytes => v.Buf? && v.size == 0 && forall k | 0 <= k < |v.data| :: v.data[k] == 0
    case String => v.Text? && forall k | 0 <= k < |v.chars| :: v.chars[k] == 0
    case FixedLengthBytes => v.Raw? && forall k | 0 <= k < |v.raw| :: v.raw[k] == 0
    case Submessage(_) => true
    case _ => v == Num(0)
  }

  /** v is what a field reads after the default pass, where it held w before: its declared
      default if there is one, else zero, and a submessage's fields likewise. */
  ghost predicate ReadsDefaultV(f: Field, w: Value, v: Value)
    decreases f, 0
  {
    match f.ltype
    case Submessage(fs) => w.Sub? && v.Sub? && ReadsDefaults(fs, w.msg, v.msg)
    case _ => if f.init.Some? then v == f.init.value else AllZero(f.ltype, v)
  }

  ghost predicate ReadsDefault(f: Field, w: Slot, s: Slot)
    decreases f, 1
  {
    match f.htype
    case Required => w.Single? && s.Single? && ReadsDefaultV(f, w.v, s.v)
    case Optional =>
      if f.sizeOffset == 0 then w.Single? && s.Single? && ReadsDefaultV(f, w.v, s.v)
      else w.Opt? && s.Opt? && !s.has && ReadsDefaultV(f, w.v, s.v)
    case OneOf => s == w
    case Repeated =>
      if f.sizeOffset == 0 then s == w
      else w.Rep? && s == Rep(0, w.items)
  }

  ghost predicate ReadsDefaults(fs: Fields, w: Msg, m: Msg)
    decreases fs
  {
    && |w.slots| == |m.slots| == |m.which| == |fs|
    && (forall i | 0 <= i < |fs| :: ReadsDefault(fs[i], w.slots[i], m.slots[i]))
    && (forall u | 0 <= u < |fs| :: m.which[u] == 0)
  }

  lemma ZeroIsAllZero(lt: LType, size: nat)
    ensures AllZero(lt, ZeroV(lt, size))
  {
  }

  lemma {:induction false} DefaultsReadV(f: Field, w: Value)
    requires FieldOk(f) && FitsV(f.ltype, f.dataSize, w)
    ensures ReadsDefaultV(f, w, DefaultV(f, w))
    decreases f, 0
  {
    ZeroIsAllZero(f.ltype, f.dataSize);
    if f.ltype.Submessage? {
      DefaultsRead(f.ltype.fields, w.msg);
    }
  }

  /** The default pass, at every depth it comes to and whatever the structure held. */
  lemma {:induction false} DefaultsRead(fs: Fields, w: Msg)
    requires SchemaOk(fs) && FitsM(fs, w)
    ensures ReadsDefaults(fs, w, DefaultM(fs, w))
    decreases fs
  {
    hide DefaultV, FitsV, FieldOk, ReadsDefaultV;
    var m := DefaultM(fs, w);
    forall i | 0 <= i < |fs|
      ensures ReadsDefault(fs[i], w.slots[i], m.slots[i])
    {
      SlotFits(fs, w, i);
      if fs[i].htype.Required? || fs[i].htype.Optional? {
        DefaultsReadV(fs[i], w.slots[i].v);
      }
    }
  }

  // ----- fields that never arrived -----

  lemma OtherFieldStays(fs: Fields, st: Progress, j: nat, wt: WireType, s: bytes, i: nat)
    requires SchemaOk(fs) && FitsP(fs, st) && i < |fs| && j < |fs| && i != j && DecField(fs, st, j, wt, s).Got?
    ensures var st' := DecField(fs, st, j, wt, s).value;
            && st'.msg.slots[i] == st.msg.slots[i]
            && (!fs[j].htype.OneOf? ==> st'.msg.which == st.msg.which)
            && (fs[j].htype.OneOf? ==> st'.msg.which == st.msg.which[UnionOf(fs, j) := fs[j].tag])
  {
    hide DecV, DecArray, FieldOk, FitsV;
    SlotFits(fs, st.msg, j);
  }

  /** A field of which no record arrives stays as it was. */
  lemma {:induction false} Untouched(fs: Fields, st: Progress, s: bytes, i: nat)
    requires SchemaOk(fs) && FitsP(fs, st) && i < |fs| && Loop(fs, st, s).Got? && !Matched(Records(fs, st, s), i)
    ensures Loop(fs, st, s).value.msg.slots[i] == st.msg.slots[i]
    decreases |s|
  {
    hide DecField, Dispatch, ItemsIn, ReadHeader, SchemaOk, Matched, FitsS;
    if s != [] && ReadHeader(s).FieldHeader? {
      var h := ReadHeader(s);
      var j, p := IndexOf(fs, h.tag), Dispatch(fs, st, h.tag, h.wt, h.rest);
      RecordsTurn(fs, st, s);
      if j < |fs| {
        MatchedFirst(Record(j, ItemsIn(fs[j], h.wt, h.rest)), Records(fs, p.value, p.rest), i);
        OtherFieldStays(fs, st, j, h.wt, h.rest, i);
      }
      Untouched(fs, p.value, p.rest, i);
    }
  }

  /** A union of which no member arrives keeps its which-member. */
  lemma {:induction false} UnionUntouched(fs: Fields, st: Progress, s: bytes, u: nat)
    requires SchemaOk(fs) && FitsP(fs, st) && u < |fs| && Loop(fs, st, s).Got?
    requires forall i | 0 <= i < |fs| && fs[i].htype.OneOf? && UnionOf(fs, i) == u :: !Matched(Records(fs, st, s), i)
    ensures Loop(fs, st, s).value.msg.which[u] == st.msg.which[u]
    decreases |s|
  {
    hide DecField, Dispatch, ItemsIn, ReadHeader, SchemaOk, Matched, FitsS;
    if s != [] && ReadHeader(s).FieldHeader? {
      var h := ReadHeader(s);
      var j, p := IndexOf(fs, h.tag), Dispatch(fs, st, h.tag, h.wt, h.rest);
      RecordsTurn(fs, st, s);
      if j < |fs| {
        forall i | 0 <= i < |fs| && fs[i].htype.OneOf? && UnionOf(fs, i) == u
          ensures i != j && !Matched(Records(fs, p.value, p.rest), i)
        {
          MatchedFirst(Record(j, ItemsIn(fs[j], h.wt, h.rest)), Records(fs, p.value, p.rest), i);
        }
        WhichAfterRecord(fs, st, j, h.wt, h.rest);
      }
      UnionUntouched(fs, p.value, p.rest, u);
    }
  }

  lemma WhichAfterRecord(fs: Fields, st: Progress, j: nat, wt: WireType, s: bytes)
    requires SchemaOk(fs) && FitsP(fs, st) && j < |fs| && DecField(fs, st, j, wt, s).Got?
    ensures var st' := DecField(fs, st, j, wt, s).value;
            && (!fs[j].htype.OneOf? ==> st'.msg.which == st.msg.which)
            && (fs[j].htype.OneOf? ==> st'.msg.which == st.msg.which[UnionOf(fs, j) := fs[j].tag])
  {
    hide DecV, DecArray, FieldOk, FitsV;
    SlotFits(fs, st.msg, j);
  }

  /** Through pb_decode: what never arrived reads its default, and a union of which nothing
      arrived is unset. */
  lemma NeverArrived(fs: Fields, dest: Msg, s: bytes, i: nat)
    requires SchemaOk(fs) && FitsM(fs, dest) && FitsM(fs, DefaultM(fs, dest)) && i < |fs| && Decode(fs, dest, s).Got?
    requires !Matched(Records(fs, Start(DefaultM(fs, dest)), s), i)
    ensures ReadsDefault(fs[i], dest.slots[i], Decode(fs, dest, s).value.slots[i])
    ensures (forall j | 0 <= j < |fs| && fs[j].htype.OneOf? && UnionOf(fs, j) == UnionOf(fs, i) ::
               !Matched(Records(fs, Start(DefaultM(fs, dest)), s), j))
            ==> Which(fs, Decode(fs, dest, s).value, i) == 0
  {
    hide Loop, Records, Matched, SchemaOk, DefaultM, ReadsDefault, FitsS;
    DefaultsRead(fs, dest);
    var st := Start(DefaultM(fs, dest));
    Untouched(fs, st, s, i);
    if forall j | 0 <= j < |fs| && fs[j].htype.OneOf? && UnionOf(fs, j) == UnionOf(fs, i) :: !Matched(Records(fs, st, s), j) {
      UnionUntouched(fs, st, s, UnionOf(fs, i));
    }
  }

  // ----- where the decoder itself goes back to defaults -----

  /** An empty submessage record: the item of an array starts from defaults, that of any
      other field stays as it was. */
  lemma EmptyRecord(f: Field, was: Value, tail: bytes)
    requires FieldOk(f) && f.ltype.Submessage? && SchemaOk(f.ltype.fields) && FitsV(f.ltype, f.dataSize, was)
    requires Unrequired(f.ltype.fields)
    ensures var p := DecV(f, was, [0] + tail);
            && p.Got? && p.rest == tail && p.value.Sub?
            && (if f.htype.Repeated? then ReadsDefaults(f.ltype.fields, was.msg, p.value.msg) else p.value == was)
  {
    hide DefaultM, FitsM, SchemaOk, FieldOk, Loop, ReadsDefaults;
    var fs := f.ltype.fields;
    assert ([0] + tail)[1..] == tail;
    assert Delimited([0] + tail) == Got([], tail);
    DefaultMFits(fs, was.msg);
    DefaultsRead(fs, was.msg);
    var base := if f.htype.Repeated? then DefaultM(fs, was.msg) else was.msg;
    NothingArrives(fs, base);
  }

  ghost predicate Unrequired(fs: Fields) {
    forall i | 0 <= i < |fs| :: !fs[i].htype.Required?
  }

  lemma NothingArrives(fs: Fields, m: Msg)
    requires SchemaOk(fs) && FitsM(fs, m) && Unrequired(fs)
    ensures DecM(fs, m, []) == Got(m, [])
  {
    hide Loop, SchemaOk, FitsM;
    Merge.LoopEnd(fs, Start(m));
  }

  /** A union that switches to a submessage starts it from the defaults of zeroed storage;
      one that has it already goes on with it. */
  lemma EmptySwitch(fs: Fields, st: Progress, i: nat, wt: WireType, tail: bytes)
    requires SchemaOk(fs) && FitsP(fs, st) && i < |fs| && fs[i].htype.OneOf? && FieldOk(fs[i])
    requires fs[i].ltype.Submessage? && SchemaOk(fs[i].ltype.fields) && Unrequired(fs[i].ltype.fields)
    ensures var p := DecField(fs, st, i, wt, [0] + tail);
            && p.Got? && p.rest == tail && p.value.msg.slots[i].Single? && p.value.msg.slots[i].v.Sub?
            && (if Which(fs, st.msg, i) == fs[i].tag then p.value.msg.slots[i] == st.msg.slots[i]
                else ReadsDefaults(fs[i].ltype.fields, ZeroM(fs[i].ltype.fields), p.value.msg.slots[i].v.msg))
  {
    hide DecV, DefaultM, ZeroM, FieldOk, SchemaOk, ReadsDefaults;
    var f := fs[i];
    SlotFits(fs, st.msg, i);
    ZeroMFits(f.ltype.fields);
    DefaultsRead(f.ltype.fields, ZeroM(f.ltype.fields));
    UnionBaseFits(f, st.msg.slots[i].v, Which(fs, st.msg, i));
    EmptyRecord(f, UnionBase(f, st.msg.slots[i].v, Which(fs, st.msg, i)), tail);
  }
}
