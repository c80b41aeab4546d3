/** Decoding what the encoder wrote: onto any structure it is the merge of the message, and
    onto a fresh one it gives back the message. */
module RoundTrip {
  import opened Options
  import opened Wire
  import opened Schema
  import opened Encoding
  import opened Decoding
  import opened Merging
  import Merge

  // ----- single items -----

  lemma IntRoundTrip(f: Field, v: Value, tail: bytes)
    requires FieldOk(f) && (f.ltype.Varint? || f.ltype.UVarint? || f.ltype.SVarint?)
    requires FitsV(f.ltype, f.dataSize, v)
    ensures DecInt(f, EncV(f.ltype, f.dataSize, v).value + tail) == Got(v, tail)
  {
    hide Varint64, EncVarint;
    match f.ltype
    case Varint =>
      VarintRoundTrip(Wrap64(v.n), tail);
      SignedOfWrap(v.n, f.dataSize);
    case UVarint => VarintRoundTrip(v.n, tail);
    case SVarint =>
      ZigzagRoundTrip(v.n);
      VarintRoundTrip(Zigzag(v.n), tail);
  }

  lemma SignedOfWrap(n: int, size: nat)
    requires size in {1, 2, 4, 8} && 0 - Half(size) <= n < Half(size)
    ensures Wrap64(n) < TWO64
    ensures ToSigned(Wrap64(n), if size == 8 then 8 else 4) == n
  {
    if n < 0 {
      assert Wrap64(n) == n + TWO64;
      if size != 8 {
        LowOfNegative(n);
      }
    }
  }

  lemma LowOfNegative(n: int)
    requires 0 - 0x8000_0000 <= n < 0
    ensures (n + TWO64) % TWO32 == n + TWO32
  {
    assert n + TWO64 == (n + TWO32) + 0xFFFF_FFFF * TWO32;
  }

  lemma StringRoundTrip(f: Field, was: Value, v: Value, tail: bytes)
    requires FieldOk(f) && f.ltype.String? && FitsV(f.ltype, f.dataSize, was) && FitsV(f.ltype, f.dataSize, v)
    requires StrLen(v.chars) < f.dataSize
    ensures var p := DecString(f, was, EncString(v.chars[..StrLen(v.chars)]) + tail);
            p.Got? && p.rest == tail && SameV(f.ltype, f.dataSize, v, p.value)
  {
    hide DecString, EncString, FieldOk, StrLen;
    var s := v.chars[..StrLen(v.chars)];
    StringStored(f, was, s, tail);
    StoredString(s, was.chars[|s| + 1..]);
  }

  lemma StringStored(f: Field, was: Value, s: bytes, tail: bytes)
    requires FieldOk(f) && f.ltype.String? && FitsV(f.ltype, f.dataSize, was) && |s| < f.dataSize
    ensures DecString(f, was, EncString(s) + tail) == Got(Text(s + [0] + was.chars[|s| + 1..]), tail)
  {
    hide Varint32, EncVarint, FieldOk;
    SmallSizes(f);
    assert EncString(s) + tail == EncVarint(|s|) + (s + tail);
    Varint32RoundTrip(|s|, s + tail);
    Merge.SplitLocal(s, |s|, tail);
  }

  lemma SmallSizes(f: Field)
    requires FieldOk(f)
    ensures f.dataSize <= PB_SIZE_MAX < TWO32
  {
  }

  /** The string that the decoder stores reads back up to its terminator. */
  lemma StoredString(s: bytes, junk: bytes)
    requires forall i | 0 <= i < |s| :: s[i] != 0
    ensures StrLen(s + [0] + junk) == |s| && (s + [0] + junk)[..|s|] == s
  {
    StrLenIs(s + [0] + junk, |s|);
  }

  lemma {:induction false} StrLenIs(chars: bytes, n: nat)
    requires n < |chars| && chars[n] == 0 && forall i | 0 <= i < n :: chars[i] != 0
    ensures StrLen(chars) == n
  {
  }

  lemma BytesRoundTrip(f: Field, was: Value, v: Value, tail: bytes)
    requires FieldOk(f) && f.ltype.Bytes? && FitsV(f.ltype, f.dataSize, was) && FitsV(f.ltype, f.dataSize, v)
    requires v.size <= |v.data|
    ensures var p := DecBytes(f, was, EncString(v.data[..v.size]) + tail);
            p.Got? && p.rest == tail && SameV(f.ltype, f.dataSize, v, p.value)
  {
    hide DecBytes, EncString, FieldOk;
    var s := v.data[..v.size];
    BytesStored(f, was, s, tail);
    Merge.SplitLocal(s, v.size, was.data[v.size..]);
  }

  lemma BytesStored(f: Field, was: Value, s: bytes, tail: bytes)
    requires FieldOk(f) && f.ltype.Bytes? && FitsV(f.ltype, f.dataSize, was) && |s| <= |was.data|
    ensures DecBytes(f, was, EncString(s) + tail) == Got(Buf(|s|, s + was.data[|s|..]), tail)
  {
    hide Varint32, EncVarint;
    SmallSizes(f);
    assert EncString(s) + tail == EncVarint(|s|) + (s + tail);
    Varint32RoundTrip(|s|, s + tail);
    Merge.SplitLocal(s, |s|, tail);
  }

  lemma FixedLengthRoundTrip(f: Field, v: Value, tail: bytes)
    requires FieldOk(f) && f.ltype.FixedLengthBytes? && FitsV(f.ltype, f.dataSize, v)
    ensures DecFixedLength(f, EncString(v.raw) + tail) == Got(v, tail)
  {
    hide Varint32, EncVarint;
    assert EncString(v.raw) + tail == EncVarint(|v.raw|) + (v.raw + tail);
    Varint32RoundTrip(|v.raw|, v.raw + tail);
    Merge.SplitLocal(v.raw, |v.raw|, tail);
    if |v.raw| == 0 {
      assert v.raw == Zeros(f.dataSize);
      assert v.raw + tail == tail;
    }
  }

  lemma FixedWidthRoundTrip(width: nat, v: nat, tail: bytes)
    requires (width == 4 && v < TWO32) || (width == 8 && v < TWO64)
    ensures var s := EncFixed(width, v) + tail;
            ReadWord(s[..width]) == v && s[width..] == tail
  {
    Bits.Pow2At32(32);
    Bits.Pow2At64(64);
    FixedRoundTrip(width, v);
    Merge.SplitLocal(EncFixed(width, v), width, tail);
    assert EncFixed(width, v)[..width] == EncFixed(width, v);
  }

  /** One data item: what was encoded is merged, up to `SameV`, and nothing else is read. */
  lemma {:induction false} ValueMerged(f: Field, was: Value, v: Value, b: bytes, tail: bytes)
    requires FieldOk(f) && FitsV(f.ltype, f.dataSize, was) && FitsV(f.ltype, f.dataSize, v)
    requires BoundedV(f.ltype, f.dataSize, v) && RoomV(f, was, v)
    requires EncV(f.ltype, f.dataSize, v) == Some(b) && |b| < TWO32
    ensures var p := DecV(f, was, b + tail);
            p.Got? && p.rest == tail && MergesTo(f, was, v, p.value)
    decreases f, 0
  {
    hide DecInt, DecString, DecBytes, DecFixedLength, Varint32, EncVarint, EncFixed;
    match f.ltype
    case Bool => Varint32RoundTrip(if v.b then 1 else 0, tail);
    case Fixed32 => FixedWidthRoundTrip(4, v.n, tail);
    case Fixed64 => FixedWidthRoundTrip(8, v.n, tail);
    case Bytes => BytesRoundTrip(f, was, v, tail);
    case String => StringRoundTrip(f, was, v, tail);
    case FixedLengthBytes => FixedLengthRoundTrip(f, v, tail);
    case Submessage(fs) => SubmessageMerged(f, was, v, b, tail);
    case _ => IntRoundTrip(f, v, tail);
  }

  /** w is v merged into a. */
  ghost predicate MergesTo(f: Field, a: Value, v: Value, w: Value)
    requires FieldOk(f) && FitsV(f.ltype, f.dataSize, a) && FitsV(f.ltype, f.dataSize, v) && FitsV(f.ltype, f.dataSize, w)
  {
    FitsV(f.ltype, f.dataSize, MergeV(f, a, v)) && AlikeV(f, MergeV(f, a, v), w)
  }

  lemma {:induction false} SubmessageMerged(f: Field, was: Value, v: Value, b: bytes, tail: bytes)
    requires FieldOk(f) && f.ltype.Submessage? && FitsV(f.ltype, f.dataSize, was) && FitsV(f.ltype, f.dataSize, v)
    requires BoundedV(f.ltype, f.dataSize, v) && RoomV(f, was, v)
    requires EncV(f.ltype, f.dataSize, v) == Some(b) && |b| < TWO32
    ensures var p := DecV(f, was, b + tail);
            p.Got? && p.rest == tail && MergesTo(f, was, v, p.value)
    decreases f.ltype, 0
  {
    hide DecInt, DecString, DecBytes, DecFixedLength, EncVarint, DecM, Delimited, FieldOk, MergeM, RoomM, AlikeM;
    var fs := f.ltype.fields;
    assert SchemaOk(fs) by { SubmessageOk(f); }
    var payload := EncM(fs, v.msg).value;
    DelimitedRoundTrip(payload, tail);
    BaseFits(f, was);
    MessageMerged(fs, Base(f, was).msg, v.msg, payload);
    MergeMFits(fs, Base(f, was).msg, v.msg);
  }

  lemma SubmessageOk(f: Field)
    requires FieldOk(f) && f.ltype.Submessage?
    ensures SchemaOk(f.ltype.fields)
  {
  }

  // ----- the field loop -----

  /** One of the first i fields is the member that m sends of union u. */
  ghost predicate Switched(fs: Fields, m: Msg, i: nat, u: nat)
    requires i <= |fs| == |m.which|
  {
    exists k | 0 <= k < i :: fs[k].htype.OneOf? && UnionOf(fs, k) == u && m.which[UnionOf(fs, k)] == fs[k].tag
  }

  /** Field j of m has been merged into that of a. */
  ghost predicate Done(fs: Fields, a: Msg, m: Msg, x: Msg, j: nat)
    requires FitsM(fs, a) && FitsM(fs, m) && FitsM(fs, x) && j < |fs| && FieldOk(fs[j])
    requires FitsS(fs[j], a.slots[j]) && FitsS(fs[j], m.slots[j]) && FitsS(fs[j], x.slots[j])
  {
    var s := MergeS(fs[j], a.slots[j], Which(fs, a, j), m.slots[j], Which(fs, m, j));
    && FitsS(fs[j], s)
    && AlikeS(fs[j], s, x.slots[j])
  }

  /** The first i fields of m have been merged into a, the others are still those of a. */
  ghost predicate Merged(fs: Fields, a: Msg, m: Msg, x: Msg, i: nat)
    requires SchemaOk(fs) && FitsM(fs, a) && FitsM(fs, m) && FitsM(fs, x) && i <= |fs|
  {
    && (forall j | 0 <= j < i :: Done(fs, a, m, x, j))
    && (forall j | i <= j < |fs| :: x.slots[j] == a.slots[j])
    && (forall j | 0 <= j < |fs| && fs[j].htype.OneOf? ::
          Which(fs, x, j) == if Switched(fs, m, i, UnionOf(fs, j)) then Which(fs, m, j) else Which(fs, a, j))
  }

  /** The decoder has processed exactly the records of the first i fields. */
  ghost predicate InStep(fs: Fields, a: Msg, m: Msg, st: Progress, i: nat)
    requires SchemaOk(fs) && FitsM(fs, a) && FitsM(fs, m) && i <= |fs|
  {
    && FitsP(fs, st)
    && FixedComplete(fs, st)
    && (st.fixed.Some? ==> st.fixed.value < i)
    && (forall j | 0 <= j < i :: Tracked(fs, j) ==> j in st.seen)
    && Merged(fs, a, m, st.msg, i)
  }

  lemma SwitchedNext(fs: Fields, m: Msg, i: nat, u: nat)
    requires i < |fs| == |m.which|
    ensures Switched(fs, m, i + 1, u) <==>
            Switched(fs, m, i, u) || (fs[i].htype.OneOf? && UnionOf(fs, i) == u && Which(fs, m, i) == fs[i].tag)
  {
  }

  /** The member that m sends has not been switched to before its turn. */
  lemma NotYetSwitched(fs: Fields, m: Msg, i: nat)
    requires SchemaOk(fs) && i < |fs| == |m.which| && Which(fs, m, i) == fs[i].tag
    ensures !Switched(fs, m, i, UnionOf(fs, i))
  {
    hide FieldOk;
  }

  lemma MergedSlot(fs: Fields, a: Msg, m: Msg, x: Msg, i: nat, s: Slot)
    requires SchemaOk(fs) && FitsM(fs, a) && FitsM(fs, m) && FitsM(fs, x) && i < |fs| && Merged(fs, a, m, x, i)
    requires !fs[i].htype.OneOf? && FieldOk(fs[i]) && FitsS(fs[i], s) && FitsS(fs[i], a.slots[i]) && FitsS(fs[i], m.slots[i])
    requires var e := MergeS(fs[i], a.slots[i], Which(fs, a, i), m.slots[i], Which(fs, m, i));
             FitsS(fs[i], e) && AlikeS(fs[i], e, s)
    ensures var x' := x.(slots := x.slots[i := s]);
            FitsM(fs, x') && Merged(fs, a, m, x', i + 1)
  {
    hide FitsS, AlikeS, MergeS, FieldOk, Switched;
    var x' := x.(slots := x.slots[i := s]);
    assert FitsM(fs, x');
    forall j | 0 <= j < |fs|
      ensures j != i && Done(fs, a, m, x, j) ==> Done(fs, a, m, x', j)
      ensures Which(fs, x', j) == Which(fs, x, j)
      ensures Switched(fs, m, i + 1, UnionOf(fs, j)) == Switched(fs, m, i, UnionOf(fs, j))
    {
      SwitchedNext(fs, m, i, UnionOf(fs, j));
    }
    assert Done(fs, a, m, x', i);
  }

  lemma MergedMember(fs: Fields, a: Msg, m: Msg, x: Msg, i: nat, v: Value)
    requires SchemaOk(fs) && FitsM(fs, a) && FitsM(fs, m) && FitsM(fs, x) && i < |fs| && Merged(fs, a, m, x, i)
    requires fs[i].htype.OneOf? && FieldOk(fs[i]) && FitsS(fs[i], a.slots[i]) && FitsS(fs[i], m.slots[i])
    requires Which(fs, m, i) == fs[i].tag && FitsV(fs[i].ltype, fs[i].dataSize, v)
    requires FitsV(fs[i].ltype, fs[i].dataSize, UnionBase(fs[i], a.slots[i].v, Which(fs, a, i)))
    requires MergesTo(fs[i], UnionBase(fs[i], a.slots[i].v, Which(fs, a, i)), m.slots[i].v, v)
    ensures var x' := Msg(x.slots[i := Single(v)], x.which[UnionOf(fs, i) := fs[i].tag]);
            FitsM(fs, x') && Merged(fs, a, m, x', i + 1)
  {
    hide FitsV, AlikeV, FieldOk, MergeV, UnionBase, Switched;
    var x' := Msg(x.slots[i := Single(v)], x.which[UnionOf(fs, i) := fs[i].tag]);
    assert FitsM(fs, x');
    forall j | 0 <= j < |fs|
      ensures j != i && Done(fs, a, m, x, j) ==> Done(fs, a, m, x', j)
      ensures fs[j].htype.OneOf? ==>
                Which(fs, x', j) == if Switched(fs, m, i + 1, UnionOf(fs, j)) then Which(fs, m, j) else Which(fs, a, j)
    {
      SwitchedNext(fs, m, i, UnionOf(fs, j));
    }
    assert Done(fs, a, m, x', i);
  }

  lemma AbsentField(fs: Fields, a: Msg, m: Msg, x: Msg, i: nat)
    requires SchemaOk(fs) && FitsM(fs, a) && FitsM(fs, m) && FitsM(fs, x) && i < |fs| && Merged(fs, a, m, x, i)
    requires FieldOk(fs[i]) && FitsS(fs[i], a.slots[i]) && FitsS(fs[i], m.slots[i])
    requires !fs[i].htype.Repeated? && !Present(fs[i], m.slots[i], Which(fs, m, i))
    ensures Merged(fs, a, m, x, i + 1)
  {
    hide FitsV, AlikeV, FieldOk, IsZeroV, Switched;
    AlikeReflexiveV(fs[i], a.slots[i].v);
    assert Done(fs, a, m, x, i);
    forall j | 0 <= j < |fs|
      ensures Switched(fs, m, i + 1, UnionOf(fs, j)) == Switched(fs, m, i, UnionOf(fs, j))
    {
      SwitchedNext(fs, m, i, UnionOf(fs, j));
    }
  }

  /** When all fields are merged, the message is the merge. */
  lemma MergedAll(fs: Fields, a: Msg, m: Msg, x: Msg)
    requires SchemaOk(fs) && FitsM(fs, a) && FitsM(fs, m) && FitsM(fs, x) && BoundedM(fs, m) && Merged(fs, a, m, x, |fs|)
    ensures FitsM(fs, MergeM(fs, a, m)) && AlikeM(fs, MergeM(fs, a, m), x)
  {
    hide FitsS, AlikeS, BoundedS, UnionOf, MergeS, FieldOk;
    MergeMFits(fs, a, m);
    var y := MergeM(fs, a, m);
    forall j | 0 <= j < |fs|
      ensures AlikeS(fs[j], y.slots[j], x.slots[j])
      ensures fs[j].htype.OneOf? ==> Which(fs, y, j) == Which(fs, x, j)
    {
      assert Done(fs, a, m, x, j) && WhichOk(fs, m, j);
      SlotFits(fs, a, j);
      SlotFits(fs, m, j);
      if fs[j].htype.OneOf? && Which(fs, m, j) == 0 && Switched(fs, m, |fs|, UnionOf(fs, j)) {
        var k :| 0 <= k < |fs| && fs[k].htype.OneOf? && UnionOf(fs, k) == UnionOf(fs, j) && m.which[UnionOf(fs, k)] == fs[k].tag;
        TagNotZero(fs[k]);
        assert false;
      }
    }
  }

  lemma IndexOfField(fs: Fields, i: nat)
    requires SchemaOk(fs) && i < |fs|
    ensures IndexOf(fs, fs[i].tag) == i
  {
    hide FieldOk;
  }

  /** The record of field i in front of the stream reaches DecField. */
  lemma RecordTurn(fs: Fields, st: Progress, i: nat, wt: WireType, s: bytes)
    requires SchemaOk(fs) && FitsP(fs, st) && i < |fs| && !wt.WtInvalid?
    ensures var p := DecField(fs, st, i, wt, s);
            p.Got? ==> Loop(fs, st, EncTag(fs[i].tag, wt) + s) == Loop(fs, p.value, p.rest)
  {
    hide DecField, Loop, FitsM, ReadHeader;
    IndexOfField(fs, i);
    HeaderRoundTrip(fs[i].tag, wt, s);
    Merge.LoopTurn(fs, st, EncTag(fs[i].tag, wt) + s, fs[i].tag, wt, s);
  }

  lemma SingleField(fs: Fields, a: Msg, m: Msg, st: Progress, i: nat, b: bytes, tail: bytes) returns (st': Progress)
    requires SchemaOk(fs) && FitsM(fs, a) && FitsM(fs, m) && BoundedM(fs, m)
    requires i < |fs| && InStep(fs, a, m, st, i) && RoomAt(fs, a, m, i) && !fs[i].htype.Repeated?
    requires EncF(fs[i], m.slots[i], Which(fs, m, i)) == Some(b) && |b| < TWO32
    ensures InStep(fs, a, m, st', i + 1)
    ensures Loop(fs, st, b + tail) == Loop(fs, st', tail)
    decreases fs, 1
  {
    hide Loop, DecV, AlikeV, FitsV, EncV, Merged, FieldOk, IsZeroV, RoomAt, BoundedM;
    var f, x := fs[i], st.msg;
    SlotFits(fs, a, i);
    SlotFits(fs, m, i);
    if Present(f, m.slots[i], Which(fs, m, i)) {
      st' := PresentField(fs, a, m, st, i, EncV(f.ltype, f.dataSize, m.slots[i].v).value, tail);
      assert b + tail == TagOf(f) + (EncV(f.ltype, f.dataSize, m.slots[i].v).value + tail);
    } else {
      st' := st;
      assert b + tail == tail;
      AbsentField(fs, a, m, x, i);
      assert !f.htype.Required?;
    }
  }

  lemma PresentField(fs: Fields, a: Msg, m: Msg, st: Progress, i: nat, bv: bytes, tail: bytes) returns (st': Progress)
    requires SchemaOk(fs) && FitsM(fs, a) && FitsM(fs, m) && BoundedM(fs, m)
    requires i < |fs| && InStep(fs, a, m, st, i) && RoomAt(fs, a, m, i) && !fs[i].htype.Repeated? && FieldOk(fs[i])
    requires FitsS(fs[i], a.slots[i]) && FitsS(fs[i], m.slots[i])
    requires Present(fs[i], m.slots[i], Which(fs, m, i))
    requires EncV(fs[i].ltype, fs[i].dataSize, m.slots[i].v) == Some(bv) && |bv| < TWO32
    ensures InStep(fs, a, m, st', i + 1)
    ensures Loop(fs, st, TagOf(fs[i]) + (bv + tail)) == Loop(fs, st', tail)
    decreases fs, 0
  {
    hide Loop, DecV, AlikeV, FitsV, EncV, BoundedV, IsZeroV, Merged, FieldOk, RoomV, MergeV;
    var f, x := fs[i], st.msg;
    SlotFits(fs, x, i);
    assert BoundedS(f, m.slots[i], Which(fs, m, i));
    var was := PresentBase(fs, a, m, x, i);
    ValueMerged(f, was, m.slots[i].v, bv, tail);
    var v := DecV(f, was, bv + tail).value;
    var p := DecField(fs, st, i, WireOf(f.ltype), bv + tail);
    assert p.Got? && p.rest == tail;
    st' := p.value;
    RecordTurn(fs, st, i, WireOf(f.ltype), bv + tail);
    if f.htype.OneOf? {
      MergedMember(fs, a, m, x, i, v);
    } else {
      MergedSlot(fs, a, m, x, i, st'.msg.slots[i]);
    }
  }

  /** What the record of a present field is decoded onto is what it was in a. */
  lemma PresentBase(fs: Fields, a: Msg, m: Msg, x: Msg, i: nat) returns (was: Value)
    requires SchemaOk(fs) && FitsM(fs, a) && FitsM(fs, m) && FitsM(fs, x) && i < |fs| && Merged(fs, a, m, x, i)
    requires !fs[i].htype.Repeated? && FieldOk(fs[i]) && FitsS(fs[i], a.slots[i]) && FitsS(fs[i], m.slots[i])
    requires Present(fs[i], m.slots[i], Which(fs, m, i))
    ensures x.slots[i] == a.slots[i]
    ensures was == if fs[i].htype.OneOf? then UnionBase(fs[i], a.slots[i].v, Which(fs, a, i)) else a.slots[i].v
    ensures was == if fs[i].htype.OneOf? then UnionBase(fs[i], x.slots[i].v, Which(fs, x, i)) else x.slots[i].v
    ensures FitsV(fs[i].ltype, fs[i].dataSize, was) && (RoomV(fs[i], was, m.slots[i].v) <==> RoomAt(fs, a, m, i))
  {
    hide FitsV, RoomV, FieldOk, Done, Switched, IsZeroV;
    was := a.slots[i].v;
    if fs[i].htype.OneOf? {
      NotYetSwitched(fs, m, i);
      UnionBaseFits(fs[i], a.slots[i].v, Which(fs, a, i));
      was := UnionBase(fs[i], a.slots[i].v, Which(fs, a, i));
    }
  }

  // ----- arrays -----

  /** k items of src have been merged behind the first `at` items of a. */
  ghost predicate ItemsMerged(f: Field, a: seq<Value>, at: nat, src: seq<Value>, cur: seq<Value>, k: nat)
    requires FieldOk(f) && FitsItems(f, a) && FitsItems(f, src) && FitsItems(f, cur) && at + k <= f.arraySize
  {
    && (forall j | 0 <= j < k :: MergesTo(f, a[at + j], src[j], cur[at + j]))
    && (forall j | 0 <= j < |a| && !(at <= j < at + k) :: cur[j] == a[j])
  }

  lemma ItemMerged(f: Field, a: seq<Value>, at: nat, src: seq<Value>, cur: seq<Value>, k: nat, v: Value)
    requires FieldOk(f) && FitsItems(f, a) && FitsItems(f, src) && FitsItems(f, cur) && at + k < f.arraySize
    requires ItemsMerged(f, a, at, src, cur, k) && FitsV(f.ltype, f.dataSize, v) && MergesTo(f, a[at + k], src[k], v)
    ensures FitsItems(f, cur[at + k := v]) && ItemsMerged(f, a, at, src, cur[at + k := v], k + 1)
  {
    hide FieldOk, FitsV, MergesTo;
  }

  lemma {:induction false} PackedMerged(f: Field, a: seq<Value>, at: nat, src: seq<Value>, cur: seq<Value>, k: nat, n: nat, b: bytes)
    requires FieldOk(f) && Packable(f.ltype) && FitsItems(f, a) && FitsItems(f, src) && FitsItems(f, cur)
    requires k <= n && at + n <= f.arraySize
    requires forall j | 0 <= j < n :: BoundedV(f.ltype, f.dataSize, src[j])
    requires ItemsMerged(f, a, at, src, cur, k)
    requires EncPacked(f, src, k, n) == Some(b) && |b| < TWO32
    ensures var p := DecPacked(f, cur, at + k, b);
            p.Got? && p.rest == [] && p.value.1 == at + n && ItemsMerged(f, a, at, src, p.value.0, n)
    decreases f, 1, n - k
  {
    hide DecV, AlikeV, FitsV, EncV, BoundedV, FieldOk, MergesTo, RoomV, ItemsMerged;
    if k < n {
      var bv := EncV(f.ltype, f.dataSize, src[k]).value;
      var c := EncPacked(f, src, k + 1, n).value;
      assert b == bv + c;
      assert cur[at + k] == a[at + k] by { StillThere(f, a, at, src, cur, k); }
      assert RoomV(f, a[at + k], src[k]) by { PackableRoom(f, a[at + k], src[k]); }
      ValueMerged(f, cur[at + k], src[k], bv, c);
      var v := DecV(f, cur[at + k], b).value;
      ValueNotEmpty(f, src[k]);
      ItemMerged(f, a, at, src, cur, k, v);
      PackedMerged(f, a, at, src, cur[at + k := v], k + 1, n, c);
    }
  }

  lemma StillThere(f: Field, a: seq<Value>, at: nat, src: seq<Value>, cur: seq<Value>, k: nat)
    requires FieldOk(f) && FitsItems(f, a) && FitsItems(f, src) && FitsItems(f, cur) && at + k < f.arraySize
    requires ItemsMerged(f, a, at, src, cur, k)
    ensures cur[at + k] == a[at + k]
  {
    hide FieldOk, FitsV, MergesTo;
  }

  lemma PackableRoom(f: Field, a: Value, v: Value)
    requires FieldOk(f) && Packable(f.ltype) && FitsV(f.ltype, f.dataSize, a) && FitsV(f.ltype, f.dataSize, v)
    ensures RoomV(f, a, v)
  {
  }

  lemma ValueNotEmpty(f: Field, v: Value)
    requires FieldOk(f) && FitsV(f.ltype, f.dataSize, v) && EncV(f.ltype, f.dataSize, v).Some?
    ensures EncV(f.ltype, f.dataSize, v).value != []
  {
    hide EncFrom;
  }

  /** Number of items that array field i counts so far. */
  function Received(fs: Fields, st: Progress, i: nat): nat
    requires i < |fs| && i < |st.msg.slots| && fs[i].htype.Repeated? && FitsS(fs[i], st.msg.slots[i])
  {
    if fs[i].sizeOffset != 0 then st.msg.slots[i].count
    else if st.fixed == Some(i) then st.fixedSize
    else 0
  }

  function Filled(s: Slot): nat {
    if s.Rep? then s.count else 0
  }

  /** The state within array field i, after k of its items: like `st` elsewhere. */
  ghost predicate AtItem(fs: Fields, st: Progress, x: Progress, i: nat, k: nat)
    requires i < |fs| && fs[i].htype.Repeated? && |st.msg.slots| == |fs|
  {
    && FitsP(fs, x) && FitsS(fs[i], x.msg.slots[i])
    && x.msg == st.msg.(slots := st.msg.slots[i := x.msg.slots[i]])
    && x.seen == st.seen
    && Received(fs, x, i) == Filled(st.msg.slots[i]) + k
    && (IsFixedCount(fs[i]) && k > 0 ==> x.fixed == Some(i))
    && (!IsFixedCount(fs[i]) || k == 0 ==> x.fixed == st.fixed && x.fixedSize == st.fixedSize)
  }

  /** One record of array field i: DecField is DecArray on its items. */
  lemma ArrayRecord(fs: Fields, st: Progress, x: Progress, i: nat, k: nat, wt: WireType, s: bytes)
    requires SchemaOk(fs) && i < |fs| && FitsP(fs, st) && fs[i].htype.Repeated? && FitsS(fs[i], st.msg.slots[i])
    requires FixedComplete(fs, st) && (st.fixed.Some? ==> st.fixed.value < i)
    requires AtItem(fs, st, x, i, k)
    requires FieldOk(fs[i]) && FitsItems(fs[i], x.msg.slots[i].items)
    ensures var at := Filled(st.msg.slots[i]);
            var q := DecArray(fs[i], x.msg.slots[i].items, at + k, wt, s);
            var p := DecField(fs, x, i, wt, s);
            q.Got? && q.value.1 > at ==>
              && p.Got? && p.rest == q.rest
              && AtItem(fs, st, p.value, i, q.value.1 - at) && p.value.msg.slots[i].items == q.value.0
  {
    hide DecArray, FitsV, FieldOk;
    var q := DecArray(fs[i], x.msg.slots[i].items, Filled(st.msg.slots[i]) + k, wt, s);
    var p := DecField(fs, x, i, wt, s);
    if q.Got? {
      assert FitsP(fs, x);
      assert |x.msg.slots| == |fs|;
      if IsFixedCount(fs[i]) {
        assert EnterFixed(fs, x, i).Some?;
        assert EnterFixed(fs, x, i).value.fixedSize == k;
      }
      assert p.Got?;
      assert p.value.msg.slots == x.msg.slots[i := p.value.msg.slots[i]];
      assert FitsM(fs, p.value.msg);
    }
  }

  /** What is needed to merge n items of array field i. */
  ghost predicate CanReceive(fs: Fields, a: Msg, m: Msg, st: Progress, i: nat, n: nat)
  {
    && SchemaOk(fs) && i < |fs| && FieldOk(fs[i]) && FitsP(fs, st) && fs[i].htype.Repeated?
    && FixedComplete(fs, st) && (st.fixed.Some? ==> st.fixed.value < i)
    && FitsM(fs, a) && FitsM(fs, m) && FitsS(fs[i], a.slots[i]) && FitsS(fs[i], m.slots[i])
    && FitsS(fs[i], st.msg.slots[i]) && st.msg.slots[i] == a.slots[i]
    && FitsItems(fs[i], a.slots[i].items) && FitsItems(fs[i], m.slots[i].items)
    && Filled(a.slots[i]) + n <= fs[i].arraySize
    && forall j | 0 <= j < n :: BoundedV(fs[i].ltype, fs[i].dataSize, m.slots[i].items[j])
  }

  /** One item of array field i arrives. */
  lemma OneItem(fs: Fields, a: Msg, m: Msg, st: Progress, x: Progress, i: nat, k: nat, n: nat, bv: bytes, rest: bytes)
    returns (x': Progress)
    requires CanReceive(fs, a, m, st, i, n) && k < n && !Packable(fs[i].ltype)
    requires AtItem(fs, st, x, i, k) && FitsItems(fs[i], x.msg.slots[i].items)
    requires ItemsMerged(fs[i], a.slots[i].items, Filled(a.slots[i]), m.slots[i].items, x.msg.slots[i].items, k)
    requires EncV(fs[i].ltype, fs[i].dataSize, m.slots[i].items[k]) == Some(bv) && |bv| < TWO32
    ensures AtItem(fs, st, x', i, k + 1) && FitsItems(fs[i], x'.msg.slots[i].items)
    ensures ItemsMerged(fs[i], a.slots[i].items, Filled(a.slots[i]), m.slots[i].items, x'.msg.slots[i].items, k + 1)
    ensures Loop(fs, x, TagOf(fs[i]) + (bv + rest)) == Loop(fs, x', rest)
    decreases fs, 0
  {
    hide Loop, DecV, FitsV, DecField, FieldOk, SchemaOk, BoundedV, ItemsMerged, EncV, WireOf;
    var f, at, cur := fs[i], Filled(a.slots[i]), x.msg.slots[i].items;
    var from, src := a.slots[i].items, m.slots[i].items;
    ItemStored(f, from, at, src, cur, k, bv, rest);
    var w := DecV(f, cur[at + k], bv + rest).value;
    assert DecArray(f, cur, at + k, WireOf(f.ltype), bv + rest) == Got((cur[at + k := w], at + k + 1), rest);
    ArrayRecord(fs, st, x, i, k, WireOf(f.ltype), bv + rest);
    RecordTurn(fs, x, i, WireOf(f.ltype), bv + rest);
    x' := DecField(fs, x, i, WireOf(f.ltype), bv + rest).value;
  }

  lemma ItemStored(f: Field, a: seq<Value>, at: nat, src: seq<Value>, cur: seq<Value>, k: nat, bv: bytes, rest: bytes)
    requires FieldOk(f) && f.htype.Repeated? && FitsItems(f, a) && FitsItems(f, src) && FitsItems(f, cur)
    requires at + k < f.arraySize && ItemsMerged(f, a, at, src, cur, k) && BoundedV(f.ltype, f.dataSize, src[k])
    requires EncV(f.ltype, f.dataSize, src[k]) == Some(bv) && |bv| < TWO32
    ensures var p := DecV(f, cur[at + k], bv + rest);
            && p.Got? && p.rest == rest && FitsItems(f, cur[at + k := p.value])
            && ItemsMerged(f, a, at, src, cur[at + k := p.value], k + 1)
    decreases f, 1
  {
    hide DecV, AlikeV, FitsV, EncV, BoundedV, FieldOk, ItemsMerged, MergesTo, RoomV;
    StillThere(f, a, at, src, cur, k);
    VacantRoomV(f, a[at + k], src[k]);
    ValueMerged(f, a[at + k], src[k], bv, rest);
    ItemMerged(f, a, at, src, cur, k, DecV(f, cur[at + k], bv + rest).value);
  }

  lemma RecordTurnAt(fs: Fields, st: Progress, x: Progress, i: nat, k: nat, wt: WireType, s: bytes)
    requires SchemaOk(fs) && i < |fs| && fs[i].htype.Repeated? && |st.msg.slots| == |fs| && AtItem(fs, st, x, i, k)
    requires !wt.WtInvalid?
    ensures FitsP(fs, x)
    ensures var p := DecField(fs, x, i, wt, s);
            p.Got? ==> Loop(fs, x, EncTag(fs[i].tag, wt) + s) == Loop(fs, p.value, p.rest)
  {
    hide DecField, Loop, SchemaOk, FitsM, EncTag;
    RecordTurn(fs, x, i, wt, s);
  }

  lemma {:induction false} ItemsArrive(fs: Fields, a: Msg, m: Msg, st: Progress, x: Progress, i: nat, k: nat, n: nat, b: bytes, tail: bytes)
    returns (x': Progress)
    requires CanReceive(fs, a, m, st, i, n) && k <= n && !Packable(fs[i].ltype)
    requires AtItem(fs, st, x, i, k) && FitsItems(fs[i], x.msg.slots[i].items)
    requires ItemsMerged(fs[i], a.slots[i].items, Filled(a.slots[i]), m.slots[i].items, x.msg.slots[i].items, k)
    requires EncItems(fs[i], m.slots[i].items, k, n) == Some(b) && |b| < TWO32
    ensures AtItem(fs, st, x', i, n) && FitsItems(fs[i], x'.msg.slots[i].items)
    ensures ItemsMerged(fs[i], a.slots[i].items, Filled(a.slots[i]), m.slots[i].items, x'.msg.slots[i].items, n)
    ensures Loop(fs, x, b + tail) == Loop(fs, x', tail)
    decreases fs, 1, n - k
  {
    hide Loop, AlikeV, FitsV, EncV, BoundedV, AtItem, ItemsMerged, FieldOk, SchemaOk;
    var f, src := fs[i], m.slots[i].items;
    if k == n {
      x' := x;
      assert b + tail == tail;
      assert FitsP(fs, x) by { RecordTurnAt(fs, st, x, i, k, WtVarint, []); }
    } else {
      var bv := EncV(f.ltype, f.dataSize, src[k]).value;
      var c := EncItems(f, src, k + 1, n).value;
      assert b + tail == TagOf(f) + (bv + (c + tail));
      var y := OneItem(fs, a, m, st, x, i, k, n, bv, c + tail);
      x' := ItemsArrive(fs, a, m, st, y, i, k + 1, n, c, tail);
    }
  }

  /** A packed array arrives in one record. */
  lemma PackedArrives(fs: Fields, a: Msg, m: Msg, st: Progress, i: nat, n: nat, payload: bytes, tail: bytes) returns (st': Progress)
    requires CanReceive(fs, a, m, st, i, n) && n > 0 && Packable(fs[i].ltype)
    requires AtItem(fs, st, st, i, 0)
    requires EncPacked(fs[i], m.slots[i].items, 0, n) == Some(payload) && |payload| < TWO32
    ensures AtItem(fs, st, st', i, n) && FitsItems(fs[i], st'.msg.slots[i].items)
    ensures ItemsMerged(fs[i], a.slots[i].items, Filled(a.slots[i]), m.slots[i].items, st'.msg.slots[i].items, n)
    ensures Loop(fs, st, EncTag(fs[i].tag, WtString) + (EncString(payload) + tail)) == Loop(fs, st', tail)
    decreases fs, 0
  {
    hide Loop, DecV, AlikeV, FitsV, EncV, BoundedV, EncPacked, DecField, DecPacked, Delimited, EncString, FieldOk, SchemaOk, AtItem, MergesTo;
    var f, s, items := fs[i], EncString(payload) + tail, a.slots[i].items;
    PackedMerged(f, items, Filled(a.slots[i]), m.slots[i].items, items, 0, n, payload);
    DelimitedRoundTrip(payload, tail);
    ArrayRecord(fs, st, st, i, 0, WtString, s);
    RecordTurn(fs, st, i, WtString, s);
    st' := DecField(fs, st, i, WtString, s).value;
  }

  /** Number of items the encoder sends of an array field. */
  function Sent(f: Field, s: Slot): nat
    requires f.htype.Repeated? && FitsS(f, s)
  {
    if s.Rep? then s.count else f.arraySize
  }

  lemma ArrayStart(fs: Fields, a: Msg, m: Msg, st: Progress, i: nat)
    requires SchemaOk(fs) && FitsM(fs, a) && FitsM(fs, m) && BoundedM(fs, m)
    requires i < |fs| && InStep(fs, a, m, st, i) && RoomAt(fs, a, m, i) && fs[i].htype.Repeated?
    requires FitsS(fs[i], m.slots[i]) && Sent(fs[i], m.slots[i]) > 0
    ensures CanReceive(fs, a, m, st, i, Sent(fs[i], m.slots[i]))
    ensures AtItem(fs, st, st, i, 0) && FitsItems(fs[i], st.msg.slots[i].items)
    ensures ItemsMerged(fs[i], a.slots[i].items, Filled(a.slots[i]), m.slots[i].items, st.msg.slots[i].items, 0)
  {
    hide AlikeV, FitsV, BoundedV, FieldOk, Done, Switched;
    SlotFits(fs, a, i);
    SlotFits(fs, m, i);
    assert BoundedS(fs[i], m.slots[i], Which(fs, m, i));
    assert RoomS(fs[i], a.slots[i], Which(fs, a, i), m.slots[i], Which(fs, m, i));
    assert st.msg.slots[i := st.msg.slots[i]] == st.msg.slots;
  }

  /** An array field whose items have all arrived is done. */
  lemma ArrayDone(fs: Fields, a: Msg, m: Msg, st: Progress, x: Progress, i: nat)
    requires SchemaOk(fs) && FitsM(fs, a) && FitsM(fs, m) && i < |fs| && InStep(fs, a, m, st, i) && fs[i].htype.Repeated?
    requires FitsS(fs[i], m.slots[i]) && CanReceive(fs, a, m, st, i, Sent(fs[i], m.slots[i]))
    requires AtItem(fs, st, x, i, Sent(fs[i], m.slots[i])) && FitsItems(fs[i], x.msg.slots[i].items)
    requires ItemsMerged(fs[i], a.slots[i].items, Filled(a.slots[i]), m.slots[i].items, x.msg.slots[i].items, Sent(fs[i], m.slots[i]))
    ensures InStep(fs, a, m, x, i + 1)
  {
    hide AlikeV, FitsV, FieldOk, Merged, MergeV, BoundedV;
    MergeSFits(fs[i], a.slots[i], Which(fs, a, i), m.slots[i], Which(fs, m, i));
    AlikeArray(fs[i], a.slots[i], Which(fs, a, i), m.slots[i], Which(fs, m, i), x.msg.slots[i]);
    MergedSlot(fs, a, m, st.msg, i, x.msg.slots[i]);
  }

  lemma AlikeArray(f: Field, a: Slot, wa: nat, s: Slot, ws: nat, x: Slot)
    requires FieldOk(f) && f.htype.Repeated? && FitsS(f, a) && FitsS(f, s) && FitsS(f, x)
    requires Filled(a) + Sent(f, s) <= f.arraySize
    requires a.Rep? ==> x.count == a.count + s.count
    requires FitsItems(f, a.items) && FitsItems(f, s.items) && FitsItems(f, x.items)
    requires ItemsMerged(f, a.items, Filled(a), s.items, x.items, Sent(f, s))
    ensures FitsS(f, MergeS(f, a, wa, s, ws)) && AlikeS(f, MergeS(f, a, wa, s, ws), x)
  {
    hide AlikeV, FitsV, FieldOk, MergeItems, ItemsMerged;
    MergeSFits(f, a, wa, s, ws);
    var y := MergeS(f, a, wa, s, ws);
    assert y.items == MergeItems(f, a.items, Filled(a), s.items, Sent(f, s));
    forall k | 0 <= k < |y.items|
      ensures AlikeV(f, y.items[k], x.items[k])
    {
      AlikeItem(f, a.items, Filled(a), s.items, x.items, Sent(f, s), k);
    }
  }

  lemma AlikeItem(f: Field, a: seq<Value>, at: nat, src: seq<Value>, cur: seq<Value>, n: nat, k: nat)
    requires FieldOk(f) && FitsItems(f, a) && FitsItems(f, src) && FitsItems(f, cur) && at + n <= f.arraySize
    requires ItemsMerged(f, a, at, src, cur, n) && k < |a|
    ensures FitsV(f.ltype, f.dataSize, MergeItems(f, a, at, src, n)[k])
    ensures AlikeV(f, MergeItems(f, a, at, src, n)[k], cur[k])
  {
    hide AlikeV, FitsV, FieldOk, MergeV;
    if at <= k < at + n {
      assert MergesTo(f, a[at + (k - at)], src[k - at], cur[at + (k - at)]);
    } else {
      AlikeReflexiveV(f, a[k]);
    }
  }

  lemma ArrayField(fs: Fields, a: Msg, m: Msg, st: Progress, i: nat, b: bytes, tail: bytes) returns (st': Progress)
    requires SchemaOk(fs) && FitsM(fs, a) && FitsM(fs, m) && BoundedM(fs, m)
    requires i < |fs| && InStep(fs, a, m, st, i) && RoomAt(fs, a, m, i) && fs[i].htype.Repeated?
    requires EncF(fs[i], m.slots[i], Which(fs, m, i)) == Some(b) && |b| < TWO32
    ensures InStep(fs, a, m, st', i + 1)
    ensures Loop(fs, st, b + tail) == Loop(fs, st', tail)
    decreases fs, 1
  {
    hide Loop, DecV, AlikeV, FitsV, EncV, BoundedV, BoundedM, RoomAt, EncPacked, EncItems, InStep, AtItem, EncTag, CanReceive, ItemsMerged, FieldOk;
    var f := fs[i];
    SlotFits(fs, a, i);
    SlotFits(fs, m, i);
    var n := Sent(f, m.slots[i]);
    if n == 0 {
      st' := st;
      assert b + tail == tail;
      NothingSent(fs, a, m, st, i);
      return;
    }
    ArrayStart(fs, a, m, st, i);
    ReceivesFits(fs, a, m, st, i, n);
    if Packable(f.ltype) {
      var payload := EncPacked(f, m.slots[i].items, 0, n).value;
      st' := PackedArrives(fs, a, m, st, i, n, payload, tail);
      assert b + tail == EncTag(f.tag, WtString) + (EncString(payload) + tail);
    } else {
      st' := ItemsArrive(fs, a, m, st, st, i, 0, n, b, tail);
    }
    ArrayDone(fs, a, m, st, st', i);
  }

  /** An array without items leaves what was there. */
  lemma NothingSent(fs: Fields, a: Msg, m: Msg, st: Progress, i: nat)
    requires SchemaOk(fs) && FitsM(fs, a) && FitsM(fs, m) && i < |fs| && InStep(fs, a, m, st, i) && fs[i].htype.Repeated?
    requires FieldOk(fs[i]) && FitsS(fs[i], a.slots[i]) && FitsS(fs[i], m.slots[i]) && Sent(fs[i], m.slots[i]) == 0
    ensures InStep(fs, a, m, st, i + 1)
  {
    hide AlikeV, FitsV, FieldOk, Done, Switched, MergeV;
    var f, s := fs[i], a.slots[i];
    assert MergeItems(f, s.items, if s.Rep? then s.count else 0, m.slots[i].items, 0) == s.items;
    AlikeReflexiveS(f, s);
    MergedSlot(fs, a, m, st.msg, i, s);
    assert st.msg.slots[i := s] == st.msg.slots;
  }

  lemma ReceivesFits(fs: Fields, a: Msg, m: Msg, st: Progress, i: nat, n: nat)
    requires CanReceive(fs, a, m, st, i, n)
    ensures FieldOk(fs[i]) && FitsItems(fs[i], a.slots[i].items) && FitsItems(fs[i], m.slots[i].items)
    ensures n <= fs[i].arraySize
  {
    hide FieldOk, FitsV;
  }

  // ----- whole messages -----

  lemma {:induction false} FieldsMerged(fs: Fields, a: Msg, m: Msg, st: Progress, i: nat, b: bytes, tail: bytes)
    returns (st': Progress)
    requires SchemaOk(fs) && FitsM(fs, a) && FitsM(fs, m) && BoundedM(fs, m) && RoomM(fs, a, m)
    requires i <= |fs| && InStep(fs, a, m, st, i)
    requires EncFrom(fs, m, i) == Some(b) && |b| < TWO32
    ensures InStep(fs, a, m, st', |fs|)
    ensures Loop(fs, st, b + tail) == Loop(fs, st', tail)
    decreases fs, 2, |fs| - i
  {
    hide Loop, EncF, InStep, FitsS, BoundedM;
    if i == |fs| {
      st' := st;
      assert b + tail == tail;
    } else {
      SlotFits(fs, m, i);
      var c := EncF(fs[i], m.slots[i], Which(fs, m, i)).value;
      var d := EncFrom(fs, m, i + 1).value;
      assert b + tail == c + (d + tail);
      assert RoomAt(fs, a, m, i);
      var next;
      if fs[i].htype.Repeated? {
        next := ArrayField(fs, a, m, st, i, c, d + tail);
      } else {
        next := SingleField(fs, a, m, st, i, c, d + tail);
      }
      st' := FieldsMerged(fs, a, m, next, i + 1, d, tail);
    }
  }

  lemma MergeStarts(fs: Fields, m: Msg, st: Progress)
    requires SchemaOk(fs) && FitsP(fs, st) && FitsM(fs, m) && st.fixed.None?
    ensures InStep(fs, st.msg, m, st, 0)
  {
    hide FitsS, FieldOk;
  }

  /** The loop's view of a whole message: behind the encoding of m, the decoder holds what
      it held with m merged into it. */
  lemma {:induction false} MessageLoop(fs: Fields, st: Progress, m: Msg, b: bytes, tail: bytes) returns (st': Progress)
    requires SchemaOk(fs) && FitsP(fs, st) && st.fixed.None? && FitsM(fs, m) && BoundedM(fs, m) && RoomM(fs, st.msg, m)
    requires EncM(fs, m) == Some(b) && |b| < TWO32
    ensures FitsP(fs, st') && Accept(fs, st')
    ensures FitsM(fs, MergeM(fs, st.msg, m)) && AlikeM(fs, MergeM(fs, st.msg, m), st'.msg)
    ensures Loop(fs, st, b + tail) == Loop(fs, st', tail)
    decreases fs, 3
  {
    hide Loop, FitsM, AlikeM, BoundedM, RoomM, Merged, SchemaOk, MergeM;
    MergeStarts(fs, m, st);
    st' := FieldsMerged(fs, st.msg, m, st, 0, b, tail);
    MergedAll(fs, st.msg, m, st'.msg);
  }

  /** The central law: decoding the encoding of m onto a succeeds, consumes it all and
      yields a with m merged into it: the last scalar wins, arrays are appended to,
      submessages merge and unions switch. */
  lemma {:induction false} MessageMerged(fs: Fields, a: Msg, m: Msg, b: bytes)
    requires SchemaOk(fs) && FitsM(fs, a) && FitsM(fs, m) && BoundedM(fs, m) && RoomM(fs, a, m)
    requires EncM(fs, m) == Some(b) && |b| < TWO32
    ensures var p := DecM(fs, a, b);
            p.Got? && p.rest == [] && FitsM(fs, MergeM(fs, a, m)) && AlikeM(fs, MergeM(fs, a, m), p.value)
    decreases fs, 4
  {
    hide BoundedM, EncM, AlikeM, RoomM, MergeM;
    var st := MessageLoop(fs, Start(a), m, b, []);
    assert b + [] == b;
    Merge.LoopEnd(fs, st);
  }

  // ----- no room -----

  lemma RecordFails(fs: Fields, st: Progress, i: nat, wt: WireType, s: bytes)
    requires SchemaOk(fs) && FitsP(fs, st) && i < |fs| && !wt.WtInvalid? && DecField(fs, st, i, wt, s).Fail?
    ensures Loop(fs, st, EncTag(fs[i].tag, wt) + s).Fail?
  {
    hide DecField, Loop, FitsM, ReadHeader;
    IndexOfField(fs, i);
    HeaderRoundTrip(fs[i].tag, wt, s);
    Merge.LoopTurn(fs, st, EncTag(fs[i].tag, wt) + s, fs[i].tag, wt, s);
  }

  /** A submessage for which there is no room is refused. */
  lemma {:induction false} ValueRefused(f: Field, was: Value, v: Value, b: bytes, tail: bytes)
    requires FieldOk(f) && FitsV(f.ltype, f.dataSize, was) && FitsV(f.ltype, f.dataSize, v)
    requires BoundedV(f.ltype, f.dataSize, v) && !RoomV(f, was, v)
    requires EncV(f.ltype, f.dataSize, v) == Some(b) && |b| < TWO32
    ensures DecV(f, was, b + tail).Fail?
    decreases f, 0
  {
    hide EncVarint, DecM, Delimited, FieldOk, RoomM;
    var fs := f.ltype.fields;
    assert SchemaOk(fs) by { SubmessageOk(f); }
    var payload := EncM(fs, v.msg).value;
    DelimitedRoundTrip(payload, tail);
    BaseFits(f, was);
    MessageRefused(fs, Base(f, was).msg, v.msg, payload);
  }

  lemma {:induction false} PackedRefused(f: Field, src: seq<Value>, cur: seq<Value>, count: nat, k: nat, n: nat, b: bytes)
    requires FieldOk(f) && Packable(f.ltype) && FitsItems(f, src) && FitsItems(f, cur)
    requires k < n <= f.arraySize < count + (n - k)
    requires forall j | 0 <= j < n :: BoundedV(f.ltype, f.dataSize, src[j])
    requires EncPacked(f, src, k, n) == Some(b) && |b| < TWO32
    ensures var p := DecPacked(f, cur, count, b);
            p.Got? ==> p.rest != []
    decreases f, 1, n - k
  {
    hide DecV, AlikeV, FitsV, EncV, BoundedV, FieldOk, MergesTo, RoomV;
    var bv := EncV(f.ltype, f.dataSize, src[k]).value;
    var c := EncPacked(f, src, k + 1, n).value;
    assert b == bv + c;
    ValueNotEmpty(f, src[k]);
    if count < f.arraySize {
      PackableRoom(f, cur[count], src[k]);
      ValueMerged(f, cur[count], src[k], bv, c);
      PackedRefused(f, src, cur[count := DecV(f, cur[count], b).value], count + 1, k + 1, n, c);
    }
  }

  /** Items for which there is no room are refused, one by one. */
  lemma {:induction false} ItemsRefused(fs: Fields, st: Progress, i: nat, src: seq<Value>, k: nat, n: nat, b: bytes, tail: bytes)
    requires SchemaOk(fs) && FitsP(fs, st) && i < |fs| && FieldOk(fs[i]) && fs[i].htype.Repeated? && fs[i].sizeOffset != 0
    requires FitsS(fs[i], st.msg.slots[i]) && FitsItems(fs[i], src) && !Packable(fs[i].ltype)
    requires k < n <= fs[i].arraySize < st.msg.slots[i].count + (n - k)
    requires forall j | 0 <= j < n :: BoundedV(fs[i].ltype, fs[i].dataSize, src[j])
    requires EncItems(fs[i], src, k, n) == Some(b) && |b| < TWO32
    ensures Loop(fs, st, b + tail).Fail?
    decreases fs, 0, n - k
  {
    hide Loop, DecV, FitsV, EncV, BoundedV, FieldOk, SchemaOk, RoomV, MergesTo, EncTag;
    var f, slot := fs[i], st.msg.slots[i];
    var bv := EncV(f.ltype, f.dataSize, src[k]).value;
    var c := EncItems(f, src, k + 1, n).value;
    assert b + tail == TagOf(f) + (bv + (c + tail));
    if slot.count >= f.arraySize {
      RecordFails(fs, st, i, WireOf(f.ltype), bv + (c + tail));
    } else {
      var was := slot.items[slot.count];
      VacantRoomV(f, was, src[k]);
      ValueMerged(f, was, src[k], bv, c + tail);
      RecordTurn(fs, st, i, WireOf(f.ltype), bv + (c + tail));
      var p := DecField(fs, st, i, WireOf(f.ltype), bv + (c + tail));
      SlotFits(fs, p.value.msg, i);
      ItemsRefused(fs, p.value, i, src, k + 1, n, c, tail);
    }
  }

  lemma ArrayRefused(fs: Fields, a: Msg, m: Msg, st: Progress, i: nat, b: bytes, tail: bytes)
    requires SchemaOk(fs) && FitsM(fs, a) && FitsM(fs, m) && BoundedM(fs, m)
    requires i < |fs| && InStep(fs, a, m, st, i) && !RoomAt(fs, a, m, i) && fs[i].htype.Repeated?
    requires EncF(fs[i], m.slots[i], Which(fs, m, i)) == Some(b) && |b| < TWO32
    ensures Loop(fs, st, b + tail).Fail?
    decreases fs, 1
  {
    hide Loop, DecV, FitsV, EncV, BoundedV, EncPacked, EncItems, EncTag, FieldOk, Done, Switched, Delimited, DecPacked, EncVarint;
    var f, s := fs[i], m.slots[i];
    SlotFits(fs, a, i);
    SlotFits(fs, m, i);
    assert BoundedS(f, s, Which(fs, m, i));
    if Packable(f.ltype) {
      var payload := EncPacked(f, s.items, 0, s.count).value;
      PackedRefused(f, s.items, a.slots[i].items, a.slots[i].count, 0, s.count, payload);
      DelimitedRoundTrip(payload, tail);
      assert b + tail == EncTag(f.tag, WtString) + (EncString(payload) + tail);
      RecordFails(fs, st, i, WtString, EncString(payload) + tail);
    } else {
      ItemsRefused(fs, st, i, s.items, 0, s.count, b, tail);
    }
  }

  lemma SingleRefused(fs: Fields, a: Msg, m: Msg, st: Progress, i: nat, b: bytes, tail: bytes)
    requires SchemaOk(fs) && FitsM(fs, a) && FitsM(fs, m) && BoundedM(fs, m)
    requires i < |fs| && InStep(fs, a, m, st, i) && !RoomAt(fs, a, m, i) && !fs[i].htype.Repeated?
    requires EncF(fs[i], m.slots[i], Which(fs, m, i)) == Some(b) && |b| < TWO32
    ensures Loop(fs, st, b + tail).Fail?
    decreases fs, 1
  {
    hide Loop, DecV, FitsV, EncV, BoundedV, IsZeroV, Merged, FieldOk, RoomV, MergeV, EncTag;
    var f, x, s := fs[i], st.msg, m.slots[i];
    SlotFits(fs, a, i);
    SlotFits(fs, m, i);
    SlotFits(fs, x, i);
    assert BoundedS(f, s, Which(fs, m, i));
    assert Present(f, s, Which(fs, m, i));
    var bv := EncV(f.ltype, f.dataSize, s.v).value;
    assert b + tail == TagOf(f) + (bv + tail);
    var was := PresentBase(fs, a, m, x, i);
    ValueRefused(f, was, s.v, bv, tail);
    RecordFails(fs, st, i, WireOf(f.ltype), bv + tail);
  }

  lemma {:induction false} FieldsRefused(fs: Fields, a: Msg, m: Msg, st: Progress, i: nat, b: bytes, tail: bytes)
    requires SchemaOk(fs) && FitsM(fs, a) && FitsM(fs, m) && BoundedM(fs, m)
    requires i <= |fs| && InStep(fs, a, m, st, i) && exists j | i <= j < |fs| :: !RoomAt(fs, a, m, j)
    requires EncFrom(fs, m, i) == Some(b) && |b| < TWO32
    ensures Loop(fs, st, b + tail).Fail?
    decreases fs, 2, |fs| - i
  {
    hide Loop, EncF, InStep, FitsS, BoundedM, RoomAt;
    SlotFits(fs, m, i);
    var c := EncF(fs[i], m.slots[i], Which(fs, m, i)).value;
    var d := EncFrom(fs, m, i + 1).value;
    assert b + tail == c + (d + tail);
    if RoomAt(fs, a, m, i) {
      var next;
      if fs[i].htype.Repeated? {
        next := ArrayField(fs, a, m, st, i, c, d + tail);
      } else {
        next := SingleField(fs, a, m, st, i, c, d + tail);
      }
      FieldsRefused(fs, a, m, next, i + 1, d, tail);
    } else if fs[i].htype.Repeated? {
      ArrayRefused(fs, a, m, st, i, c, d + tail);
    } else {
      SingleRefused(fs, a, m, st, i, c, d + tail);
    }
  }

  lemma NoRoomSomewhere(fs: Fields, a: Msg, m: Msg) returns (j: nat)
    requires SchemaOk(fs) && FitsM(fs, a) && FitsM(fs, m) && !RoomM(fs, a, m)
    ensures j < |fs| && !RoomAt(fs, a, m, j)
  {
    hide FieldOk, FitsS, RoomS;
    j :| 0 <= j < |fs| && !RoomS(fs[j], a.slots[j], Which(fs, a, j), m.slots[j], Which(fs, m, j));
  }

  lemma {:induction false} LoopRefused(fs: Fields, st: Progress, m: Msg, b: bytes, tail: bytes)
    requires SchemaOk(fs) && FitsP(fs, st) && st.fixed.None? && FitsM(fs, m) && BoundedM(fs, m) && !RoomM(fs, st.msg, m)
    requires EncM(fs, m) == Some(b) && |b| < TWO32
    ensures Loop(fs, st, b + tail).Fail?
    decreases fs, 3
  {
    hide Loop, FitsM, BoundedM, Merged, SchemaOk;
    MergeStarts(fs, m, st);
    var j := NoRoomSomewhere(fs, st.msg, m);
    FieldsRefused(fs, st.msg, m, st, 0, b, tail);
  }

  lemma {:induction false} MessageRefused(fs: Fields, a: Msg, m: Msg, b: bytes)
    requires SchemaOk(fs) && FitsM(fs, a) && FitsM(fs, m) && BoundedM(fs, m) && !RoomM(fs, a, m)
    requires EncM(fs, m) == Some(b) && |b| < TWO32
    ensures DecM(fs, a, b).Fail?
    decreases fs, 4
  {
    hide Loop, BoundedM, EncM, RoomM;
    LoopRefused(fs, Start(a), m, b, []);
    assert b + [] == b;
  }

  /** Exactly when an encoding can be decoded onto a structure: if its arrays have room. */
  lemma MessageMergedExactly(fs: Fields, a: Msg, m: Msg, b: bytes)
    requires SchemaOk(fs) && FitsM(fs, a) && FitsM(fs, m) && BoundedM(fs, m)
    requires EncM(fs, m) == Some(b) && |b| < TWO32
    ensures DecM(fs, a, b).Got? <==> RoomM(fs, a, m)
  {
    hide BoundedM, EncM, AlikeM, RoomM, MergeM, DecM;
    if RoomM(fs, a, m) {
      MessageMerged(fs, a, m, b);
    } else {
      MessageRefused(fs, a, m, b);
    }
  }

  /** "Last One Wins" for two encodings: decoding one behind the other is merging one and
      then the other, and succeeds exactly if there is room for both. Only fixed-count
      arrays are excluded, which cannot be received twice in a row. */
  lemma Concatenated(fs: Fields, base: Msg, a: Msg, b: Msg)
    requires SchemaOk(fs) && forall i | 0 <= i < |fs| :: !IsFixedCount(fs[i])
    requires FitsM(fs, base) && FitsM(fs, a) && FitsM(fs, b) && BoundedM(fs, a) && BoundedM(fs, b)
    requires EncM(fs, a).Some? && |EncM(fs, a).value| < TWO32 && EncM(fs, b).Some? && |EncM(fs, b).value| < TWO32
    ensures FitsM(fs, MergeM(fs, base, a))
    ensures var p := DecM(fs, base, EncM(fs, a).value + EncM(fs, b).value);
            var both := MergeM(fs, MergeM(fs, base, a), b);
            && (p.Got? <==> RoomM(fs, base, a) && RoomM(fs, MergeM(fs, base, a), b))
            && (p.Got? ==> p.rest == [] && FitsM(fs, both) && AlikeM(fs, both, p.value))
  {
    hide BoundedM, EncM, AlikeM, RoomM, MergeM, Loop, FitsM, SchemaOk;
    var x, y := EncM(fs, a).value, EncM(fs, b).value;
    MergeMFits(fs, base, a);
    if RoomM(fs, base, a) {
      var st1 := MessageLoop(fs, Start(base), a, x, y);
      assert st1.fixed.None?;
      MergeAlike(fs, MergeM(fs, base, a), st1.msg, b);
      assert y + [] == y;
      if RoomM(fs, st1.msg, b) {
        var st2 := MessageLoop(fs, st1, b, y, []);
        Merge.LoopEnd(fs, st2);
        AlikeTransitive(fs, MergeM(fs, MergeM(fs, base, a), b), MergeM(fs, st1.msg, b), st2.msg);
      } else {
        LoopRefused(fs, st1, b, y, []);
      }
    } else {
      LoopRefused(fs, Start(base), a, x, y);
    }
  }

  // ----- onto a fresh message -----

  /** Proto3 singular fields have no default value but zero, at any depth: absence stands
      for zero. Fixed-length bytes are never left out, a submessage's defaults are those
      of its fields, and an array without items has none. */
  ghost predicate ZeroDefaults(fs: Fields)
    decreases fs
  {
    forall i | 0 <= i < |fs| :: ZeroDefaultsF(fs[i])
  }

  ghost predicate ZeroDefaultsF(f: Field)
    decreases f
  {
    && (IsProto3Singular(f) && f.init.Some? && !f.ltype.Submessage? && !f.ltype.FixedLengthBytes? ==>
          FitsV(f.ltype, f.dataSize, f.init.value) && IsZeroV(f.ltype, f.dataSize, f.init.value))
    && (f.ltype.Submessage? && (f.htype.Repeated? ==> f.arraySize > 0) ==> ZeroDefaults(f.ltype.fields))
  }

  // ----- the state a message is decoded onto -----

  ghost predicate FreshV(lt: LType, size: nat, v: Value, singular: bool)
    requires FitsV(lt, size, v)
    decreases lt
  {
    match lt
    case Submessage(fs) => FreshM(fs, v.msg)
    case FixedLengthBytes => true
    case _ => singular ==> IsZeroV(lt, size, v)
  }

  ghost predicate FreshS(f: Field, s: Slot)
    requires FitsS(f, s)
    decreases f
  {
    match f.htype
    case Required => FreshV(f.ltype, f.dataSize, s.v, false)
    case Optional => (s.Opt? ==> !s.has) && FreshV(f.ltype, f.dataSize, s.v, s.Single?)
    case OneOf => true
    case Repeated => s.Rep? ==> s.count == 0
  }

  /** Nothing has been received yet: the state after the default pass. */
  ghost predicate FreshM(fs: Fields, m: Msg)
    requires FitsM(fs, m)
    decreases fs
  {
    forall i | 0 <= i < |fs| :: FreshS(fs[i], m.slots[i]) && (fs[i].htype.OneOf? ==> Which(fs, m, i) == 0)
  }

  lemma {:induction false} DefaultsFreshS(f: Field, s: Slot)
    requires FieldOk(f) && FitsS(f, s) && ZeroDefaultsF(f)
    ensures FitsS(f, DefaultS(f, s)) && FreshS(f, DefaultS(f, s))
    decreases f
  {
    DefaultSFits(f, s);
    if f.ltype.Submessage? && (s.Single? || s.Opt?) {
      DefaultsFresh(f.ltype.fields, s.v.msg);
    }
  }

  lemma {:induction false} DefaultsFresh(fs: Fields, m: Msg)
    requires SchemaOk(fs) && FitsM(fs, m) && ZeroDefaults(fs)
    ensures FitsM(fs, DefaultM(fs, m)) && FreshM(fs, DefaultM(fs, m))
    decreases fs
  {
    DefaultMFits(fs, m);
    forall i | 0 <= i < |fs|
      ensures FreshS(fs[i], DefaultM(fs, m).slots[i])
    {
      DefaultsFreshS(fs[i], m.slots[i]);
    }
  }

  // ----- what is not sent is what the default pass leaves -----

  lemma {:induction false} ZeroIsFreshV(f: Field, a: Value, b: Value)
    requires FieldOk(f) && FitsV(f.ltype, f.dataSize, a) && FitsV(f.ltype, f.dataSize, b)
    requires IsZeroV(f.ltype, f.dataSize, a) && FreshV(f.ltype, f.dataSize, b, true)
    ensures SameV(f.ltype, f.dataSize, a, b)
    decreases f, 0
  {
    match f.ltype
    case Submessage(fs) => ZeroIsFreshM(fs, a.msg, b.msg);
    case _ =>
  }

  lemma {:induction false} ZeroIsFreshS(f: Field, a: Slot, b: Slot)
    requires FieldOk(f) && FitsS(f, a) && FitsS(f, b)
    requires IsZeroS(f, a, 0) && FreshS(f, b)
    ensures SameS(f, a, 0, b, 0)
    decreases f, 1
  {
    if IsProto3Singular(f) {
      ZeroIsFreshV(f, a.v, b.v);
    }
  }

  lemma {:induction false} ZeroIsFreshM(fs: Fields, a: Msg, b: Msg)
    requires SchemaOk(fs) && FitsM(fs, a) && FitsM(fs, b)
    requires IsZeroM(fs, a) && FreshM(fs, b)
    ensures SameM(fs, a, b)
    decreases fs
  {
    forall i | 0 <= i < |fs|
      ensures SameS(fs[i], a.slots[i], Which(fs, a, i), b.slots[i], Which(fs, b, i))
    {
      SlotFits(fs, a, i);
      assert IsZeroS(fs[i], a.slots[i], Which(fs, a, i));
      ZeroIsFreshS(fs[i], a.slots[i], b.slots[i]);
    }
  }

  /** Merging into a fresh message gives the message. */
  lemma {:induction false} FreshMergeV(f: Field, a: Value, v: Value)
    requires FieldOk(f) && ZeroDefaultsF(f) && FitsV(f.ltype, f.dataSize, a) && FitsV(f.ltype, f.dataSize, v)
    requires f.htype.Repeated? ==> f.arraySize > 0
    requires f.ltype.Submessage? && !f.htype.Repeated? ==> FreshM(f.ltype.fields, a.msg)
    ensures FitsV(f.ltype, f.dataSize, MergeV(f, a, v)) && SameV(f.ltype, f.dataSize, v, MergeV(f, a, v))
    decreases f, 0
  {
    MergeVFits(f, a, v);
    if f.ltype.Submessage? {
      BaseFits(f, a);
      DefaultsFresh(f.ltype.fields, a.msg);
      FreshMerge(f.ltype.fields, Base(f, a).msg, v.msg);
    } else {
      AlikeReflexiveV(f, v);
      AlikeSameV(f, v, v);
    }
  }

  lemma {:induction false} FreshMergeS(f: Field, a: Slot, wa: nat, s: Slot, ws: nat)
    requires FieldOk(f) && ZeroDefaultsF(f) && FitsS(f, a) && FitsS(f, s) && FreshS(f, a)
    requires f.htype.OneOf? ==> wa == 0
    ensures FitsS(f, MergeS(f, a, wa, s, ws))
    ensures SameS(f, s, ws, MergeS(f, a, wa, s, ws), if f.htype.OneOf? && ws == 0 then wa else ws)
    decreases f, 1
  {
    hide FitsV, SameV, MergeV, FieldOk, FreshV, IsZeroV;
    MergeSFits(f, a, wa, s, ws);
    if f.htype.Repeated? {
      var y := MergeS(f, a, wa, s, ws);
      forall k | 0 <= k < |s.items| && (s.Rep? ==> k < s.count)
        ensures SameV(f.ltype, f.dataSize, s.items[k], y.items[k])
      {
        FreshMergeV(f, a.items[k], s.items[k]);
      }
    } else if !Present(f, s, ws) {
      AbsentFresh(f, a, s, ws);
    } else if f.htype.OneOf? {
      FreshUnion(f, a.v, wa);
      FreshMergeV(f, UnionBase(f, a.v, wa), s.v);
    } else {
      FreshSub(f, a);
      FreshMergeV(f, a.v, s.v);
    }
  }

  lemma FreshSub(f: Field, a: Slot)
    requires FitsS(f, a) && FreshS(f, a) && (f.htype.Required? || f.htype.Optional?)
    ensures f.ltype.Submessage? ==> a.v.Sub? && FitsM(f.ltype.fields, a.v.msg) && FreshM(f.ltype.fields, a.v.msg)
  {
    assert FitsV(f.ltype, f.dataSize, a.v);
  }

  lemma AbsentFresh(f: Field, a: Slot, s: Slot, ws: nat)
    requires FieldOk(f) && FitsS(f, a) && FitsS(f, s) && FreshS(f, a) && !f.htype.Repeated? && !Present(f, s, ws)
    ensures SameS(f, s, ws, a, if f.htype.OneOf? then ws else 0)
  {
    hide FieldOk, FitsV, SameV, FreshV;
    if !f.htype.OneOf? {
      ZeroIsFreshS(f, s, a);
    }
  }

  lemma FreshUnion(f: Field, v: Value, which: nat)
    requires FieldOk(f) && ZeroDefaultsF(f) && !f.htype.Repeated? && FitsV(f.ltype, f.dataSize, v) && which == 0
    ensures FitsV(f.ltype, f.dataSize, UnionBase(f, v, which))
    ensures f.ltype.Submessage? ==> FreshM(f.ltype.fields, UnionBase(f, v, which).msg)
  {
    UnionBaseFits(f, v, which);
    if f.ltype.Submessage? {
      ZeroMFits(f.ltype.fields);
      DefaultsFresh(f.ltype.fields, ZeroM(f.ltype.fields));
    }
  }

  lemma {:induction false} FreshMerge(fs: Fields, a: Msg, m: Msg)
    requires SchemaOk(fs) && ZeroDefaults(fs) && FitsM(fs, a) && FitsM(fs, m) && FreshM(fs, a)
    ensures FitsM(fs, MergeM(fs, a, m)) && SameM(fs, m, MergeM(fs, a, m))
    decreases fs
  {
    hide FitsS, SameS, MergeS, FreshS, FieldOk;
    MergeMFits(fs, a, m);
    var y := MergeM(fs, a, m);
    forall i | 0 <= i < |fs|
      ensures FitsS(fs[i], m.slots[i]) && FitsS(fs[i], y.slots[i])
      ensures SameS(fs[i], m.slots[i], Which(fs, m, i), y.slots[i], Which(fs, y, i))
    {
      SlotFits(fs, a, i);
      SlotFits(fs, m, i);
      assert ZeroDefaultsF(fs[i]);
      FreshMergeS(fs[i], a.slots[i], Which(fs, a, i), m.slots[i], Which(fs, m, i));
      SameWhich(fs[i], m.slots[i], Which(fs, m, i), y.slots[i], if fs[i].htype.OneOf? && Which(fs, m, i) == 0 then Which(fs, a, i) else Which(fs, m, i), Which(fs, y, i));
    }
  }

  lemma SameWhich(f: Field, s: Slot, ws: nat, y: Slot, wy: nat, w: nat)
    requires FitsS(f, s) && FitsS(f, y) && SameS(f, s, ws, y, wy) && (f.htype.OneOf? ==> w == wy)
    ensures SameS(f, s, ws, y, w)
  {
    hide FitsV, SameV;
  }

  lemma {:induction false} FreshVacantV(f: Field, v: Value)
    requires FitsV(f.ltype, f.dataSize, v) && (f.ltype.Submessage? ==> FreshM(f.ltype.fields, v.msg))
    ensures VacantV(f, v)
    decreases f, 0
  {
    if f.ltype.Submessage? {
      FreshVacant(f.ltype.fields, v.msg);
    }
  }

  lemma {:induction false} FreshVacant(fs: Fields, m: Msg)
    requires FitsM(fs, m) && FreshM(fs, m)
    ensures VacantM(fs, m)
    decreases fs
  {
    hide FitsV, FreshV, VacantV;
    forall i | 0 <= i < |fs|
      ensures VacantS(fs[i], m.slots[i], Which(fs, m, i))
    {
      assert FitsS(fs[i], m.slots[i]) && FreshS(fs[i], m.slots[i]);
      if fs[i].htype.Required? || fs[i].htype.Optional? {
        FreshSub(fs[i], m.slots[i]);
        FreshVacantV(fs[i], m.slots[i].v);
      }
    }
  }

  /** Round trip: onto a fresh message, decoding the encoding of m succeeds, consumes it all
      and yields m, up to `SameM`. */
  lemma MessageRoundTrip(fs: Fields, base: Msg, m: Msg, b: bytes)
    requires SchemaOk(fs) && ZeroDefaults(fs) && FitsM(fs, base) && FreshM(fs, base)
    requires FitsM(fs, m) && BoundedM(fs, m)
    requires EncM(fs, m) == Some(b) && |b| < TWO32
    ensures var p := DecM(fs, base, b);
            p.Got? && p.rest == [] && SameM(fs, m, p.value)
  {
    hide FreshM, BoundedM, EncM, SameM, DecM, VacantM, RoomM, MergeM, AlikeM;
    FreshVacant(fs, base);
    VacantRoom(fs, base, m);
    MessageMerged(fs, base, m, b);
    FreshMerge(fs, base, m);
    AlikeSame(fs, MergeM(fs, base, m), DecM(fs, base, b).value);
    SameTransitive(fs, m, MergeM(fs, base, m), DecM(fs, base, b).value);
  }
}
