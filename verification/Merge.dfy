/** Concatenated input: the decoder's state after a prefix is all that the rest of the
    input depends on. "Last One Wins" and the transparency of unknown fields follow. */
module Merge {
  import opened Wire
  import opened Schema
  import opened Decoding

  // ----- every reader looks only at the bytes it consumes -----

  lemma Varint64Local(s: bytes, y: bytes)
    requires Varint64(s).Got?
    ensures Varint64(s + y) == Got(Varint64(s).value, Varint64(s).rest + y)
  {
    hide Dec64;
    Dec64Local(s, 0, 0, y);
  }

  lemma SplitLocal(s: bytes, n: nat, y: bytes)
    requires n <= |s|
    ensures (s + y)[..n] == s[..n] && (s + y)[n..] == s[n..] + y
  {
  }

  lemma DecVLocal(f: Field, was: Value, s: bytes, y: bytes)
    requires FieldOk(f) && FitsV(f.ltype, f.dataSize, was) && DecV(f, was, s).Got?
    ensures DecV(f, was, s + y) == Got(DecV(f, was, s).value, DecV(f, was, s).rest + y)
  {
    hide Varint32, Varint64, Delimited, DecM, FieldOk;
    match f.ltype
    case Fixed32 => SplitLocal(s, 4, y);
    case Fixed64 => SplitLocal(s, 8, y);
    case Submessage(fs) => DelimitedLocal(s, y);
    case Varint => Varint64Local(s, y);
    case UVarint => Varint64Local(s, y);
    case SVarint => Varint64Local(s, y);
    case _ =>
      Varint32Local(s, y);
      var n, rest := Varint32(s).value, Varint32(s).rest;
      if n <= |rest| {
        SplitLocal(rest, n, y);
      }
  }

  lemma DecArrayLocal(f: Field, items: seq<Value>, count: nat, wt: WireType, s: bytes, y: bytes)
    requires FieldOk(f) && FitsItems(f, items) && DecArray(f, items, count, wt, s).Got?
    ensures DecArray(f, items, count, wt, s + y)
         == Got(DecArray(f, items, count, wt, s).value, DecArray(f, items, count, wt, s).rest + y)
  {
    hide Delimited, DecV, DecPacked, FieldOk;
    if wt == WtString && Packable(f.ltype) {
      DelimitedLocal(s, y);
    } else {
      DecVLocal(f, items[count], s, y);
    }
  }

  lemma DecFieldLocal(fs: Fields, st: Progress, i: nat, wt: WireType, s: bytes, y: bytes)
    requires SchemaOk(fs) && FitsP(fs, st) && i < |fs| && DecField(fs, st, i, wt, s).Got?
    ensures DecField(fs, st, i, wt, s + y)
         == Got(DecField(fs, st, i, wt, s).value, DecField(fs, st, i, wt, s).rest + y)
  {
    hide DecV, DecArray, FieldOk, FitsV;
    SlotFits(fs, st.msg, i);
    var f, slot := fs[i], st.msg.slots[i];
    match f.htype
    case Required => DecVLocal(f, slot.v, s, y);
    case Optional => DecVLocal(f, slot.v, s, y);
    case OneOf =>
      UnionBaseFits(f, slot.v, Which(fs, st.msg, i));
      DecVLocal(f, UnionBase(f, slot.v, Which(fs, st.msg, i)), s, y);
    case Repeated =>
      if f.sizeOffset == 0 {
        DecArrayLocal(f, slot.items, EnterFixed(fs, st, i).value.fixedSize, wt, s, y);
      } else {
        DecArrayLocal(f, slot.items, slot.count, wt, s, y);
      }
  }

  lemma DispatchLocal(fs: Fields, st: Progress, tag: nat, wt: WireType, s: bytes, y: bytes)
    requires SchemaOk(fs) && FitsP(fs, st) && Dispatch(fs, st, tag, wt, s).Got?
    ensures Dispatch(fs, st, tag, wt, s + y)
         == Got(Dispatch(fs, st, tag, wt, s).value, Dispatch(fs, st, tag, wt, s).rest + y)
  {
    hide DecField, Varint32, SkipField, SchemaOk;
    var i := IndexOf(fs, tag);
    if i < |fs| {
      DecFieldLocal(fs, st, i, wt, s, y);
    } else if fs == [] && tag == 0 {
      Varint32Local(s, y);
    } else {
      SkipFieldLocal(wt, s, y);
    }
  }

  // ----- concatenation -----

  /** The field loop accepts x and runs to its very end, without meeting a zero tag. */
  predicate Exhausts(fs: Fields, st: Progress, x: bytes)
    requires SchemaOk(fs) && FitsP(fs, st)
    decreases |x|
  {
    x == [] ||
    match ReadHeader(x)
    case FieldHeader(tag, wt, rest) =>
      var p := Dispatch(fs, st, tag, wt, rest);
      p.Got? && Exhausts(fs, p.value, p.rest)
    case _ => false
  }

  /** One turn of the loop. */
  lemma LoopTurn(fs: Fields, st: Progress, s: bytes, tag: nat, wt: WireType, rest: bytes)
    requires SchemaOk(fs) && FitsP(fs, st)
    requires s != [] && ReadHeader(s) == FieldHeader(tag, wt, rest)
    ensures Loop(fs, st, s) ==
            if Dispatch(fs, st, tag, wt, rest).Fail? then Fail
            else Loop(fs, Dispatch(fs, st, tag, wt, rest).value, Dispatch(fs, st, tag, wt, rest).rest)
  {
    hide Dispatch, ReadHeader, SchemaOk;
  }

  /** Running the loop on x ++ y is running it on x and then, from the state reached, on y. */
  lemma {:induction false} LoopConcat(fs: Fields, st: Progress, x: bytes, y: bytes)
    requires SchemaOk(fs) && FitsP(fs, st) && Exhausts(fs, st, x)
    ensures Loop(fs, st, x).Got? && Loop(fs, st, x).rest == []
    ensures Loop(fs, st, x + y) == Loop(fs, Loop(fs, st, x).value, y)
    decreases |x|
  {
    hide Dispatch, ReadHeader, SchemaOk, Loop;
    if x == [] {
      assert x + y == y;
      LoopEnd(fs, st);
    } else {
      var h := ReadHeader(x);
      HeaderLocal(x, y);
      DispatchLocal(fs, st, h.tag, h.wt, h.rest, y);
      var p := Dispatch(fs, st, h.tag, h.wt, h.rest);
      LoopTurn(fs, st, x, h.tag, h.wt, h.rest);
      LoopTurn(fs, st, x + y, h.tag, h.wt, h.rest + y);
      LoopConcat(fs, p.value, p.rest, y);
    }
  }

  lemma LoopEnd(fs: Fields, st: Progress)
    requires SchemaOk(fs) && FitsP(fs, st)
    ensures Loop(fs, st, []) == Got(st, [])
  {
  }

  predicate Unchecked(fs: Fields) {
    forall i | 0 <= i < |fs| :: !fs[i].htype.Required? && !IsFixedCount(fs[i])
  }

  /** Without required and fixed-count fields the loop carries nothing but the message. */
  lemma {:induction false} LoopCarriesMessage(fs: Fields, m: Msg, x: bytes)
    requires SchemaOk(fs) && FitsM(fs, m) && Unchecked(fs)
    ensures Loop(fs, Start(m), x).Got? ==> Loop(fs, Start(m), x).value == Start(Loop(fs, Start(m), x).value.msg)
    decreases |x|
  {
    hide SchemaOk, DecField, ReadHeader, SkipField, Varint32;
    if x != [] && ReadHeader(x).FieldHeader? {
      var h := ReadHeader(x);
      var p := Dispatch(fs, Start(m), h.tag, h.wt, h.rest);
      if p.Got? {
        if IndexOf(fs, h.tag) < |fs| {
          FieldCarriesMessage(fs, m, IndexOf(fs, h.tag), h.wt, h.rest);
        }
        LoopCarriesMessage(fs, p.value.msg, p.rest);
      }
    }
  }

  lemma FieldCarriesMessage(fs: Fields, m: Msg, i: nat, wt: WireType, s: bytes)
    requires SchemaOk(fs) && FitsM(fs, m) && i < |fs| && Unchecked(fs)
    requires DecField(fs, Start(m), i, wt, s).Got?
    ensures DecField(fs, Start(m), i, wt, s).value == Start(DecField(fs, Start(m), i, wt, s).value.msg)
  {
    hide DecV, DecArray, FieldOk, FitsV;
    SlotFits(fs, m, i);
  }

  /** "Last One Wins": decoding x ++ y is decoding x and then y on top of it, so scalars
      are overwritten, arrays appended to, submessages merged and unions switched. */
  lemma ConcatenationMerges(fs: Fields, m: Msg, x: bytes, y: bytes)
    requires SchemaOk(fs) && FitsM(fs, m) && Unchecked(fs)
    requires Exhausts(fs, Start(m), x)
    ensures DecM(fs, m, x).Got? && DecM(fs, m, x).rest == []
    ensures DecM(fs, m, x + y) == DecM(fs, DecM(fs, m, x).value, y)
  {
    hide Loop, SchemaOk, Exhausts;
    LoopConcat(fs, Start(m), x, y);
    LoopCarriesMessage(fs, m, x);
    forall i | 0 <= i < |fs|
      ensures !Tracked(fs, i)
    {
    }
  }

  /** Two records of one submessage field merge as their payloads would in one record. */
  lemma SubmessagesMerge(f: Field, was: Value, d1: bytes, d2: bytes)
    requires FieldOk(f) && f.ltype.Submessage? && !f.htype.Repeated? && FitsV(f.ltype, f.dataSize, was)
    requires Unchecked(f.ltype.fields) && Exhausts(f.ltype.fields, Start(was.msg), d1)
    requires |d1| + |d2| < TWO32
    ensures var first := DecV(f, was, EncString(d1));
            first.Got? &&
            DecV(f, first.value, EncString(d2)) == DecV(f, was, EncString(d1 + d2))
  {
    hide DecM, Exhausts, SchemaOk, Delimited, EncString;
    assert EncString(d1) + [] == EncString(d1);
    assert EncString(d2) + [] == EncString(d2);
    assert EncString(d1 + d2) + [] == EncString(d1 + d2);
    DelimitedRoundTrip(d1, []);
    DelimitedRoundTrip(d2, []);
    DelimitedRoundTrip(d1 + d2, []);
    ConcatenationMerges(f.ltype.fields, was.msg, d1, d2);
  }

  // ----- unknown fields -----

  /** One well-formed record under a field number that is not in the schema. */
  predicate UnknownRecord(fs: Fields, tag: nat, u: bytes) {
    var h := ReadHeader(u);
    && h.FieldHeader?
    && h.tag == tag
    && (forall i | 0 <= i < |fs| :: fs[i].tag != tag)
    && SkipField(h.wt, h.rest) == Got((), [])
  }

  /** Unknown fields are transparent: at any record boundary an unknown record changes
      neither success nor the message nor the bytes left, and a fixed-count array that
      is being received keeps its counter across it. */
  lemma UnknownFieldTransparent(fs: Fields, tag: nat, m: Msg, x: bytes, u: bytes, y: bytes)
    requires SchemaOk(fs) && FitsM(fs, m) && (tag >= 1 || fs != [])
    requires Exhausts(fs, Start(m), x) && UnknownRecord(fs, tag, u)
    ensures DecM(fs, m, x + u + y) == DecM(fs, m, x + y)
  {
    hide Loop, SchemaOk, Exhausts, ReadHeader, UnknownRecord;
    LoopConcat(fs, Start(m), x, y);
    LoopConcat(fs, Start(m), x, u + y);
    assert x + u + y == x + (u + y);
    SkipsUnknown(fs, tag, Loop(fs, Start(m), x).value, u, y);
  }

  ghost predicate Transparent(fs: Fields, tag: nat)
    requires SchemaOk(fs)
  {
    forall m, x, u, y | FitsM(fs, m) && Exhausts(fs, Start(m), x) && UnknownRecord(fs, tag, u) ::
      DecM(fs, m, x + u + y) == DecM(fs, m, x + y)
  }

  /** Exactly when: field number 0 in an empty message type is the one exception. */
  lemma TransparentExactly(fs: Fields, tag: nat)
    requires SchemaOk(fs)
    ensures Transparent(fs, tag) <==> tag >= 1 || fs != []
  {
    if tag >= 1 || fs != [] {
      forall m, x, u, y | FitsM(fs, m) && Exhausts(fs, Start(m), x) && UnknownRecord(fs, tag, u)
        ensures DecM(fs, m, x + u + y) == DecM(fs, m, x + y)
      {
        UnknownFieldTransparent(fs, tag, m, x, u, y);
      }
    } else {
      var m := Msg([], []);
      EmptyTypeFails(m);
      var none: bytes, u: bytes := [], [2, 1, 128];
      assert Exhausts(fs, Start(m), none);
      assert none + u + none == u && none + none == none;
      assert UnknownRecord(fs, 0, u) && DecM(fs, m, none + u + none) != DecM(fs, m, none + none);
    }
  }

  /** In an empty message type a record with number 0 is not skipped as its wire type
      says: its length is taken for a bool, and its contents for further records. */
  lemma EmptyTypeFails(m: Msg)
    requires FitsM([], m)
    ensures UnknownRecord([], 0, [2, 1, 128])
    ensures DecM([], m, []).Got? && DecM([], m, [2, 1, 128]).Fail?
  {
    var u: bytes := [2, 1, 128];
    assert Varint32(u) == Got(2, [1, 128]) by { assert u[1..] == [1, 128]; }
    var r: bytes := [1, 128];
    assert Varint32(r) == Got(1, [128]) by { assert r[1..] == [128]; }
    var t: bytes := [128];
    assert Varint32(t).Fail? by { assert t[1..] == []; }
    assert ReadHeader(u) == FieldHeader(0, WtString, r);
    assert Delimited(r).Got? && Delimited(r).rest == [];
    LoopTurn([], Start(m), u, 0, WtString, r);
    LoopEnd([], Start(m));
    assert Dispatch([], Start(m), 0, WtString, r) == Got(Start(m), t);
    assert ReadHeader(t).BadHeader?;
    assert Loop([], Start(m), t).Fail?;
  }

  /** Every length-delimited record under a field number outside the schema is one. */
  lemma UnknownString(fs: Fields, tag: nat, payload: bytes)
    requires 1 <= tag < 0x2000_0000 && |payload| < TWO32
    requires forall i | 0 <= i < |fs| :: fs[i].tag != tag
    ensures UnknownRecord(fs, tag, EncTag(tag, WtString) + EncString(payload))
  {
    hide ReadHeader, Delimited, EncTag, EncString;
    HeaderRoundTrip(tag, WtString, EncString(payload));
    assert EncString(payload) + [] == EncString(payload);
    DelimitedRoundTrip(payload, []);
  }

  lemma HeaderNeedsBytes(s: bytes)
    ensures s == [] ==> ReadHeader(s).BadHeader?
  {
  }

  lemma SkipsUnknown(fs: Fields, tag: nat, st: Progress, u: bytes, y: bytes)
    requires SchemaOk(fs) && FitsP(fs, st) && UnknownRecord(fs, tag, u) && (tag >= 1 || fs != [])
    ensures Loop(fs, st, u + y) == Loop(fs, st, y)
  {
    hide Loop, SchemaOk, ReadHeader, SkipField;
    var h := ReadHeader(u);
    HeaderNeedsBytes(u);
    assert IndexOf(fs, h.tag) == |fs|;
    HeaderLocal(u, y);
    SkipFieldLocal(h.wt, h.rest, y);
    assert [] + y == y;
    LoopTurn(fs, st, u + y, h.tag, h.wt, h.rest + y);
  }
}
