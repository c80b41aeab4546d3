/** The decoder: methods over an input stream and a field iterator, proved to compute
    what `Decoding` specifies. A message that is being filled is passed in and handed
    back; also after an error it has the shape of its descriptors. */
module Decoder {
  import opened Options
  import opened Wire
  import opened Bits
  import opened Schema
  import opened Decoding
  import opened InputStream
  import opened Iterator
  import opened RequiredFields
  import opened DefaultPass
  import Encoder
  import Framing

  // ----- default values -----

  /** pb_field_set_to_default at the iterator's position. `writes` are the writes to memory;
      the slot is what they make of the field, except that a count written over a
      fixed-count array is not told of its items. */
  method FieldSetToDefault(iter: FieldIter, s: Slot) returns (s': Slot, writes: seq<Region>)
    requires iter.Valid() && SchemaOk(iter.fields) && iter.fields != [] && iter.pSize.InStruct?
    requires FieldOk(iter.fields[iter.pos]) && FitsS(iter.fields[iter.pos], s)
    ensures s' == DefaultS(iter.fields[iter.pos], s)
    ensures writes == FieldWrites(iter.fields[iter.pos], iter.pData, iter.pSize.address)
    decreases iter.fields[iter.pos], 1
  {
    hide FitsV, FieldOk, SchemaOk;
    var f, data, size := iter.fields[iter.pos], iter.pData, iter.pSize.address;
    writes := [];
    var initData := true;
    var has := s.Opt?;
    if f.htype.Optional? && size != data {
      has := false;
      writes := [Region(size, SIZEOF_BOOL)];
    } else if f.htype.Repeated? || f.htype.OneOf? {
      writes := [Region(size, SIZEOF_PB_SIZE)];
      initData := false;
    }
    if initData {
      var v, more := ItemSetToDefault(f, data, s.v);
      writes := writes + more;
      s' := if s.Opt? then Opt(has, v) else Single(v);
    } else {
      s' := if s.Rep? then Rep(0, s.items) else s;
    }
  }

  method ItemSetToDefault(f: Field, data: int, v: Value) returns (v': Value, writes: seq<Region>)
    requires FieldOk(f) && FitsV(f.ltype, f.dataSize, v)
    ensures v' == DefaultV(f, v) && writes == DataWrites(f, data)
    decreases f, 0
  {
    if f.ltype.Submessage? {
      var m, inner := MessageSetToDefaults(f.ltype.fields, data, v.msg);
      return Sub(m), inner;
    }
    writes := [Region(data, f.dataSize)];
    v' := if f.init.Some? then f.init.value else ZeroV(f.ltype, f.dataSize);
  }

  /** pb_message_set_to_defaults on a structure at address `dest`. */
  method MessageSetToDefaults(fs: Fields, dest: int, m: Msg) returns (m': Msg, writes: seq<Region>)
    requires SchemaOk(fs) && FitsM(fs, m)
    ensures m' == DefaultM(fs, m) && FitsM(fs, m')
    ensures writes == DefaultWrites(fs, dest)
    decreases fs, 2
  {
    hide FieldOk, FitsS, FieldWrites, DefaultS, DataAt, SizeAt, RequiredBefore, SchemaOk;
    Encoder.NoZeroTag(fs);
    DefaultMFits(fs, m);
    var iter := new FieldIter();
    var slots, which := m.slots, seq(|m.which|, _ => 0);
    writes := [];
    var nonEmpty := iter.Begin(fs, dest);
    if !nonEmpty {
      m' := Msg(slots, which);
      assert m' == DefaultM(fs, m);
      return;
    }
    while true
      invariant iter.Valid() && iter.fields == fs && iter.base == dest && fs != [] && |slots| == |fs|
      invariant iter.pSize == iter.HomeSize()
      invariant forall i | 0 <= i < iter.pos :: slots[i] == DefaultS(fs[i], m.slots[i])
      invariant forall i | iter.pos <= i < |fs| :: slots[i] == m.slots[i]
      invariant writes == WritesTo(fs, dest, iter.pos)
      decreases |fs| - iter.pos
    {
      SlotFits(fs, m, iter.pos);
      var s, more := FieldSetToDefault(iter, slots[iter.pos]);
      slots := slots[iter.pos := s];
      writes := writes + more;
      var any := iter.Next();
      if !any {
        break;
      }
    }
    m' := Msg(slots, which);
    assert m' == DefaultM(fs, m);
  }

  // ----- data items -----

  method DecodeInt(stream: IStream, f: Field, was: Value) returns (ok: bool, v: Value)
    requires stream.Valid() && FieldOk(f) && FitsV(f.ltype, f.dataSize, was)
    requires f.ltype.Varint? || f.ltype.UVarint? || f.ltype.SVarint?
    modifies stream
    ensures stream.Valid() && stream.End() == old(stream.End()) && FitsV(f.ltype, f.dataSize, v)
    ensures ok <==> DecInt(f, old(stream.Rem())).Got?
    ensures ok ==> Got(v, stream.Rem()) == DecInt(f, old(stream.Rem()))
  {
    hide Varint64;
    var value;
    v := was;
    ok, value := stream.DecodeVarint();
    if !ok {
      return;
    }
    if f.ltype.UVarint? {
      var clamped := ToUnsigned(value, f.dataSize);
      v := Num(clamped);
      ok := clamped == value;
    } else {
      var svalue;
      if f.ltype.SVarint? {
        svalue := Unzigzag(value);
      } else if f.dataSize == 8 {
        svalue := ToSigned(value, 8);
      } else {
        svalue := ToSigned(value, 4);
      }
      var clamped := ToSigned(svalue, f.dataSize);
      v := Num(clamped);
      ok := clamped == svalue;
    }
  }

  method DecodeBytes(stream: IStream, f: Field, was: Value) returns (ok: bool, v: Value)
    requires stream.Valid() && FieldOk(f) && FitsV(f.ltype, f.dataSize, was) && f.ltype.Bytes?
    modifies stream
    ensures stream.Valid() && stream.End() == old(stream.End()) && FitsV(f.ltype, f.dataSize, v)
    ensures ok <==> DecBytes(f, was, old(stream.Rem())).Got?
    ensures ok ==> Got(v, stream.Rem()) == DecBytes(f, was, old(stream.Rem()))
  {
    hide Varint32, FieldOk, AddSize;
    var size, eof, out;
    v := was;
    ok, size, eof := stream.DecodeVarint32();
    if !ok {
      return;
    }
    var alloc := AddSize(size, BYTES_OFFSET);
    if size > PB_SIZE_MAX || size > alloc || alloc > f.dataSize {
      ok := false;
      return;
    }
    BytesFit(f, was, size);
    v := Buf(size, was.data);
    ok, out := stream.Read(size);
    if ok {
      v := Buf(size, out + was.data[size..]);
    }
  }

  lemma BytesFit(f: Field, was: Value, size: nat)
    requires FieldOk(f) && FitsV(f.ltype, f.dataSize, was) && f.ltype.Bytes?
    requires size <= AddSize(size, BYTES_OFFSET) <= f.dataSize
    ensures size <= |was.data|
  {
  }

  method DecodeString(stream: IStream, f: Field, was: Value) returns (ok: bool, v: Value)
    requires stream.Valid() && FieldOk(f) && FitsV(f.ltype, f.dataSize, was) && f.ltype.String?
    modifies stream
    ensures stream.Valid() && stream.End() == old(stream.End()) && FitsV(f.ltype, f.dataSize, v)
    ensures ok <==> DecString(f, was, old(stream.Rem())).Got?
    ensures ok ==> Got(v, stream.Rem()) == DecString(f, was, old(stream.Rem()))
  {
    hide Varint32;
    var size, eof, out;
    v := was;
    ok, size, eof := stream.DecodeVarint32();
    if !ok {
      return;
    }
    var alloc := (size + 1) % TWO32;
    if alloc < size || alloc > f.dataSize {
      ok := false;
      return;
    }
    ok, out := stream.Read(size);
    var chars := if ok then out + was.chars[size..] else was.chars;
    v := Text(chars[size := 0]);
    assert ok ==> chars[size := 0] == out + [0] + was.chars[size + 1..];
  }

  method DecodeFixedLength(stream: IStream, f: Field, was: Value) returns (ok: bool, v: Value)
    requires stream.Valid() && FitsV(f.ltype, f.dataSize, was) && f.ltype.FixedLengthBytes?
    modifies stream
    ensures stream.Valid() && stream.End() == old(stream.End()) && FitsV(f.ltype, f.dataSize, v)
    ensures ok <==> DecFixedLength(f, old(stream.Rem())).Got?
    ensures ok ==> Got(v, stream.Rem()) == DecFixedLength(f, old(stream.Rem()))
  {
    hide Varint32;
    var size, eof, out;
    v := was;
    ok, size, eof := stream.DecodeVarint32();
    if !ok {
      return;
    }
    if size > PB_SIZE_MAX {
      ok := false;
      return;
    }
    if size == 0 {
      v := Raw(Zeros(f.dataSize));
      return;
    }
    if size != f.dataSize {
      ok := false;
      return;
    }
    ok, out := stream.Read(f.dataSize);
    if ok {
      v := Raw(out);
    }
  }

  /** The decoder of one item, chosen by the logical type. */
  method DecodeValue(stream: IStream, f: Field, was: Value) returns (ok: bool, v: Value)
    requires stream.Valid() && FieldOk(f) && FitsV(f.ltype, f.dataSize, was)
    modifies stream
    ensures stream.End() <= old(stream.End())
    ensures stream.Valid() && FitsV(f.ltype, f.dataSize, v)
    ensures ok <==> DecV(f, was, old(stream.Rem())).Got?
    ensures ok ==> Got(v, stream.Rem()) == DecV(f, was, old(stream.Rem())) && stream.End() == old(stream.End())
    decreases stream.bytesLeft, 1
  {
    hide Varint32, DecInt, DecBytes, DecString, DecFixedLength, Delimited, DecM;
    var out;
    v := was;
    match f.ltype
    case Bool =>
      var value, eof;
      ok, value, eof := stream.DecodeVarint32();
      if ok {
        v := Flag(value != 0);
      }
    case Fixed32 =>
      ok, out := stream.Read(4);
      if ok {
        v := Num(ReadWord(out));
      }
    case Fixed64 =>
      ok, out := stream.Read(8);
      if ok {
        v := Num(ReadWord(out));
      }
    case Bytes => ok, v := DecodeBytes(stream, f, was);
    case String => ok, v := DecodeString(stream, f, was);
    case FixedLengthBytes => ok, v := DecodeFixedLength(stream, f, was);
    case Submessage(fs) => ok, v := DecodeSubmessage(stream, f, was);
    case _ => ok, v := DecodeInt(stream, f, was);
  }

  method DecodeSubmessage(stream: IStream, f: Field, was: Value) returns (ok: bool, v: Value)
    requires stream.Valid() && FieldOk(f) && FitsV(f.ltype, f.dataSize, was) && f.ltype.Submessage?
    modifies stream
    ensures stream.End() <= old(stream.End())
    ensures stream.Valid() && FitsV(f.ltype, f.dataSize, v)
    ensures ok <==> DecV(f, was, old(stream.Rem())).Got?
    ensures ok ==> Got(v, stream.Rem()) == DecV(f, was, old(stream.Rem())) && stream.End() == old(stream.End())
    decreases stream.bytesLeft, 0
  {
    hide Delimited, DecM, SchemaOk;
    var sub, status, m, closed;
    v := was;
    ok, sub := stream.MakeStringSubstream();
    if !ok {
      return;
    }
    if f.htype.Repeated? {
      status, m := Decode(sub, f.ltype.fields, was.msg);
    } else {
      status, m := DecodeNoInit(sub, f.ltype.fields, was.msg);
    }
    v := Sub(m);
    closed := stream.CloseStringSubstream(sub);
    ok := closed && status;
  }

  // ----- records -----

  /** A packed run: items until the run or the array is exhausted. */
  method DecodePacked(stream: IStream, f: Field, items: seq<Value>, count: nat)
    returns (ok: bool, items': seq<Value>, n: nat)
    requires stream.Valid() && FieldOk(f) && FitsItems(f, items) && Packable(f.ltype)
    modifies stream
    ensures stream.End() <= old(stream.End())
    ensures stream.Valid() && FitsItems(f, items')
    ensures ok <==> DecArray(f, items, count, WtString, old(stream.Rem())).Got?
    ensures ok ==> Got((items', n), stream.Rem()) == DecArray(f, items, count, WtString, old(stream.Rem()))
    ensures ok ==> stream.End() == old(stream.End())
    decreases stream.bytesLeft, 1
  {
    hide Delimited, DecV, FieldOk, FitsV;
    var sub, status, v, closed;
    items', n, status := items, count, true;
    ok, sub := stream.MakeStringSubstream();
    if !ok {
      return;
    }
    ghost var run := sub.Rem();
    while sub.bytesLeft > 0 && n < f.arraySize
      invariant stream.Valid() && sub.Valid() && sub.data == stream.data && status
      invariant sub.End() + stream.bytesLeft == old(stream.End())
      invariant stream.data[sub.End()..old(stream.End())] == Delimited(old(stream.Rem())).rest
      invariant stream.End() <= old(stream.End()) && sub.bytesLeft < old(stream.bytesLeft)
      invariant FitsItems(f, items')
      invariant DecPacked(f, items, count, run) == DecPacked(f, items', n, sub.Rem())
      decreases sub.bytesLeft
    {
      status, v := DecodeValue(sub, f, items'[n]);
      if !status {
        break;
      }
      items' := items'[n := v];
      n := n + 1;
    }
    if sub.bytesLeft != 0 {
      ok := false;
      return;
    }
    closed := stream.CloseStringSubstream(sub);
    ok := closed && status;
  }

  method DecodeArray(stream: IStream, wt: WireType, f: Field, items: seq<Value>, count: nat)
    returns (ok: bool, items': seq<Value>, n: nat)
    requires stream.Valid() && FieldOk(f) && FitsItems(f, items)
    modifies stream
    ensures stream.End() <= old(stream.End())
    ensures stream.Valid() && FitsItems(f, items')
    ensures ok <==> DecArray(f, items, count, wt, old(stream.Rem())).Got?
    ensures ok ==> Got((items', n), stream.Rem()) == DecArray(f, items, count, wt, old(stream.Rem()))
    ensures ok ==> stream.End() == old(stream.End())
    decreases stream.bytesLeft, 2
  {
    hide DecV, FieldOk, FitsV, Delimited, DecPacked;
    if wt == WtString && Packable(f.ltype) {
      ok, items', n := DecodePacked(stream, f, items, count);
    } else {
      items', n := items, count;
      n := n + 1;
      if count >= f.arraySize {
        return false, items', n;
      }
      var v;
      ok, v := DecodeValue(stream, f, items[count]);
      items' := items[count := v];
    }
  }

  /** decode_static_field at the iterator's position. A fixed-count array counts in
      `counter`, all other state is in the message. */
  method DecodeStaticField(stream: IStream, wt: WireType, iter: FieldIter, m: Msg, counter: nat, ghost st: Progress)
    returns (ok: bool, m': Msg, counter': nat)
    requires stream.Valid() && iter.Valid() && SchemaOk(iter.fields) && FitsP(iter.fields, st) && st.msg == m
    requires iter.fields != []
    requires IsFixedCount(iter.fields[iter.pos]) ==> st.fixed == Some(iter.pos) && st.fixedSize == counter && iter.pSize == FixedCounter
    modifies stream
    ensures stream.End() <= old(stream.End())
    ensures stream.Valid() && FitsM(iter.fields, m')
    ensures ok <==> DecField(iter.fields, st, iter.pos, wt, old(stream.Rem())).Got?
    ensures ok ==> stream.End() == old(stream.End())
    ensures ok ==> var p := DecField(iter.fields, st, iter.pos, wt, old(stream.Rem()));
                   stream.Rem() == p.rest && m' == p.value.msg
                   && (IsFixedCount(iter.fields[iter.pos]) ==> counter' == p.value.fixedSize)
                   && (!IsFixedCount(iter.fields[iter.pos]) ==> counter' == counter)
    decreases stream.bytesLeft, 3
  {
    hide DecV, DecArray, FieldOk, FitsV;
    var fs, i := iter.fields, iter.pos;
    SlotFits(fs, m, i);
    var f, slot := fs[i], m.slots[i];
    var v, items, n;
    counter' := counter;
    match f.htype
    case Required =>
      ok, v := DecodeValue(stream, f, slot.v);
      m' := m.(slots := m.slots[i := Single(v)]);
    case Optional =>
      ok, v := DecodeValue(stream, f, slot.v);
      m' := m.(slots := m.slots[i := if f.sizeOffset == 0 then Single(v) else Opt(true, v)]);
    case Repeated =>
      if iter.pSize == FixedCounter {
        ok, items, counter' := DecodeArray(stream, wt, f, slot.items, counter);
        m' := m.(slots := m.slots[i := FixedCount(items)]);
      } else {
        ok, items, n := DecodeArray(stream, wt, f, slot.items, slot.count);
        m' := m.(slots := m.slots[i := Rep(n, items)]);
      }
    case OneOf =>
      ok, m' := DecodeMember(stream, fs, i, m);
  }

  method DecodeMember(stream: IStream, fs: Fields, i: nat, m: Msg) returns (ok: bool, m': Msg)
    requires stream.Valid() && SchemaOk(fs) && FitsM(fs, m) && i < |fs| && fs[i].htype.OneOf?
    requires FieldOk(fs[i]) && FitsS(fs[i], m.slots[i])
    modifies stream
    ensures stream.End() <= old(stream.End())
    ensures stream.Valid() && FitsM(fs, m')
    ensures FitsV(fs[i].ltype, fs[i].dataSize, UnionBase(fs[i], m.slots[i].v, Which(fs, m, i)))
    ensures var p := DecV(fs[i], UnionBase(fs[i], m.slots[i].v, Which(fs, m, i)), old(stream.Rem()));
            && (ok <==> p.Got?)
            && (ok ==> stream.Rem() == p.rest && stream.End() == old(stream.End())
                       && m' == Msg(m.slots[i := Single(p.value)], m.which[UnionOf(fs, i) := fs[i].tag]))
    decreases stream.bytesLeft, 2
  {
    hide DecV, FieldOk, FitsV;
    var f := fs[i];
    var base, v := m.slots[i].v, m.slots[i].v;
    UnionBaseFits(f, base, Which(fs, m, i));
    if f.ltype.Submessage? && Which(fs, m, i) != f.tag {
      ZeroMFits(f.ltype.fields);
      SubmessageFields(f);
      var fresh_, _ := MessageSetToDefaults(f.ltype.fields, 0, ZeroM(f.ltype.fields));
      base := Sub(fresh_);
    }
    ok, v := DecodeValue(stream, f, base);
    m' := Msg(m.slots[i := Single(v)], m.which[UnionOf(fs, i) := f.tag]);
  }

  lemma SubmessageFields(f: Field)
    requires FieldOk(f) && f.ltype.Submessage?
    ensures SchemaOk(f.ltype.fields)
  {
  }

  // ----- messages -----

  /** Entering a fixed-count array twice is entering it once. */
  lemma EnteredField(fs: Fields, st: Progress, i: nat, wt: WireType, s: bytes)
    requires SchemaOk(fs) && FitsP(fs, st) && i < |fs| && IsFixedCount(fs[i])
    ensures EnterFixed(fs, st, i).None? ==> DecField(fs, st, i, wt, s).Fail?
    ensures EnterFixed(fs, st, i).Some? ==>
              FitsP(fs, EnterFixed(fs, st, i).value) &&
              DecField(fs, EnterFixed(fs, st, i).value, i, wt, s) == DecField(fs, st, i, wt, s)
  {
    hide DecV, DecArray, FieldOk, FitsV, FitsS;
  }

  lemma FieldEffect(fs: Fields, st: Progress, i: nat, wt: WireType, s: bytes)
    requires SchemaOk(fs) && FitsP(fs, st) && i < |fs| && DecField(fs, st, i, wt, s).Got?
    requires IsFixedCount(fs[i]) ==> st.fixed == Some(i)
    ensures var st' := DecField(fs, st, i, wt, s).value;
            && st'.seen == (if Tracked(fs, i) then st.seen + {i} else st.seen)
            && st'.fixed == st.fixed && (!IsFixedCount(fs[i]) ==> st'.fixedSize == st.fixedSize)
  {
    hide DecV, DecArray, FieldOk, FitsV;
    SlotFits(fs, st.msg, i);
  }

  lemma FindIsIndex(iter: FieldIter, tag: nat)
    requires iter.Valid() && SchemaOk(iter.fields)
    ensures iter.fields != [] && iter.fields[iter.pos].tag == tag ==> IndexOf(iter.fields, tag) == iter.pos
    ensures (forall i | 0 <= i < |iter.fields| :: iter.fields[i].tag != tag) ==> IndexOf(iter.fields, tag) == |iter.fields|
  {
    hide FieldOk;
  }

  /** Array i becomes the one in progress; the one before must be complete. */
  method SwitchFixed(fs: Fields, i: nat, fixedField: Option<nat>, fixedSize: nat, ghost st: Progress)
    returns (ok: bool, fixedField': Option<nat>, fixedSize': nat)
    requires FitsP(fs, st) && st.fixed == fixedField && st.fixedSize == fixedSize
    ensures ok <==> EnterFixed(fs, st, i).Some?
    ensures ok ==> EnterFixed(fs, st, i).value == st.(fixed := fixedField', fixedSize := fixedSize') && fixedField' == Some(i)
  {
    hide FitsM;
    if fixedField != Some(i) {
      if fixedField.Some? && fixedSize != fs[fixedField.value].arraySize {
        return false, fixedField, fixedSize;
      }
      return true, Some(i), 0;
    }
    return true, fixedField, fixedSize;
  }

  /** The bit of the r-th required field is set. */
  method RecordSeen(r: nat, w0: nat, w1: nat, ghost fs: Fields, ghost seen: set<nat>, ghost i: nat) returns (w0': nat, w1': nat)
    requires Words(fs, w0, w1, seen) && i < |fs| && Tracked(fs, i) && r == RequiredBefore(fs, i)
    ensures Words(fs, w0', w1', seen + {i})
  {
    hide Or, Pow2, Bit, Words, RequiredBefore;
    w0', w1' := w0, w1;
    RecordBoth(fs, w0, w1, seen, i);
    var bit := Pow2(r % 32);
    if r / 32 == 0 {
      w0' := Or(w0, bit);
    } else {
      w1' := Or(w1, bit);
    }
  }

  /** One record of a known field, with the bookkeeping of pb_decode_noinit around it. */
  method DecodeKnown(stream: IStream, wt: WireType, iter: FieldIter, m: Msg, fixedField: Option<nat>, fixedSize: nat,
                     w0: nat, w1: nat, ghost st: Progress)
    returns (ok: bool, m': Msg, fixedField': Option<nat>, fixedSize': nat, w0': nat, w1': nat, ghost st': Progress)
    requires stream.Valid() && iter.Valid() && SchemaOk(iter.fields) && FitsP(iter.fields, st) && iter.fields != []
    requires st.msg == m && st.fixed == fixedField && st.fixedSize == fixedSize
    requires Words(iter.fields, w0, w1, st.seen)
    requires iter.pSize == FixedCounter ==> fixedField == Some(iter.pos)
    modifies stream, iter`pSize
    ensures stream.End() <= old(stream.End())
    ensures stream.Valid() && iter.Valid() && FitsM(iter.fields, m')
    ensures var p := DecField(iter.fields, st, iter.pos, wt, old(stream.Rem()));
            && (ok <==> p.Got?)
            && (ok ==> st' == p.value && stream.Rem() == p.rest && stream.End() == old(stream.End()))
    ensures ok ==> st'.msg == m' && st'.fixed == fixedField' && st'.fixedSize == fixedSize' && Words(iter.fields, w0', w1', st'.seen)
    ensures ok && iter.pSize == FixedCounter ==> fixedField' == Some(iter.pos)
    decreases stream.bytesLeft, 4
  {
    hide DecField, FieldOk, FitsM, Words, RequiredBefore, DataAt, EnterFixed;
    ghost var fs := iter.fields;
    var i := iter.pos;
    m', fixedField', fixedSize', w0', w1', st' := m, fixedField, fixedSize, w0, w1, st;
    if iter.fields[i].htype.Repeated? && iter.pSize == InStruct(iter.pData) {
      EnteredField(fs, st, i, wt, stream.Rem());
      ok, fixedField', fixedSize' := SwitchFixed(iter.fields, i, fixedField, fixedSize, st);
      if !ok {
        return;
      }
      st' := EnterFixed(fs, st, i).value;
      iter.UseFixedCounter();
    }
    if iter.fields[i].htype.Required? && iter.requiredFieldIndex < MAX_REQUIRED_FIELDS {
      w0', w1' := RecordSeen(iter.requiredFieldIndex, w0, w1, fs, st'.seen, i);
    }
    ghost var p := DecField(fs, st', i, wt, stream.Rem());
    if p.Got? {
      FieldEffect(fs, st', i, wt, stream.Rem());
    }
    ok, m', fixedSize' := DecodeStaticField(stream, wt, iter, m, fixedSize', st');
    if ok {
      st' := p.value;
    }
  }

  lemma RecordBoth(fs: Fields, w0: nat, w1: nat, seen: set<nat>, i: nat)
    requires Words(fs, w0, w1, seen) && i < |fs| && Tracked(fs, i)
    ensures var r := RequiredBefore(fs, i);
            if r / 32 == 0 then Words(fs, Or(w0, Pow2(r % 32)), w1, seen + {i})
            else Words(fs, w0, Or(w1, Pow2(r % 32)), seen + {i})
  {
    hide WordOk, Or, Pow2;
    RecordWord(fs, w0, 0, seen, i);
    RecordWord(fs, w1, 1, seen, i);
  }

  /** The number of required fields, found by seeking to the end of the descriptors. */
  method CountRequired(iter: FieldIter) returns (count: nat)
    requires iter.Valid() && SchemaOk(iter.fields)
    modifies iter
    ensures count == RequiredBefore(iter.fields, |iter.fields|) && iter.fields == old(iter.fields)
  {
    hide FieldOk;
    Encoder.NoZeroTag(iter.fields);
    var lastRequired;
    while true
      invariant iter.Valid() && iter.fields == old(iter.fields)
      decreases |iter.fields| - iter.pos
    {
      count := iter.requiredFieldIndex;
      lastRequired := if iter.pos < |iter.fields| then iter.fields[iter.pos].htype.Required? else true;
      ghost var last := iter.pos;
      var more := iter.Next();
      if !more {
        break;
      }
    }
    if lastRequired && iter.TagAt(iter.pos) != 0 {
      count := count + 1;
    }
  }

  /** The checks after the field loop. */
  method FinalTest(iter: FieldIter, fixedField: Option<nat>, fixedSize: nat, w0: nat, w1: nat, ghost st: Progress)
    returns (ok: bool)
    requires iter.Valid() && SchemaOk(iter.fields) && FitsP(iter.fields, st)
    requires st.fixed == fixedField && st.fixedSize == fixedSize && Words(iter.fields, w0, w1, st.seen)
    modifies iter
    ensures ok <==> Accept(old(iter.fields), st)
  {
    hide Words, FieldOk, FitsM;
    if fixedField.Some? && fixedSize != iter.fields[fixedField.value].arraySize {
      return false;
    }
    var count := CountRequired(iter);
    if count > MAX_REQUIRED_FIELDS {
      count := MAX_REQUIRED_FIELDS;
    }
    ok := CheckWords(count, w0, w1, iter.fields, st.seen);
  }

  /** The iterator's search, in terms of the field it stands for. */
  method FindField(iter: FieldIter, tag: nat) returns (found: bool)
    requires iter.Valid() && SchemaOk(iter.fields)
    modifies iter
    ensures iter.Valid() && iter.fields == old(iter.fields)
    ensures found <==> IndexOf(iter.fields, tag) < |iter.fields| || (iter.fields == [] && tag == 0)
    ensures found && iter.fields != [] ==> iter.pos == IndexOf(iter.fields, tag)
    ensures iter.pSize == FixedCounter ==> iter.pos == old(iter.pos) && old(iter.pSize) == FixedCounter
  {
    hide FieldOk;
    Encoder.NoZeroTag(iter.fields);
    found := iter.Find(tag);
    FindIsIndex(iter, tag);
  }

  /** One turn of the field loop, case by case. */
  lemma LoopCases(fs: Fields, st: Progress, s: bytes)
    requires SchemaOk(fs) && FitsP(fs, st)
    ensures s == [] ==> Loop(fs, st, s) == Got(st, s)
    ensures s != [] && ReadHeader(s).BadHeader? ==> Loop(fs, st, s).Fail?
    ensures s != [] && ReadHeader(s).EndOfMessage? ==> Loop(fs, st, s) == Got(st, ReadHeader(s).rest)
    ensures s != [] && ReadHeader(s).FieldHeader? ==>
              var h := ReadHeader(s);
              var i := IndexOf(fs, h.tag);
              Loop(fs, st, s) ==
              if i < |fs| then
                (if DecField(fs, st, i, h.wt, h.rest).Got?
                 then Loop(fs, DecField(fs, st, i, h.wt, h.rest).value, DecField(fs, st, i, h.wt, h.rest).rest) else Fail)
              else if fs == [] && h.tag == 0 then
                (if Varint32(h.rest).Got? then Loop(fs, st, Varint32(h.rest).rest) else Fail)
              else
                (if Wire.SkipField(h.wt, h.rest).Got? then Loop(fs, st, Wire.SkipField(h.wt, h.rest).rest) else Fail)
  {
    hide DecField, Varint32, Wire.SkipField, SchemaOk, ReadHeader;
  }

  /** pb_decode_noinit */
  method DecodeNoInit(stream: IStream, fs: Fields, dest: Msg) returns (ok: bool, m: Msg)
    requires stream.Valid() && SchemaOk(fs) && FitsM(fs, dest)
    modifies stream
    ensures stream.End() <= old(stream.End())
    ensures stream.Valid() && FitsM(fs, m)
    ensures ok <==> DecM(fs, dest, old(stream.Rem())).Got?
    ensures ok ==> Got(m, stream.Rem()) == DecM(fs, dest, old(stream.Rem())) && stream.End() == old(stream.End())
    decreases stream.bytesLeft, 5
  {
    hide Loop, Dispatch, DecField, SchemaOk, FitsM, Words, ReadHeader, Varint32, Wire.SkipField, DataAt, SizeAt, RequiredBefore, Accept, IndexOf;
    Encoder.NoZeroTag(fs);
    var w0, w1, fixedField, fixedSize := 0, 0, None, 0;
    NoneRecorded(fs);
    ghost var st := Start(dest);
    m := dest;
    var iter := new FieldIter();
    var _ := iter.Begin(fs, 0);
    while stream.bytesLeft != 0
      invariant stream.Valid() && stream.End() == old(stream.End()) && stream.bytesLeft <= old(stream.bytesLeft)
      invariant iter.Valid() && iter.fields == fs && fresh(iter)
      invariant FitsP(fs, st) && st.msg == m && st.fixed == fixedField && st.fixedSize == fixedSize
      invariant w0 >= 0 && w1 >= 0 && fixedSize >= 0 && Words(fs, w0, w1, st.seen)
      invariant iter.pSize == FixedCounter ==> fixedField == Some(iter.pos)
      invariant Loop(fs, Start(dest), old(stream.Rem())) == Loop(fs, st, stream.Rem())
      decreases stream.bytesLeft
    {
      var tag, wt, eof, found;
      LoopCases(fs, st, stream.Rem());
      ok, tag, wt, eof := stream.DecodeTag();
      if !ok {
        if eof {
          break;
        } else {
          return;
        }
      }
      found := FindField(iter, tag);
      if !found {
        ok := stream.SkipField(wt);
        if !ok {
          return;
        }
        continue;
      }
      if fs == [] {
        // the terminator of an empty message type, taken for a required bool
        var ignored;
        ok, ignored, eof := stream.DecodeVarint32();
        if !ok {
          return;
        }
        continue;
      }
      ok, m, fixedField, fixedSize, w0, w1, st := DecodeKnown(stream, wt, iter, m, fixedField, fixedSize, w0, w1, st);
      if !ok {
        return;
      }
    }
    LoopCases(fs, st, stream.Rem());
    assert Loop(fs, Start(dest), old(stream.Rem())) == Got(st, stream.Rem());
    ok := FinalTest(iter, fixedField, fixedSize, w0, w1, st);
  }

  /** pb_decode */
  method Decode(stream: IStream, fs: Fields, dest: Msg) returns (ok: bool, m: Msg)
    requires stream.Valid() && SchemaOk(fs) && FitsM(fs, dest)
    modifies stream
    ensures stream.End() <= old(stream.End())
    ensures stream.Valid() && FitsM(fs, m)
    ensures ok <==> Framing.Decode(fs, dest, old(stream.Rem())).Got?
    ensures ok ==> Got(m, stream.Rem()) == Framing.Decode(fs, dest, old(stream.Rem())) && stream.End() == old(stream.End())
    decreases stream.bytesLeft, 6
  {
    hide DecM, SchemaOk, FitsM;
    var writes;
    m, writes := MessageSetToDefaults(fs, 0, dest);
    ok, m := DecodeNoInit(stream, fs, m);
  }

  /** pb_decode_delimited */
  method DecodeDelimited(stream: IStream, fs: Fields, dest: Msg) returns (ok: bool, m: Msg)
    requires stream.Valid() && SchemaOk(fs) && FitsM(fs, dest)
    modifies stream
    ensures stream.Valid() && FitsM(fs, m)
    ensures ok <==> Framing.DecodeDelimited(fs, dest, old(stream.Rem())).Got?
    ensures ok ==> Got(m, stream.Rem()) == Framing.DecodeDelimited(fs, dest, old(stream.Rem()))
                   && stream.End() == old(stream.End())
  {
    hide Framing.Decode, Delimited, SchemaOk, FitsM;
    var sub, status, closed;
    m := dest;
    ok, sub := stream.MakeStringSubstream();
    if !ok {
      return;
    }
    status, m := Decode(sub, fs, dest);
    closed := stream.CloseStringSubstream(sub);
    ok := closed && status;
  }
}
