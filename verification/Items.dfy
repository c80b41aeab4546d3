/** Single items and fields, by their bytes: which ones the decoder accepts and what they
    read as, and which ones the encoder sends. */
module Items {
  import opened Options
  import opened Wire
  import opened Schema
  import opened Encoding
  import opened Decoding
  import opened Merging
  import opened RoundTrip
  import Acceptance

  // ----- what is accepted -----

  /** Numbers of k bits in two's complement. */
  function Signed32(v: nat): int { if v % TWO32 < 0x8000_0000 then v % TWO32 else v % TWO32 - TWO32 }
  function Signed64(v: nat): int { if v % TWO64 < TWO63 then v % TWO64 else v % TWO64 - TWO64 }

  predicate InRange(n: int, size: nat) {
    match size
    case 1 => -0x80 <= n < 0x80
    case 2 => -0x8000 <= n < 0x8000
    case 4 => -0x8000_0000 <= n < 0x8000_0000
    case _ => -TWO63 <= n < TWO63
  }

  predicate InUnsignedRange(n: nat, size: nat) {
    match size
    case 1 => n < 0x100
    case 2 => n < 0x1_0000
    case 4 => n < TWO32
    case _ => n < TWO64
  }

  /** Signed integers: 8-byte fields take all 64 bits, the others the low 32 bits, and what
      does not fit the field is refused. */
  lemma SignedAccepted(f: Field, s: bytes, v: nat, rest: bytes)
    requires FieldOk(f) && f.ltype.Varint? && Varint64(s) == Got(v, rest)
    ensures var n := if f.dataSize == 8 then Signed64(v) else Signed32(v);
            DecInt(f, s) == if InRange(n, f.dataSize) then Got(Num(n), rest) else Fail
  {
    hide Varint64;
  }

  /** Unsigned integers: accepted as far as the field goes. */
  lemma UnsignedAccepted(f: Field, s: bytes, v: nat, rest: bytes)
    requires FieldOk(f) && f.ltype.UVarint? && Varint64(s) == Got(v, rest)
    ensures DecInt(f, s) == if InUnsignedRange(v, f.dataSize) then Got(Num(v), rest) else Fail
  {
    Bits.Pow2At64(64);
    Dec64Word(s, 0, 0);
  }

  /** Zigzag integers: the folded number, as far as the field goes. */
  lemma ZigzagAccepted(f: Field, s: bytes, v: nat, rest: bytes)
    requires FieldOk(f) && f.ltype.SVarint? && Varint64(s) == Got(v, rest)
    ensures var n := if v % 2 == 0 then v / 2 else 0 - v / 2 - 1;
            DecInt(f, s) == if InRange(n, f.dataSize) then Got(Num(n), rest) else Fail
  {
    Bits.Pow2At64(64);
    Dec64Word(s, 0, 0);
    hide Varint64;
  }

  lemma BoolReads(f: Field, was: Value, v: nat, tail: bytes)
    requires FieldOk(f) && f.ltype.Bool? && FitsV(f.ltype, f.dataSize, was) && v < TWO32
    ensures DecV(f, was, EncVarint(v) + tail) == Got(Flag(v > 0), tail)
  {
    hide EncVarint, Varint32;
    Varint32RoundTrip(v, tail);
  }

  /** Fixed-width numbers, little endian. */
  lemma FixedReads(f: Field, was: Value, s: bytes)
    requires FieldOk(f) && FitsV(f.ltype, f.dataSize, was)
    ensures f.ltype.Fixed32? ==>
              DecV(f, was, s) == if |s| < 4 then Fail
                                 else Got(Num(Word(s)), s[4..])
    ensures f.ltype.Fixed64? ==>
              DecV(f, was, s) == if |s| < 8 then Fail
                                 else Got(Num(Word(s) + TWO32 * Word(s[4..])), s[8..])
  {
    if f.ltype.Fixed32? && |s| >= 4 {
      WordReads(s[..4]);
    }
    if f.ltype.Fixed64? && |s| >= 8 {
      LongReads(s[..8]);
      assert s[4..][0] == s[4] && s[4..][1] == s[5] && s[4..][2] == s[6] && s[4..][3] == s[7];
    }
  }

  function Word(s: bytes): nat
    requires |s| >= 4
  {
    var a: nat, b: nat, c: nat, d: nat := s[0], s[1], s[2], s[3];
    a + 0x100 * b + 0x1_0000 * c + 0x100_0000 * d
  }

  lemma WordReads(s: bytes)
    requires |s| == 4
    ensures ReadWord(s) == Word(s)
  {
    assert s[1..][1..] == s[2..] && s[2..][1..] == s[3..] && s[3..][1..] == [];
    assert LittleEndian(s[3..]) == s[3];
    assert LittleEndian(s[2..]) == s[2] + 256 * LittleEndian(s[3..]);
    assert LittleEndian(s[1..]) == s[1] + 256 * LittleEndian(s[2..]);
  }

  lemma LongReads(s: bytes)
    requires |s| == 8
    ensures ReadWord(s) == Word(s) + TWO32 * Word(s[4..])
  {
    WordReads(s[4..]);
    assert s[1..][1..] == s[2..] && s[2..][1..] == s[3..] && s[3..][1..] == s[4..];
    assert LittleEndian(s[3..]) == s[3] + 256 * LittleEndian(s[4..]);
    assert LittleEndian(s[2..]) == s[2] + 256 * LittleEndian(s[3..]);
    assert LittleEndian(s[1..]) == s[1] + 256 * LittleEndian(s[2..]);
  }

  /** Bytes: accepted exactly if they are all there and fit behind the size member. */
  lemma BytesAccepted(f: Field, was: Value, s: bytes, n: nat, rest: bytes)
    requires FieldOk(f) && f.ltype.Bytes? && FitsV(f.ltype, f.dataSize, was) && Varint32(s) == Got(n, rest)
    ensures DecBytes(f, was, s) ==
            if n + BYTES_OFFSET <= f.dataSize && n <= |rest| then Got(Buf(n, rest[..n] + was.data[n..]), rest[n..]) else Fail
  {
    Bits.Pow2At32(32);
    Word32(s);
    hide Varint32;
  }

  lemma Word32(s: bytes)
    requires Varint32(s).Got?
    ensures Varint32(s).value < TWO32
  {
    hide Dec32;
    if s[0] >= 128 {
      Bits.Pow2At32(32);
      Bits.Pow2Mono(7, 32);
      LowSeven(s[0]);
      Dec32Word(s[1..], 7, s[0] % 128);
    }
  }

  /** Strings: accepted exactly if they are all there and leave room for the NUL. */
  lemma StringAccepted(f: Field, was: Value, s: bytes, n: nat, rest: bytes)
    requires FieldOk(f) && f.ltype.String? && FitsV(f.ltype, f.dataSize, was) && Varint32(s) == Got(n, rest)
    ensures DecString(f, was, s) ==
            if n < f.dataSize && n <= |rest| then Got(Text(rest[..n] + [0] + was.chars[n + 1..]), rest[n..]) else Fail
  {
    hide Varint32, FieldOk;
    Word32(s);
    SizeFits(f);
    assert n + 1 < TWO32 ==> (n + 1) % TWO32 == n + 1;
  }

  lemma SizeFits(f: Field)
    requires FieldOk(f)
    ensures f.dataSize < TWO32
  {
  }

  /** Fixed-length bytes: accepted exactly if they have that length, or none at all, which
      clears the field. */
  lemma FixedLengthAccepted(f: Field, s: bytes, n: nat, rest: bytes)
    requires FieldOk(f) && f.ltype.FixedLengthBytes? && Varint32(s) == Got(n, rest)
    ensures n == 0 ==> DecFixedLength(f, s).Got? && DecFixedLength(f, s).rest == rest
                       && |DecFixedLength(f, s).value.raw| == f.dataSize
                       && forall i | 0 <= i < f.dataSize :: DecFixedLength(f, s).value.raw[i] == 0
    ensures n > 0 ==> DecFixedLength(f, s) ==
                      if n == f.dataSize && n <= |rest| then Got(Raw(rest[..n]), rest[n..]) else Fail
  {
    hide Varint32;
  }

  // ----- what is sent -----

  /** The encoder can send it: bytes within their buffers and counts within their arrays, of
      what is present. Strings end with their buffer at the latest. */
  ghost predicate EncodableV(lt: LType, size: nat, v: Value)
    requires FitsV(lt, size, v)
    decreases lt
  {
    match lt
    case Bytes => v.size <= |v.data|
    case Submessage(fs) => EncodableM(fs, v.msg)
    case _ => true
  }

  ghost predicate EncodableS(f: Field, s: Slot, which: nat)
    requires FitsS(f, s)
    decreases f
  {
    if f.htype.Repeated? then
      var n := if s.Rep? then s.count else f.arraySize;
      n <= f.arraySize && forall k | 0 <= k < n :: EncodableV(f.ltype, f.dataSize, s.items[k])
    else
      Present(f, s, which) ==> EncodableV(f.ltype, f.dataSize, s.v)
  }

  ghost predicate EncodableM(fs: Fields, m: Msg)
    requires FitsM(fs, m)
    decreases fs
  {
    forall i | 0 <= i < |fs| :: EncodableS(fs[i], m.slots[i], Which(fs, m, i))
  }

  lemma {:induction false} EncodesExactlyV(f: Field, v: Value)
    requires FieldOk(f) && FitsV(f.ltype, f.dataSize, v)
    ensures EncV(f.ltype, f.dataSize, v).Some? <==> EncodableV(f.ltype, f.dataSize, v)
    decreases f, 0
  {
    if f.ltype.Submessage? {
      FieldsEncodeExactly(f.ltype.fields, v.msg, 0);
    }
  }

  lemma {:induction false} ItemsEncodeExactly(f: Field, items: seq<Value>, k: nat, n: nat)
    requires FieldOk(f) && FitsItems(f, items) && k <= n <= |items|
    ensures EncItems(f, items, k, n).Some? <==> forall j | k <= j < n :: EncodableV(f.ltype, f.dataSize, items[j])
    ensures EncPacked(f, items, k, n).Some? <==> forall j | k <= j < n :: EncodableV(f.ltype, f.dataSize, items[j])
    decreases f, 1, n - k
  {
    hide EncV, FitsV, FieldOk, EncodableV;
    if k < n {
      EncodesExactlyV(f, items[k]);
      ItemsEncodeExactly(f, items, k + 1, n);
    }
  }

  lemma {:induction false} FieldEncodesExactly(f: Field, s: Slot, which: nat)
    requires FieldOk(f) && FitsS(f, s)
    ensures EncF(f, s, which).Some? <==> EncodableS(f, s, which)
    decreases f, 2
  {
    hide EncV, FitsV, FieldOk, EncodableV, EncItems, EncPacked, IsZeroV;
    if f.htype.Repeated? {
      var n := if s.Rep? then s.count else f.arraySize;
      if n <= f.arraySize {
        ItemsEncodeExactly(f, s.items, 0, n);
      }
    } else {
      EncodesExactlyV(f, s.v);
    }
  }

  lemma {:induction false} FieldsEncodeExactly(fs: Fields, m: Msg, i: nat)
    requires SchemaOk(fs) && FitsM(fs, m) && i <= |fs|
    ensures EncFrom(fs, m, i).Some? <==> forall j | i <= j < |fs| :: EncodableS(fs[j], m.slots[j], Which(fs, m, j))
    decreases fs, |fs| - i
  {
    hide EncF, FitsS, FieldOk, EncodableS;
    if i < |fs| {
      SlotFits(fs, m, i);
      FieldEncodesExactly(fs[i], m.slots[i], Which(fs, m, i));
      FieldsEncodeExactly(fs, m, i + 1);
    }
  }

  /** Exactly which messages have an encoding. */
  lemma EncodesExactly(fs: Fields, m: Msg)
    requires SchemaOk(fs) && FitsM(fs, m)
    ensures EncM(fs, m).Some? <==> EncodableM(fs, m)
  {
    FieldsEncodeExactly(fs, m, 0);
  }

  /** A packable array is one record: key, length, and the items, as many as announced. */
  lemma PackedShape(f: Field, items: seq<Value>, count: nat, b: bytes) returns (payload: bytes)
    requires FieldOk(f) && FitsItems(f, items) && Packable(f.ltype) && 0 < count <= f.arraySize
    requires forall j | 0 <= j < count :: BoundedV(f.ltype, f.dataSize, items[j])
    requires EncArray(f, items, count) == Some(b) && |b| < TWO32
    ensures b == EncVarint(8 * f.tag + 2) + EncVarint(|payload|) + payload
    ensures FitsV(f.ltype, f.dataSize, ZeroV(f.ltype, f.dataSize))
    ensures Acceptance.PackedCount(f, ZeroV(f.ltype, f.dataSize), payload) == count
  {
    hide EncVarint, EncPacked, FitsV, FieldOk, BoundedV, DecPacked, MergesTo;
    payload := EncPacked(f, items, 0, count).value;
    assert EncTag(f.tag, WtString) + EncString(payload) == EncVarint(8 * f.tag + 2) + EncVarint(|payload|) + payload;
    PackedMerged(f, items, 0, items, items, 0, count, payload);
    ZeroVFits(f.ltype, f.dataSize);
    Acceptance.PackedCounts(f, ZeroV(f.ltype, f.dataSize), items, 0, payload);
  }

  /** Packable arrays arrive unpacked as well: one item under the item's own wire type. */
  lemma UnpackedItem(fs: Fields, st: Progress, i: nat, v: Value, b: bytes, tail: bytes)
    requires SchemaOk(fs) && FitsP(fs, st) && i < |fs| && FieldOk(fs[i]) && Packable(fs[i].ltype)
    requires fs[i].htype.Repeated? && fs[i].sizeOffset != 0 && FitsS(fs[i], st.msg.slots[i])
    requires FitsV(fs[i].ltype, fs[i].dataSize, v) && EncV(fs[i].ltype, fs[i].dataSize, v) == Some(b) && |b| < TWO32
    ensures var slot := st.msg.slots[i];
            var p := DecField(fs, st, i, WireOf(fs[i].ltype), b + tail);
            (p.Got? <==> slot.count < fs[i].arraySize) &&
            (p.Got? ==> p.rest == tail && p.value.msg.slots[i] == Rep(slot.count + 1, slot.items[slot.count := v]))
  {
    hide DecV, FitsV, FieldOk, EncV;
    var f, slot := fs[i], st.msg.slots[i];
    if slot.count < f.arraySize {
      ScalarBack(f, slot.items[slot.count], v, b, tail);
    }
  }

  /** The wire type of a known field is not looked at, but to tell a packed run from an item. */
  lemma WireTypeIgnored(fs: Fields, st: Progress, i: nat, wt: WireType, wt': WireType, s: bytes)
    requires SchemaOk(fs) && FitsP(fs, st) && i < |fs|
    requires fs[i].htype.Repeated? && Packable(fs[i].ltype) ==> (wt == WtString <==> wt' == WtString)
    ensures DecField(fs, st, i, wt, s) == DecField(fs, st, i, wt', s)
  {
    hide DecV, DecArray, FieldOk, FitsV;
    var f := fs[i];
    SlotFits(fs, st.msg, i);
    if f.htype.Repeated? {
      var count := if f.sizeOffset != 0 then st.msg.slots[i].count else if st.fixed == Some(i) then st.fixedSize else 0;
      ItemOrRun(f, st.msg.slots[i].items, count, wt, wt', s);
    }
  }

  lemma ItemOrRun(f: Field, items: seq<Value>, count: nat, wt: WireType, wt': WireType, s: bytes)
    requires FieldOk(f) && FitsItems(f, items)
    requires Packable(f.ltype) ==> (wt == WtString <==> wt' == WtString)
    ensures DecArray(f, items, count, wt, s) == DecArray(f, items, count, wt', s)
  {
    hide DecV, DecPacked, Delimited, FieldOk, FitsV;
  }

  /** An empty packed run is accepted by every array, a full one included. */
  lemma EmptyRun(f: Field, items: seq<Value>, count: nat, tail: bytes)
    requires FieldOk(f) && FitsItems(f, items) && Packable(f.ltype)
    ensures DecArray(f, items, count, WtString, [0] + tail) == Got((items, count), tail)
  {
    hide DecV, FieldOk, FitsV;
    assert ([0] + tail)[1..] == tail;
    assert Delimited([0] + tail) == Got([], tail);
  }

  lemma ScalarBack(f: Field, was: Value, v: Value, b: bytes, tail: bytes)
    requires FieldOk(f) && Packable(f.ltype) && FitsV(f.ltype, f.dataSize, was) && FitsV(f.ltype, f.dataSize, v)
    requires EncV(f.ltype, f.dataSize, v) == Some(b) && |b| < TWO32
    ensures DecV(f, was, b + tail) == Got(v, tail)
  {
    hide DecV, EncV;
    ValueMerged(f, was, v, b, tail);
  }

  // ----- what is left out -----

  /** A zero value of a proto3 singular field is not sent, unless it is fixed-length bytes. */
  lemma ZeroNotSent(f: Field)
    requires FieldOk(f) && IsProto3Singular(f) && !f.ltype.Submessage?
    ensures FitsS(f, Single(ZeroV(f.ltype, f.dataSize)))
    ensures EncF(f, Single(ZeroV(f.ltype, f.dataSize)), 0) == Some([]) <==> !(f.ltype.FixedLengthBytes? && f.dataSize > 0)
  {
    ZeroVFits(f.ltype, f.dataSize);
    ZeroLength(f.dataSize);
  }

  lemma {:induction false} ZeroLength(n: nat)
    ensures StrLen(Schema.Zeros(n)) == 0
  {
  }

  lemma RecordNotEmpty(f: Field, s: Slot, which: nat)
    requires FieldOk(f) && FitsS(f, s) && EncF(f, s, which).Some?
    ensures EncF(f, s, which).value == [] <==>
            if f.htype.Repeated? then (if s.Rep? then s.count else f.arraySize) == 0 else !Present(f, s, which)
  {
    hide EncV, FitsV, FieldOk, EncPacked, IsZeroV, EncVarint;
    assert |TagOf(f)| > 0 && |EncTag(f.tag, WtString)| > 0;
    if f.htype.Repeated? {
      var n := if s.Rep? then s.count else f.arraySize;
      if 0 < n <= f.arraySize && !Packable(f.ltype) {
        assert EncItems(f, s.items, 0, n)
            == Cat(Cat(Some(TagOf(f)), EncV(f.ltype, f.dataSize, s.items[0])), EncItems(f, s.items, 1, n));
      }
    }
  }

  /** A message counts as zero, and a proto3 submessage is left out, exactly if it would be
      encoded to nothing. */
  lemma LeftOutExactly(fs: Fields, m: Msg)
    requires SchemaOk(fs) && FitsM(fs, m) && (forall i | 0 <= i < |fs| :: WhichOk(fs, m, i))
    requires forall i | 0 <= i < |fs| :: IsFixedCount(fs[i]) ==> fs[i].arraySize > 0
    ensures IsZeroM(fs, m) <==> EncM(fs, m) == Some([])
  {
    FieldsLeftOut(fs, m, 0);
    hide FieldOk, FitsS, EncFrom, EncF, IsZeroS;
    if IsZeroM(fs, m) {
      forall i | 0 <= i < |fs|
        ensures FitsS(fs[i], m.slots[i]) && EncF(fs[i], m.slots[i], Which(fs, m, i)) == Some([])
      {
        SlotFits(fs, m, i);
        ZeroSendsNothing(fs[i], m.slots[i], Which(fs, m, i));
      }
    } else {
      var i :| 0 <= i < |fs| && !IsZeroS(fs[i], m.slots[i], Which(fs, m, i));
      SlotFits(fs, m, i);
      var j := SendsSomething(fs, m, i);
    }
  }

  lemma ZeroSendsNothing(f: Field, s: Slot, which: nat)
    requires FieldOk(f) && FitsS(f, s) && IsZeroS(f, s, which)
    ensures EncF(f, s, which) == Some([])
  {
    TagNotZero(f);
    hide EncV, FitsV, FieldOk, EncPacked, EncItems, IsZeroV;
  }

  /** What is not zero sends something: the field, or the active member of its union. */
  lemma SendsSomething(fs: Fields, m: Msg, i: nat) returns (j: nat)
    requires SchemaOk(fs) && FitsM(fs, m) && i < |fs| && WhichOk(fs, m, i)
    requires IsFixedCount(fs[i]) ==> fs[i].arraySize > 0
    requires FitsS(fs[i], m.slots[i]) && !IsZeroS(fs[i], m.slots[i], Which(fs, m, i))
    ensures j < |fs| && FitsS(fs[j], m.slots[j]) && EncF(fs[j], m.slots[j], Which(fs, m, j)) != Some([])
  {
    hide EncF, FitsV, FieldOk, IsZeroV;
    j := i;
    if fs[i].htype.OneOf? {
      j :| 0 <= j < |fs| && fs[j].htype.OneOf? && UnionOf(fs, j) == UnionOf(fs, i) && fs[j].tag == Which(fs, m, i);
    }
    SlotFits(fs, m, j);
    if EncF(fs[j], m.slots[j], Which(fs, m, j)).Some? {
      RecordNotEmpty(fs[j], m.slots[j], Which(fs, m, j));
    }
  }

  lemma {:induction false} FieldsLeftOut(fs: Fields, m: Msg, i: nat)
    requires SchemaOk(fs) && FitsM(fs, m) && i <= |fs|
    ensures EncFrom(fs, m, i) == Some([]) <==>
            forall j | i <= j < |fs| :: EncF(fs[j], m.slots[j], Which(fs, m, j)) == Some([])
    decreases |fs| - i
  {
    hide EncF, FitsS, FieldOk;
    if i < |fs| {
      FieldsLeftOut(fs, m, i + 1);
      var a, b := EncF(fs[i], m.slots[i], Which(fs, m, i)), EncFrom(fs, m, i + 1);
      if a.Some? && b.Some? {
        assert a.value + b.value == [] <==> a.value == [] && b.value == [];
      }
    }
  }
}
