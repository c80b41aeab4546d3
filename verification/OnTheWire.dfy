/** The bytes themselves: what records look like, what a reader that does not know them
    steps over, and so what old and new schemas make of each other's messages. */
module OnTheWire {
  import opened Options
  import opened Bits
  import opened Wire
  import opened Schema
  import opened Encoding
  import opened Decoding
  import opened Merge
  import Merging
  import RoundTrip
  import Framing

  // ----- base-128 groups -----

  /** Byte k is the first without the continuation bit. */
  predicate EndsAt(s: bytes, k: nat) {
    k < |s| && s[k] < 128 && forall j | 0 <= j < k :: s[j] >= 128
  }

  /** The number in groups of seven bits, least significant group first. */
  function Groups(s: bytes): nat {
    if s == [] then 0 else s[0] % 128 + 128 * Groups(s[1..])
  }

  /** "Base 128 Varints": the encoding is the number in groups, with the continuation bit
      on all bytes but the last. */
  lemma {:induction false} VarintGroups(v: nat)
    ensures EndsAt(EncVarint(v), |EncVarint(v)| - 1) && Groups(EncVarint(v)) == v
  {
    if v >= 128 {
      VarintGroups(v / 128);
      assert EncVarint(v)[1..] == EncVarint(v / 128);
    } else {
      assert EncVarint(v)[1..] == [];
    }
  }

  lemma OrIntoLow(result: nat, low: nat, bp: nat)
    requires result < Pow2(bp) && bp <= 63 && low < 128
    ensures OrInto(64, result, low, bp) == Low(result + Shl(low, bp), 64)
    ensures bp <= 56 ==> OrInto(64, result, low, bp) == result + Shl(low, bp) < Pow2(bp + 7)
  {
    hide Or, Low, Shl, Pow2;
    OrDisjoint(result, low, bp);
    LowOfOr(result, Shl(low, bp), 64);
    Pow2Mono(bp, 64);
    LowIsSmall(result, 64);
    LowSeven(low);
    ShlBound(low, 7, bp);
    if bp <= 56 {
      Pow2Mono(bp + 7, 64);
      LowIsSmall(Shl(low, bp), 64);
    }
  }

  lemma {:induction false} Dec64Exact(s: bytes, k: nat, i: nat, result: nat)
    requires EndsAt(s, k) && i < 10 && result < Pow2(7 * i)
    ensures Dec64(s, 7 * i, result) ==
            if i + k < 10 then Got(Low(result + Shl(Groups(s[..k + 1]), 7 * i), 64), s[k + 1..]) else Fail
    decreases k
  {
    hide Or, Low, Shl, Pow2, OrInto, Dec64;
    var low, g := s[0] % 128, Groups(s[..k + 1]);
    OrIntoLow(result, low, 7 * i);
    assert s == [s[0]] + s[1..];
    Dec64Unfold(s[0], s[1..], 7 * i, result);
    assert s[..k + 1][1..] == s[1..][..k];
    ShlSplit(g, 7 * i);
    if k == 0 {
      assert g == low;
      ShlZero(7 * i + 7);
    } else if i == 9 {
      Dec64Stops(s[1..], 70, OrInto(64, result, low, 63));
    } else {
      assert g % 128 == low && g / 128 == Groups(s[1..][..k]);
      assert EndsAt(s[1..], k - 1);
      Dec64Exact(s[1..], k - 1, i + 1, result + Shl(low, 7 * i));
      assert s[1..][k..] == s[k + 1..];
    }
  }

  lemma {:induction false} Dec64Endless(s: bytes, bp: nat, result: nat)
    requires forall j | 0 <= j < |s| :: s[j] >= 128
    ensures Dec64(s, bp, result).Fail?
    decreases |s|
  {
    hide OrInto;
    if s != [] && bp < 64 {
      Dec64Endless(s[1..], (bp + 7) % 256, OrInto(64, result, s[0] % 128, bp));
    }
  }

  /** Exactly what the 64-bit decoder accepts, canonical or not: at most ten groups, of
      whose number it gives the low 64 bits. */
  lemma Varint64Exact(s: bytes, k: nat)
    requires EndsAt(s, k)
    ensures Varint64(s) == if k < 10 then Got(Low(Groups(s[..k + 1]), 64), s[k + 1..]) else Fail
  {
    hide Dec64, Low, Shl;
    Dec64Exact(s, k, 0, 0);
    assert Shl(Groups(s[..k + 1]), 0) == Groups(s[..k + 1]) by { ShlNone(Groups(s[..k + 1])); }
  }

  lemma ShlNone(a: nat)
    ensures Shl(a, 0) == a
  {
  }

  lemma {:induction false} SkipVarintExact(s: bytes, k: nat)
    requires EndsAt(s, k)
    ensures SkipVarint(s) == Got((), s[k + 1..])
    decreases k
  {
    if k > 0 {
      assert EndsAt(s[1..], k - 1);
      SkipVarintExact(s[1..], k - 1);
      assert s[1..][k..] == s[k + 1..];
    }
  }

  lemma {:induction false} FindEnd(s: bytes) returns (k: nat)
    ensures k <= |s| && (k < |s| ==> EndsAt(s, k)) && (k == |s| ==> forall j | 0 <= j < |s| :: s[j] >= 128)
  {
    k := 0;
    if s != [] && s[0] >= 128 {
      var l := FindEnd(s[1..]);
      k := l + 1;
      if k < |s| {
        forall j | 0 <= j < k ensures s[j] >= 128 { if j > 0 { assert s[j] == s[1..][j - 1]; } }
      } else {
        forall j | 0 <= j < |s| ensures s[j] >= 128 { if j > 0 { assert s[j] == s[1..][j - 1]; } }
      }
    }
  }

  lemma {:induction false} SkipVarintEndless(s: bytes)
    requires forall j | 0 <= j < |s| :: s[j] >= 128
    ensures SkipVarint(s).Fail?
  {
    if s != [] {
      SkipVarintEndless(s[1..]);
    }
  }

  // ----- overlong input to the 32-bit decoder -----

  function Padding(n: nat): bytes {
    seq(n, _ => 0x80)
  }

  /** Groups of zeros change nothing but the bit position, which is an 8-bit number. */
  lemma {:induction false} Padded(n: nat, s: bytes, bitpos: nat, result: nat)
    requires bitpos < 256
    ensures Dec32(Padding(n) + s, bitpos, result) == Dec32(s, (bitpos + 7 * n) % 256, result)
    decreases n
  {
    hide Dec32, Padding;
    if n == 0 {
      PaddingStart(n);
      assert Padding(n) + s == s;
    } else {
      PaddingStart(n);
      var x := Padding(n) + s;
      assert x[0] == 0x80 && x[1..] == Padding(n - 1) + s;
      PaddedTurn(x, bitpos, result);
      WrapsOnce(bitpos + 7, 7 * (n - 1));
      Padded(n - 1, s, (bitpos + 7) % 256, result);
    }
  }

  lemma WrapsOnce(a: nat, b: nat)
    ensures (a % 256 + b) % 256 == (a + b) % 256
  {
    assert a % 256 + b == a + b - 256 * (a / 256);
  }

  lemma PaddingStart(n: nat)
    ensures Padding(n) == if n == 0 then [] else [0x80] + Padding(n - 1)
  {
  }

  lemma PaddedTurn(x: bytes, bitpos: nat, result: nat)
    requires bitpos < 256 && x != [] && x[0] == 0x80
    ensures Dec32(x, bitpos, result) == Dec32(x[1..], (bitpos + 7) % 256, result)
  {
    hide OrInto;
    NoBits(result, bitpos);
  }

  lemma NoBits(result: nat, bitpos: nat)
    ensures OrInto(32, result, 0, bitpos) == result
  {
    ShlZero(bitpos);
    LowIsSmall(0, 32);
    OrZero(result);
  }

  /** So it wraps: behind 37 such bytes a 1 is taken for an 8, where the 64-bit decoder has
      long given up. */
  lemma OverlongWraps(suffix: bytes)
    ensures Varint32(Padding(37) + [1] + suffix) == Got(8, suffix)
    ensures Varint64(Padding(37) + [1] + suffix).Fail?
  {
    hide Dec32, Varint64, OrInto, Padding;
    var x := Padding(37) + [1] + suffix;
    PaddingStart(37);
    assert x[0] == 0x80 && x[1..] == Padding(36) + ([1] + suffix);
    Padded(36, [1] + suffix, 7, 0);
    LastOne([1] + suffix);
    OverlongEnds(x, suffix);
    Varint64Exact(x, 37);
  }

  lemma LastOne(s: bytes)
    requires s != [] && s[0] == 1
    ensures Dec32(s, 3, 0) == Got(8, s[1..])
  {
    hide OrInto;
    EightAtThree();
  }

  lemma OverlongEnds(x: bytes, suffix: bytes)
    requires x == Padding(37) + [1] + suffix
    ensures EndsAt(x, 37)
  {
  }

  lemma EightAtThree()
    ensures OrInto(32, 0, 1, 3) == 8
  {
    assert Shl(1, 3) == 2 * Shl(1, 2) == 4 * Shl(1, 1) == 8 * Shl(1, 0);
    Pow2At32(32);
    LowIsSmall(8, 32);
  }

  // ----- records of unknown fields -----

  predicate Unknown(gs: Fields, tag: nat) {
    forall i | 0 <= i < |gs| :: gs[i].tag != tag
  }

  /** "Message Structure": the key is eight times the number plus the wire type. */
  lemma KeyIsKnown(f: Field)
    ensures TagOf(f) == EncVarint(8 * f.tag + (match f.ltype
                                               case Bool => 0
                                               case Varint => 0
                                               case UVarint => 0
                                               case SVarint => 0
                                               case Fixed64 => 1
                                               case Bytes => 2
                                               case String => 2
                                               case Submessage(_) => 2
                                               case FixedLengthBytes => 2
                                               case Fixed32 => 5))
  {
    hide EncVarint;
  }

  lemma KeyReads(tag: nat, wt: WireType, body: bytes)
    requires 1 <= tag < 0x2000_0000 && WireCode(wt) < 8 && wt == WireTypeOf(WireCode(wt))
    ensures ReadHeader(EncTag(tag, wt) + body) == FieldHeader(tag, wt, body)
  {
    hide Varint32, EncVarint;
    Varint32RoundTrip(tag * 8 + WireCode(wt), body);
  }

  /** Exactly which byte strings are one record of an unknown field, by what is behind the
      key: a varint up to its last byte, eight bytes, a length and as many bytes, or four
      bytes. */
  lemma UnknownExactly(fs: Fields, tag: nat, body: bytes)
    requires 1 <= tag < 0x2000_0000 && Unknown(fs, tag)
    ensures UnknownRecord(fs, tag, EncVarint(8 * tag) + body) <==> body != [] && EndsAt(body, |body| - 1)
    ensures UnknownRecord(fs, tag, EncVarint(8 * tag + 1) + body) <==> |body| == 8
    ensures UnknownRecord(fs, tag, EncVarint(8 * tag + 2) + body) <==>
            Varint32(body).Got? && Varint32(body).value == |Varint32(body).rest|
    ensures UnknownRecord(fs, tag, EncVarint(8 * tag + 5) + body) <==> |body| == 4
  {
    hide ReadHeader, EncVarint, Varint32;
    KeyReads(tag, WtVarint, body);
    KeyReads(tag, Wt64Bit, body);
    KeyReads(tag, WtString, body);
    KeyReads(tag, Wt32Bit, body);
    VarintBody(body);
    DelimitedBody(body);
  }

  /** Under the other wire types there are none. */
  lemma GroupsNotSkipped(fs: Fields, tag: nat, code: nat, body: bytes)
    requires 1 <= tag < 0x2000_0000 && code in {3, 4, 6, 7}
    ensures !UnknownRecord(fs, tag, EncVarint(8 * tag + code) + body)
  {
    hide ReadHeader, EncVarint;
    KeyReads(tag, WtInvalid(code), body);
  }

  lemma VarintBody(body: bytes)
    ensures SkipVarint(body) == Got((), []) <==> body != [] && EndsAt(body, |body| - 1)
  {
    var k := FindEnd(body);
    if k < |body| {
      SkipVarintExact(body, k);
      if k < |body| - 1 {
        assert !EndsAt(body, |body| - 1);
      }
    } else {
      SkipVarintEndless(body);
    }
  }

  lemma DelimitedBody(body: bytes)
    ensures SkipField(WtString, body) == Got((), []) <==>
            Varint32(body).Got? && Varint32(body).value == |Varint32(body).rest|
  {
    hide Varint32;
  }

  /** A field under one of the other wire types ends decoding, whatever follows. */
  lemma GroupsRefused(fs: Fields, st: Progress, tag: nat, code: nat, y: bytes)
    requires SchemaOk(fs) && FitsP(fs, st) && 1 <= tag < 0x2000_0000 && code in {3, 4, 6, 7}
    requires forall i | 0 <= i < |fs| :: fs[i].tag != tag
    ensures Loop(fs, st, EncVarint(8 * tag + code) + y).Fail?
  {
    hide ReadHeader, EncVarint, Loop, SchemaOk, FitsM;
    KeyReads(tag, WtInvalid(code), y);
    assert IndexOf(fs, tag) == |fs|;
    LoopTurn(fs, st, EncTag(tag, WtInvalid(code)) + y, tag, WtInvalid(code), y);
  }

  // ----- what values look like -----

  function Absolute(n: int): nat {
    if n < 0 then 0 - n else n
  }

  /** The bytes of a value: numbers in base 128, negative ones of the plain signed type as
      64-bit two's complement whatever the width of the field, zigzag ones with the sign in
      the lowest bit; fixed ones little endian; and all others behind their length. */
  ghost predicate Depicts(f: Field, v: Value, b: bytes)
    requires FitsV(f.ltype, f.dataSize, v)
  {
    match f.ltype
    case Bool => b == [if v.b then 1 else 0]
    case Varint => b != [] && EndsAt(b, |b| - 1) && Groups(b) == (if v.n < 0 then v.n + TWO64 else v.n)
    case UVarint => b != [] && EndsAt(b, |b| - 1) && Groups(b) == v.n
    case SVarint => b != [] && EndsAt(b, |b| - 1) && Groups(b) == 2 * Absolute(v.n) - (if v.n < 0 then 1 else 0)
    case Fixed32 => |b| == 4 && LittleEndian(b) == v.n
    case Fixed64 => |b| == 8 && LittleEndian(b) == v.n
    case Bytes => v.size <= |v.data| && Delimited(b) == Got(v.data[..v.size], [])
    case String => Delimited(b) == Got(v.chars[..StrLen(v.chars)], [])
    case FixedLengthBytes => Delimited(b) == Got(v.raw, [])
    case Submessage(fs) => EncM(fs, v.msg).Some? && Delimited(b) == Got(EncM(fs, v.msg).value, [])
  }

  lemma ValueOnTheWire(f: Field, v: Value, b: bytes)
    requires FieldOk(f) && FitsV(f.ltype, f.dataSize, v) && EncV(f.ltype, f.dataSize, v) == Some(b) && |b| < TWO32
    ensures Depicts(f, v, b)
  {
    hide *;
    if Packable(f.ltype) {
      NumberOnTheWire(f, v, b);
    } else {
      RunOnTheWire(f, v, b);
    }
  }

  lemma NumberOnTheWire(f: Field, v: Value, b: bytes)
    requires FieldOk(f) && FitsV(f.ltype, f.dataSize, v) && EncV(f.ltype, f.dataSize, v) == Some(b) && Packable(f.ltype)
    ensures Depicts(f, v, b)
  {
    hide EncVarint, EncFixed, Groups, Zigzag, Pow2, EndsAt, LittleEndian;
    match f.ltype
    case Bool => OneByte(if v.b then 1 else 0);
    case Varint => VarintGroups(Wrap64(v.n));
    case UVarint => VarintGroups(v.n);
    case SVarint => ZigzagIsFolding(v.n); VarintGroups(Zigzag(v.n));
    case Fixed32 => Pow2At32(32); FixedRoundTrip(4, v.n);
    case Fixed64 => Pow2At64(64); FixedRoundTrip(8, v.n);
  }

  lemma RunOnTheWire(f: Field, v: Value, b: bytes)
    requires FieldOk(f) && FitsV(f.ltype, f.dataSize, v) && EncV(f.ltype, f.dataSize, v) == Some(b) && |b| < TWO32
    requires !Packable(f.ltype)
    ensures Depicts(f, v, b)
  {
    hide EncVarint, EncFrom, Delimited, StrLen, Groups, EndsAt, FieldOk, BoundedV;
    assert b + [] == b;
    match f.ltype
    case Bytes => DelimitedRoundTrip(v.data[..v.size], []);
    case String => DelimitedRoundTrip(v.chars[..StrLen(v.chars)], []);
    case FixedLengthBytes => DelimitedRoundTrip(v.raw, []);
    case Submessage(fs) => DelimitedRoundTrip(EncFrom(fs, v.msg, 0).value, []);
  }

  lemma OneByte(v: nat)
    requires v < 128
    ensures EncVarint(v) == [v]
  {
  }

  // ----- what the encoder writes is skipped by who does not know it -----

  /** A reader steps over exactly what was written of a value. */
  lemma StepsOver(f: Field, v: Value, b: bytes, suffix: bytes)
    requires FieldOk(f) && FitsV(f.ltype, f.dataSize, v)
    requires EncV(f.ltype, f.dataSize, v) == Some(b) && |b| < TWO32
    ensures SkipField(WireOf(f.ltype), b + suffix) == Got((), suffix)
  {
    hide EncVarint, EncFixed, EncFrom, Delimited, StrLen;
    match f.ltype
    case Bool => VarintSkipped(if v.b then 1 else 0, suffix);
    case Varint => VarintSkipped(Wrap64(v.n), suffix);
    case UVarint => VarintSkipped(v.n, suffix);
    case SVarint => VarintSkipped(Zigzag(v.n), suffix);
    case Fixed32 => assert (b + suffix)[4..] == suffix;
    case Fixed64 => assert (b + suffix)[8..] == suffix;
    case Bytes => DelimitedRoundTrip(v.data[..v.size], suffix);
    case String => DelimitedRoundTrip(v.chars[..StrLen(v.chars)], suffix);
    case FixedLengthBytes => DelimitedRoundTrip(v.raw, suffix);
    case Submessage(fs) => DelimitedRoundTrip(EncFrom(fs, v.msg, 0).value, suffix);
  }

  lemma VarintSkipped(v: nat, suffix: bytes)
    ensures SkipVarint(EncVarint(v) + suffix) == Got((), suffix)
  {
    VarintGroups(v);
    var s := EncVarint(v) + suffix;
    assert EndsAt(s, |EncVarint(v)| - 1);
    SkipVarintExact(s, |EncVarint(v)| - 1);
    assert s[|EncVarint(v)|..] == suffix;
  }

  /** Every single value that the encoder sends is an unknown record to who lacks the field. */
  lemma SentIsUnknown(gs: Fields, f: Field, v: Value, b: bytes)
    requires FieldOk(f) && FitsV(f.ltype, f.dataSize, v) && Unknown(gs, f.tag)
    requires EncV(f.ltype, f.dataSize, v) == Some(b) && |b| < TWO32
    ensures UnknownRecord(gs, f.tag, TagOf(f) + b)
  {
    hide ReadHeader, EncV, SkipField, EncTag, FitsV;
    HeaderRoundTrip(f.tag, WireOf(f.ltype), b);
    StepsOver(f, v, b, []);
    assert b + [] == b;
  }

  /** So is every packed array. */
  lemma PackedIsUnknown(gs: Fields, f: Field, items: seq<Value>, count: nat, b: bytes)
    requires FieldOk(f) && FitsItems(f, items) && Unknown(gs, f.tag) && Packable(f.ltype)
    requires count > 0 && EncArray(f, items, count) == Some(b) && |b| < TWO32
    ensures UnknownRecord(gs, f.tag, b)
  {
    hide ReadHeader, EncPacked, EncTag, FitsV, Delimited, EncVarint;
    var payload := EncPacked(f, items, 0, count).value;
    HeaderRoundTrip(f.tag, WtString, EncString(payload));
    assert EncString(payload) + [] == EncString(payload);
    DelimitedRoundTrip(payload, []);
  }

  lemma {:induction false} ItemsSkipped(gs: Fields, st: Progress, f: Field, items: seq<Value>, k: nat, n: nat, b: bytes, tail: bytes)
    requires SchemaOk(gs) && FitsP(gs, st) && FieldOk(f) && FitsItems(f, items) && Unknown(gs, f.tag) && k <= n <= |items|
    requires EncItems(f, items, k, n) == Some(b) && |b| < TWO32
    ensures Loop(gs, st, b + tail) == Loop(gs, st, tail)
    decreases n - k
  {
    hide Loop, EncV, FitsV, UnknownRecord, EncTag, SchemaOk, FitsM, FieldOk;
    Merging.TagNotZero(f);
    if k == n {
      assert b + tail == tail;
    } else {
      var bv := EncV(f.ltype, f.dataSize, items[k]).value;
      var c := EncItems(f, items, k + 1, n).value;
      assert b + tail == (TagOf(f) + bv) + (c + tail);
      SentIsUnknown(gs, f, items[k], bv);
      SkipsUnknown(gs, f.tag, st, TagOf(f) + bv, c + tail);
      ItemsSkipped(gs, st, f, items, k + 1, n, c, tail);
    }
  }

  lemma FieldSkipped(gs: Fields, st: Progress, f: Field, s: Slot, which: nat, b: bytes, tail: bytes)
    requires SchemaOk(gs) && FitsP(gs, st) && FieldOk(f) && FitsS(f, s) && Unknown(gs, f.tag)
    requires EncF(f, s, which) == Some(b) && |b| < TWO32
    ensures Loop(gs, st, b + tail) == Loop(gs, st, tail)
  {
    hide Loop, EncV, FitsV, UnknownRecord, EncTag, SchemaOk, FitsM, FieldOk, EncPacked, EncItems, IsZeroV;
    Merging.TagNotZero(f);
    if f.htype.Repeated? {
      var n := if s.Rep? then s.count else f.arraySize;
      if n == 0 {
        assert b + tail == tail;
      } else if Packable(f.ltype) {
        PackedIsUnknown(gs, f, s.items, n, b);
        SkipsUnknown(gs, f.tag, st, b, tail);
      } else {
        ItemsSkipped(gs, st, f, s.items, 0, n, b, tail);
      }
    } else if Present(f, s, which) {
      SentIsUnknown(gs, f, s.v, EncV(f.ltype, f.dataSize, s.v).value);
      SkipsUnknown(gs, f.tag, st, b, tail);
    } else {
      assert b + tail == tail;
    }
  }

  /** A reader that knows none of the fields from i on steps over all of them. */
  lemma {:induction false} FieldsSkipped(gs: Fields, st: Progress, fs: Fields, m: Msg, i: nat, b: bytes, tail: bytes)
    requires SchemaOk(gs) && FitsP(gs, st) && SchemaOk(fs) && FitsM(fs, m) && i <= |fs|
    requires forall j | i <= j < |fs| :: Unknown(gs, fs[j].tag)
    requires EncFrom(fs, m, i) == Some(b) && |b| < TWO32
    ensures Loop(gs, st, b + tail) == Loop(gs, st, tail)
    decreases |fs| - i
  {
    hide Loop, EncF, FitsS, FieldOk, Unknown;
    if i == |fs| {
      assert b + tail == tail;
    } else {
      SlotFits(fs, m, i);
      var c := EncF(fs[i], m.slots[i], Which(fs, m, i)).value;
      var d := EncFrom(fs, m, i + 1).value;
      assert b + tail == c + (d + tail);
      FieldSkipped(gs, st, fs[i], m.slots[i], Which(fs, m, i), c, d + tail);
      FieldsSkipped(gs, st, fs, m, i + 1, d, tail);
    }
  }

  // ----- new fields and old readers -----

  /** The value names a member of union u. */
  predicate NamesMember(gs: Fields, u: nat, which: nat) {
    exists i | 0 <= i < |gs| :: gs[i].htype.OneOf? && UnionOf(gs, i) == u && gs[i].tag == which
  }

  /** The part of a message that the first n fields make up; a union that is set to a member
      behind them is unset. */
  function Older(fs: Fields, m: Msg, n: nat): Msg
    requires n <= |m.slots| && n <= |m.which| && n <= |fs|
  {
    Msg(m.slots[..n], seq(n, u requires 0 <= u < n => if NamesMember(fs[..n], u, m.which[u]) then m.which[u] else 0))
  }

  lemma {:induction false} OlderUnion(fs: Fields, n: nat, i: nat)
    requires i < n <= |fs|
    ensures UnionOf(fs[..n], i) == UnionOf(fs, i)
  {
    if i > 0 && SameUnion(fs[i - 1], fs[i]) {
      OlderUnion(fs, n, i - 1);
    }
  }

  /** The older schema sees the same members active. */
  lemma OlderWhich(fs: Fields, m: Msg, n: nat, i: nat)
    requires SchemaOk(fs) && FitsM(fs, m) && i < n <= |fs| && fs[i].htype.OneOf?
    ensures var w := Which(fs[..n], Older(fs, m, n), i);
            && (w == fs[i].tag <==> Which(fs, m, i) == fs[i].tag)
            && (w == 0 || NamesMember(fs[..n], UnionOf(fs, i), w))
  {
    hide FitsS, SchemaOk;
    OlderUnion(fs, n, i);
    SlotFits(fs, m, i);
    Merging.TagNotZero(fs[i]);
    assert fs[..n][i] == fs[i];
  }

  lemma OlderFits(fs: Fields, m: Msg, n: nat)
    requires SchemaOk(fs) && FitsM(fs, m) && n <= |fs|
    ensures SchemaOk(fs[..n]) && FitsM(fs[..n], Older(fs, m, n))
  {
    hide FitsS, FieldOk;
  }

  lemma OlderBounded(fs: Fields, m: Msg, n: nat)
    requires SchemaOk(fs) && FitsM(fs, m) && BoundedM(fs, m) && n <= |fs|
    requires FitsM(fs[..n], Older(fs, m, n))
    ensures BoundedM(fs[..n], Older(fs, m, n))
  {
    hide FitsS, FieldOk, SchemaOk, BoundedV, FitsV, Older;
    var gs, o := fs[..n], Older(fs, m, n);
    forall i | 0 <= i < n
      ensures FitsS(gs[i], o.slots[i]) && BoundedS(gs[i], o.slots[i], Which(gs, o, i)) && WhichOk(gs, o, i)
    {
      OlderPart(fs, m, n, i);
      if fs[i].htype.OneOf? {
        OlderWhich(fs, m, n, i);
        OlderUnion(fs, n, i);
      }
    }
  }

  lemma OlderPart(fs: Fields, m: Msg, n: nat, i: nat)
    requires SchemaOk(fs) && FitsM(fs, m) && i < n <= |fs|
    ensures fs[..n][i] == fs[i] && Older(fs, m, n).slots[i] == m.slots[i] && FitsS(fs[i], m.slots[i])
    ensures BoundedM(fs, m) ==> BoundedS(fs[i], m.slots[i], Which(fs, m, i))
  {
    hide FitsS, FieldOk, BoundedS;
    SlotFits(fs, m, i);
  }

  /** The first fields are written first, as the older schema writes them. */
  lemma {:induction false} OlderPrefix(fs: Fields, m: Msg, n: nat, i: nat)
    requires SchemaOk(fs) && FitsM(fs, m) && i <= n <= |fs| && FitsM(fs[..n], Older(fs, m, n))
    ensures EncFrom(fs, m, i) == Cat(EncFrom(fs[..n], Older(fs, m, n), i), EncFrom(fs, m, n))
    decreases n - i
  {
    hide EncF, FitsS, FieldOk, Older, SchemaOk;
    if i < n {
      var o := Older(fs, m, n);
      OlderPart(fs, m, n, i);
      OlderField(fs, m, n, i);
      OlderPrefix(fs, m, n, i + 1);
      CatTwice(EncF(fs[i], m.slots[i], Which(fs, m, i)), EncFrom(fs[..n], o, i + 1), EncFrom(fs, m, n));
    } else {
      CatNothing(EncFrom(fs, m, n));
    }
  }

  lemma OlderField(fs: Fields, m: Msg, n: nat, i: nat)
    requires SchemaOk(fs) && FitsM(fs, m) && i < n <= |fs| && FitsS(fs[i], m.slots[i])
    ensures EncF(fs[i], m.slots[i], Which(fs[..n], Older(fs, m, n), i)) == EncF(fs[i], m.slots[i], Which(fs, m, i))
  {
    hide EncV, EncArray, FitsV, FieldOk, SchemaOk, Older;
    if fs[i].htype.OneOf? {
      OlderWhich(fs, m, n, i);
    }
  }

  lemma CatNothing(a: Option<bytes>)
    ensures Cat(Some([]), a) == a
  {
    if a.Some? {
      assert [] + a.value == a.value;
    }
  }

  lemma CatTwice(a: Option<bytes>, b: Option<bytes>, c: Option<bytes>)
    ensures Cat(a, Cat(b, c)) == Cat(Cat(a, b), c)
  {
    if a.Some? && b.Some? && c.Some? {
      assert a.value + (b.value + c.value) == (a.value + b.value) + c.value;
    }
  }

  /** A loop that meets a zero tag stops there, whatever follows. */
  lemma {:induction false} StopsInside(fs: Fields, st: Progress, x: bytes, t: bytes)
    requires SchemaOk(fs) && FitsP(fs, st) && Loop(fs, st, x).Got? && !Exhausts(fs, st, x)
    ensures Loop(fs, st, x + t) == Got(Loop(fs, st, x).value, Loop(fs, st, x).rest + t)
    decreases |x|
  {
    hide Dispatch, ReadHeader, SchemaOk;
    HeaderLocal(x, t);
    var h := ReadHeader(x);
    if h.FieldHeader? {
      DispatchLocal(fs, st, h.tag, h.wt, h.rest, t);
      var p := Dispatch(fs, st, h.tag, h.wt, h.rest);
      StopsInside(fs, p.value, p.rest, t);
      LoopTurn(fs, st, x + t, h.tag, h.wt, h.rest + t);
    }
  }

  /** An encoding has no zero tag: the loop runs to its very end. */
  lemma EncodingExhausts(fs: Fields, a: Msg, m: Msg, x: bytes)
    requires SchemaOk(fs) && FitsM(fs, a) && FitsM(fs, m) && BoundedM(fs, m) && Merging.RoomM(fs, a, m)
    requires EncM(fs, m) == Some(x) && |x| < TWO32
    ensures Exhausts(fs, Start(a), x)
  {
    hide Loop, FitsM, SchemaOk, EncM, BoundedM, Exhausts, Merging.MergeM, Merging.RoomM, Merging.AlikeM;
    var st1 := RoundTrip.MessageLoop(fs, Start(a), m, x, []);
    assert x + [] == x;
    LoopEnd(fs, st1);
    var st2 := RoundTrip.MessageLoop(fs, Start(a), m, x, [0]);
    ZeroEnds(fs, st2);
    if !Exhausts(fs, Start(a), x) {
      StopsInside(fs, Start(a), x, [0]);
    }
  }

  lemma ZeroEnds(fs: Fields, st: Progress)
    requires SchemaOk(fs) && FitsP(fs, st)
    ensures Loop(fs, st, [0]) == Got(st, [])
  {
    var zero: bytes := [0];
    assert zero[1..] == [];
  }

  /** A message with new fields and new union members, read by who knows the first n only,
      onto any structure: exactly the older part of the message arrives. */
  lemma NewFieldsIgnored(fs: Fields, n: nat, a: Msg, m: Msg)
    requires SchemaOk(fs) && FitsM(fs, m) && BoundedM(fs, m) && n <= |fs| && FitsM(fs[..n], a)
    requires EncM(fs, m).Some? && |EncM(fs, m).value| < TWO32
    ensures SchemaOk(fs[..n]) && FitsM(fs[..n], Older(fs, m, n)) && BoundedM(fs[..n], Older(fs, m, n))
    ensures EncM(fs[..n], Older(fs, m, n)).Some?
    ensures DecM(fs[..n], a, EncM(fs, m).value) == DecM(fs[..n], a, EncM(fs[..n], Older(fs, m, n)).value)
  {
    hide FitsM, SchemaOk, DecM, EncFrom, Older, BoundedM, Unknown;
    OlderSlots(fs, m, n);
    OlderFits(fs, m, n);
    OlderBounded(fs, m, n);
    OlderPrefix(fs, m, n, 0);
    NoneOfThem(fs, n);
    OlderReader(fs[..n], a, Older(fs, m, n), fs, m, n, EncM(fs[..n], Older(fs, m, n)).value, EncFrom(fs, m, n).value);
  }

  lemma OlderSlots(fs: Fields, m: Msg, n: nat)
    requires FitsM(fs, m) && n <= |fs|
    ensures n <= |m.slots| && n <= |m.which|
  {
  }

  lemma OlderReader(gs: Fields, a: Msg, o: Msg, fs: Fields, m: Msg, n: nat, x: bytes, y: bytes)
    requires SchemaOk(gs) && FitsM(gs, a) && FitsM(gs, o) && BoundedM(gs, o) && EncM(gs, o) == Some(x) && |x| < TWO32
    requires SchemaOk(fs) && FitsM(fs, m) && n <= |fs| && EncFrom(fs, m, n) == Some(y) && |y| < TWO32
    requires forall j | n <= j < |fs| :: Unknown(gs, fs[j].tag)
    ensures DecM(gs, a, x + y) == DecM(gs, a, x)
  {
    hide Loop, FitsM, SchemaOk, EncM, EncFrom, BoundedM, Exhausts, Unknown, Merging.RoomM;
    if Merging.RoomM(gs, a, o) {
      EncodingExhausts(gs, a, o, x);
      LoopConcat(gs, Start(a), x, y);
      var st := Loop(gs, Start(a), x).value;
      FieldsSkipped(gs, st, fs, m, n, y, []);
      assert y + [] == y;
      LoopEnd(gs, st);
    } else {
      RoundTrip.LoopRefused(gs, Start(a), o, x, y);
      RoundTrip.LoopRefused(gs, Start(a), o, x, []);
      assert x + [] == x;
    }
  }

  lemma NoneOfThem(fs: Fields, n: nat)
    requires SchemaOk(fs) && n <= |fs|
    ensures forall j | n <= j < |fs| :: Unknown(fs[..n], fs[j].tag)
  {
    hide FieldOk;
  }

  // ----- what follows a zero tag -----

  /** Inside a submessage or a delimited message, decoding ends at a zero tag. */
  lemma ZeroTagEnds(fs: Fields, a: Msg, m: Msg, x: bytes, junk: bytes)
    requires SchemaOk(fs) && FitsM(fs, a) && FitsM(fs, m) && BoundedM(fs, m) && EncM(fs, m) == Some(x) && |x| < TWO32
    ensures var p, q := DecM(fs, a, x), DecM(fs, a, x + ([0] + junk));
            (p.Got? <==> q.Got?) && (p.Got? ==> q == Got(p.value, junk))
  {
    hide Loop, FitsM, SchemaOk, EncM, BoundedM, Exhausts, Merging.RoomM;
    if Merging.RoomM(fs, a, m) {
      EncodingExhausts(fs, a, m, x);
      LoopConcat(fs, Start(a), x, [0] + junk);
      Framing.StopsAtZero(fs, Loop(fs, Start(a), x).value, junk);
    } else {
      RoundTrip.LoopRefused(fs, Start(a), m, x, [0] + junk);
      RoundTrip.LoopRefused(fs, Start(a), m, x, []);
      assert x + [] == x;
    }
  }

  /** What is behind it, up to the announced length, is dropped. */
  lemma RestDropped(f: Field, was: Value, m: Msg, x: bytes, junk: bytes, suffix: bytes)
    requires FieldOk(f) && f.ltype.Submessage? && SchemaOk(f.ltype.fields) && FitsV(f.ltype, f.dataSize, was)
    requires FitsM(f.ltype.fields, m) && BoundedM(f.ltype.fields, m) && EncM(f.ltype.fields, m) == Some(x)
    requires |x| + 1 + |junk| < TWO32
    ensures DecV(f, was, EncString(x + ([0] + junk)) + suffix) == DecV(f, was, EncString(x) + suffix)
  {
    hide EncString, Delimited, DecM, SchemaOk, EncM, BoundedM, FitsM, FieldOk, DefaultM;
    var fs := f.ltype.fields;
    DelimitedRoundTrip(x + ([0] + junk), suffix);
    DelimitedRoundTrip(x, suffix);
    DefaultMFits(fs, was.msg);
    ZeroTagEnds(fs, if f.htype.Repeated? then DefaultM(fs, was.msg) else was.msg, m, x, junk);
  }

  lemma DelimitedRestDropped(fs: Fields, dest: Msg, m: Msg, junk: bytes, suffix: bytes)
    requires SchemaOk(fs) && FitsM(fs, dest) && Framing.Sendable(fs, m) && |EncM(fs, m).value| + 1 + |junk| < TWO32
    ensures Framing.DecodeDelimited(fs, dest, EncString(EncM(fs, m).value + ([0] + junk)) + suffix)
            == Framing.DecodeDelimited(fs, dest, EncString(EncM(fs, m).value) + suffix)
  {
    hide EncString, Delimited, DecM, SchemaOk, EncM, BoundedM, FitsM, DefaultM;
    var x := EncM(fs, m).value;
    DelimitedRoundTrip(x + ([0] + junk), suffix);
    DelimitedRoundTrip(x, suffix);
    DefaultMFits(fs, dest);
    ZeroTagEnds(fs, DefaultM(fs, dest), m, x, junk);
  }
}
