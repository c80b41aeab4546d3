/** The encoder: table-driven methods over an output stream, proved to write what
    `Encoding` specifies. */
module Encoder {
  import opened Options
  import opened Wire
  import opened Bits
  import opened Schema
  import opened Encoding
  import opened OutputStream
  import opened Iterator
  import Framing

  // ----- integers -----

  /** All groups of `v` are out, the last one still with its continuation bit. */
  ghost predicate Complete(v: nat, out: bytes) {
    out != [] && out[|out| - 1] >= 128 && EncVarint(v) == out[..|out| - 1] + [out[|out| - 1] - 128]
  }

  /** The groups in `out` are those of `v` below `value`. */
  ghost predicate Emitted(v: nat, out: bytes, value: nat) {
    if value == 0 then Complete(v, out) else EncVarint(v) == out + EncVarint(value)
  }

  lemma EmitNone(v: nat)
    requires v != 0
    ensures Emitted(v, [], v)
  {
  }

  lemma EmitGroup(v: nat, out: bytes, value: nat, b: byte, next: nat)
    requires value != 0 && b == value % 128 + 128 && next == value / 128
    requires Emitted(v, out, value)
    ensures Emitted(v, out + [b], next)
  {
    hide EncVarint;
    EncVarintGroup(value, b, next);
    if next != 0 {
      Regroup(out, b, EncVarint(next));
    } else {
      assert (out + [b])[..|out|] == out;
    }
  }

  lemma EncVarintGroup(value: nat, b: byte, next: nat)
    requires b == value % 128 + 128 && next == value / 128
    ensures EncVarint(value) == if next == 0 then [b - 128] else [b] + EncVarint(next)
  {
  }

  lemma Regroup(s: bytes, b: byte, t: bytes)
    ensures s + ([b] + t) == s + [b] + t
  {
  }

  /** Clearing the continuation bit of the last group. */
  method CloseVarint(buffer: array<byte>, i: nat, ghost v: nat)
    requires i <= buffer.Length && Complete(v, buffer[..i])
    modifies buffer
    ensures buffer[..i] == EncVarint(v)
  {
    buffer[i - 1] := buffer[i - 1] - 128;
  }

  /** The local buffer of the varint encoder; ten bytes are always enough. */
  method VarintBytes(v: nat) returns (buffer: array<byte>, i: nat)
    requires 0x7F < v < TWO64
    ensures fresh(buffer) && i <= buffer.Length == 10 && buffer[..i] == EncVarint(v)
  {
    hide Pow2, EncVarint, Emitted;
    buffer := new byte[10];
    var value: nat := v;
    i := 0;
    Pow2At64(64);
    EmitNone(v);
    assert buffer[..0] == [];
    while value != 0
      invariant i <= 10
      invariant value != 0 ==> i <= 9 && value < Pow2(64 - 7 * i)
      invariant Emitted(v, buffer[..i], value)
      decreases value
    {
      Dec64Remaining(value, 7 * i);
      EmitGroup(v, buffer[..i], value, value % 128 + 128, value / 128);
      buffer[i] := value % 128 + 128;
      assert buffer[..i + 1] == buffer[..i] + [value % 128 + 128];
      value := value / 128;
      i := i + 1;
    }
    EmitAll(v, buffer[..i]);
    CloseVarint(buffer, i, v);
  }

  lemma EmitAll(v: nat, out: bytes)
    requires Emitted(v, out, 0)
    ensures Complete(v, out)
  {
  }

  method EncodeVarint(stream: OStream, v: nat) returns (ok: bool, ghost w: bytes)
    requires stream.Valid() && v < TWO64
    modifies stream, stream.buf
    ensures stream.Valid() && Wrote(stream.sizing, old(stream.Now()), w, stream.Now())
    ensures stream.Outcome(old(stream.Now()), Some(EncVarint(v)), ok, w)
  {
    hide Wrote;
    if v <= 0x7F {
      ok, w := stream.Write([v], 1, [v]);
      return;
    }
    var buffer, i := VarintBytes(v);
    ok, w := stream.Write(buffer[..i], i, buffer[..i]);
  }

  method EncodeSvarint(stream: OStream, value: int) returns (ok: bool, ghost w: bytes)
    requires stream.Valid() && 0 - TWO63 <= value < TWO63
    modifies stream, stream.buf
    ensures stream.Valid() && Wrote(stream.sizing, old(stream.Now()), w, stream.Now())
    ensures stream.Outcome(old(stream.Now()), Some(EncVarint(Zigzag(value))), ok, w)
  {
    var doubled := (Wrap64(value) * 2) % TWO64;
    var zigzagged := if value < 0 then TWO64 - 1 - doubled else doubled;
    ok, w := EncodeVarint(stream, zigzagged);
  }

  method EncodeFixed32(stream: OStream, val: nat) returns (ok: bool, ghost w: bytes)
    requires stream.Valid() && val < TWO32
    modifies stream, stream.buf
    ensures stream.Valid() && Wrote(stream.sizing, old(stream.Now()), w, stream.Now())
    ensures stream.Outcome(old(stream.Now()), Some(EncFixed(4, val)), ok, w)
  {
    var b: bytes := [val % 256, (val / 0x100) % 256, (val / 0x1_0000) % 256, (val / 0x100_0000) % 256];
    FixedBytes4(val);
    ok, w := stream.Write(b, 4, b);
  }

  lemma FixedBytes4(v: nat)
    ensures EncFixed(4, v) == [v % 256, (v / 0x100) % 256, (v / 0x1_0000) % 256, (v / 0x100_0000) % 256]
  {
    var a, b, c := v / 256, v / 0x1_0000, v / 0x100_0000;
    assert b == a / 256 && c == b / 256;
    FixedBytes2(v);
    FixedBytes2(b);
    assert EncFixed(3, a) == [a % 256] + EncFixed(2, b);
    assert EncFixed(4, v) == [v % 256] + EncFixed(3, a);
  }

  lemma FixedBytes2(v: nat)
    ensures EncFixed(2, v) == [v % 256, (v / 256) % 256]
  {
    assert EncFixed(1, v / 256) == [(v / 256) % 256] + EncFixed(0, v / 256 / 256);
  }

  method EncodeFixed64(stream: OStream, val: nat) returns (ok: bool, ghost w: bytes)
    requires stream.Valid() && val < TWO64
    modifies stream, stream.buf
    ensures stream.Valid() && Wrote(stream.sizing, old(stream.Now()), w, stream.Now())
    ensures stream.Outcome(old(stream.Now()), Some(EncFixed(8, val)), ok, w)
  {
    var hi := val / 0x1_0000_0000;
    var b: bytes := [val % 256, (val / 0x100) % 256, (val / 0x1_0000) % 256, (val / 0x100_0000) % 256,
                     hi % 256, (hi / 0x100) % 256, (hi / 0x1_0000) % 256, (hi / 0x100_0000) % 256];
    FixedBytes4(val);
    FixedBytes4(hi);
    FixedHalves(val);
    assert b == b[..4] + b[4..];
    assert b[..4] == EncFixed(4, val) && b[4..] == EncFixed(4, hi);
    ok, w := stream.Write(b, 8, b);
  }

  lemma FixedHalves(v: nat)
    ensures EncFixed(8, v) == EncFixed(4, v) + EncFixed(4, v / 0x1_0000_0000)
  {
    hide EncFixed;
    FixedPeel(7, 3, v);
    FixedPeel(6, 2, v / 256);
    FixedPeel(5, 1, v / 256 / 256);
    FixedPeel(4, 0, v / 256 / 256 / 256);
    assert v / 256 / 256 / 256 / 256 == v / 0x1_0000_0000;
  }

  lemma FixedPeel(m: nat, n: nat, v: nat)
    ensures EncFixed(m + 1, v) == [v % 256] + EncFixed(m, v / 256)
    ensures EncFixed(n + 1, v) == [v % 256] + EncFixed(n, v / 256)
    ensures EncFixed(0, v / 256) == []
  {
  }

  /** The varint of a negative value where only 32-bit registers are available: the 32 one
      bits above the register are fed in from the top while it is shifted out. */
  method NegativeVarintBytes(v: nat) returns (buffer: array<byte>, i: nat)
    requires 0x8000_0000 <= v < TWO32
    ensures fresh(buffer) && i == buffer.Length == 10 && buffer[..i] == EncVarint(v + TWO64 - TWO32)
  {
    hide Xor, Shl, Shr, EncVarint, CompensationAt, Emitted;
    buffer := new byte[10];
    var value: nat, compensation: nat := v, 32;
    i := 0;
    ghost var full: nat := v + TWO64 - TWO32;
    ghost var rest := full;
    CompensationStart(v, rest);
    EmitNone(full);
    assert buffer[..0] == [];
    while value != 0
      invariant i <= 10
      invariant CompensationAt(i, value, compensation, rest) && (value == 0 ==> rest == 0)
      invariant Emitted(full, buffer[..i], rest)
      decreases 10 - i
    {
      CompensationStep(i, value, compensation, rest);
      EmitGroup(full, buffer[..i], rest, rest % 128 + 128, rest / 128);
      buffer[i] := value % 128 + 128;
      assert buffer[..i + 1] == buffer[..i] + [value % 128 + 128];
      value := value / 128;
      if compensation != 0 {
        var bits := if compensation > 7 then 7 else compensation;
        value := Xor(value, Shl(Shr(0xFF, 8 - bits), 25));
        compensation := compensation - bits;
      }
      rest := rest / 128;
      i := i + 1;
      CompensationZero(i, value, compensation, rest);
    }
    EmitAll(full, buffer[..i]);
    CloseVarint(buffer, i, full);
    NegativeVarintLength(v);
  }

  lemma NegativeVarintLength(v: nat)
    requires 0x8000_0000 <= v < TWO32
    ensures |EncVarint(v + TWO64 - TWO32)| == 10
  {
    hide EncVarint, Pow2;
    VarintAtMostTen(v + TWO64 - TWO32);
    VarintLength(v + TWO64 - TWO32, 9);
    HalfOf64();
  }

  /** It emits the ten bytes of the 64-bit encoder on the sign-extended value. */
  method EncodeNegativeVarint(stream: OStream, v: nat) returns (ok: bool, ghost w: bytes)
    requires stream.Valid() && 0x8000_0000 <= v < TWO32
    modifies stream, stream.buf
    ensures stream.Valid() && Wrote(stream.sizing, old(stream.Now()), w, stream.Now())
    ensures stream.Outcome(old(stream.Now()), Some(EncVarint(Wrap64(v - TWO32))), ok, w)
  {
    hide Wrote;
    var buffer, i := NegativeVarintBytes(v);
    assert Wrap64(v - TWO32) == v + TWO64 - TWO32;
    ok, w := stream.Write(buffer[..i], i, buffer[..i]);
  }

  /** After i turns the register holds the low word of what remains of the 64-bit value,
      and `compensation` counts the one bits still missing above it. */
  ghost predicate CompensationAt(i: nat, value: nat, compensation: nat, rest: nat) {
    match i
    case 0 => compensation == 32 && rest == value + 0xFFFF_FFFF_0000_0000 && 0x8000_0000 <= value < TWO32
    case 1 => compensation == 25 && rest == value + 0x1FF_FFFF_0000_0000 && 0xFE00_0000 <= value < TWO32
    case 2 => compensation == 18 && rest == value + 0x3_FFFF_0000_0000 && 0xFE00_0000 <= value < TWO32
    case 3 => compensation == 11 && rest == value + 0x7FF_0000_0000 && 0xFE00_0000 <= value < TWO32
    case 4 => compensation == 4 && rest == value + 0xF_0000_0000 && 0xFE00_0000 <= value < TWO32
    case 5 => compensation == 0 && rest == value && 0x1E00_0000 <= value < 0x2000_0000
    case 6 => compensation == 0 && rest == value && 0x3C_0000 <= value < 0x40_0000
    case 7 => compensation == 0 && rest == value && 0x7800 <= value < 0x8000
    case 8 => compensation == 0 && rest == value && 0xF0 <= value < 0x100
    case 9 => compensation == 0 && rest == value && value == 1
    case _ => i == 10 && compensation == 0 && rest == value == 0
  }

  lemma CompensationStart(v: nat, rest: nat)
    requires 0x8000_0000 <= v < TWO32 && rest == v + TWO64 - TWO32
    ensures CompensationAt(0, v, 32, rest)
  {
  }

  lemma CompensationZero(i: nat, value: nat, compensation: nat, rest: nat)
    requires CompensationAt(i, value, compensation, rest)
    ensures value == 0 ==> rest == 0
  {
  }

  /** One turn of the loop: shift, then feed in up to seven one bits at the top. */
  lemma CompensationStep(i: nat, value: nat, compensation: nat, rest: nat)
    requires CompensationAt(i, value, compensation, rest) && value != 0
    ensures i <= 9 && rest != 0 && rest % 128 == value % 128
    ensures var bits := if compensation > 7 then 7 else compensation;
            compensation != 0 ==>
              CompensationAt(i + 1, Xor(value / 128, Shl(Shr(0xFF, 8 - bits), 25)), compensation - bits, rest / 128)
    ensures compensation == 0 ==> CompensationAt(i + 1, value / 128, 0, rest / 128)
  {
    hide Xor, Shl, Shr;
    if compensation != 0 {
      FeedIn(value / 128, if compensation > 7 then 7 else compensation);
    }
  }

  lemma FeedIn(value: nat, bits: nat)
    requires value < 0x200_0000 && bits in {4, 7}
    ensures Xor(value, Shl(Shr(0xFF, 8 - bits), 25)) == value + (if bits == 7 then 0xFE00_0000 else 0x1E00_0000)
  {
    hide Xor, Shl, Shr;
    Pow2At25And28();
    TopBits();
    XorDisjoint(value, Shr(0xFF, 8 - bits), 25);
  }

  lemma TopBits()
    ensures Shr(0xFF, 1) == 0x7F && Shr(0xFF, 4) == 0xF
    ensures Shl(0x7F, 25) == 0xFE00_0000 && Shl(0xF, 25) == 0x1E00_0000
  {
    hide Shl;
    assert Shr(0xFF, 4) == Shr(0x7F, 3) == Shr(0x3F, 2) == Shr(0x1F, 1) == 0xF;
    ShlTwentyFive(0x7F);
    ShlTwentyFive(0xF);
  }

  lemma ShlTwentyFive(a: nat)
    ensures Shl(a, 25) == a * 0x200_0000
  {
    hide Shl;
    ShlSeven(a, 18);
    ShlSeven(128 * a, 11);
    ShlSeven(128 * 128 * a, 4);
    ShlFour(128 * 128 * 128 * a);
  }

  // ----- tags and strings -----

  method EncodeTag(stream: OStream, wt: WireType, tag: nat) returns (ok: bool, ghost w: bytes)
    requires stream.Valid() && tag < TWO32 && WireCode(wt) < 8
    modifies stream, stream.buf
    ensures stream.Valid() && Wrote(stream.sizing, old(stream.Now()), w, stream.Now())
    ensures stream.Outcome(old(stream.Now()), Some(EncTag(tag, wt)), ok, w)
  {
    ok, w := EncodeVarint(stream, tag * 8 + WireCode(wt));
  }

  method EncodeTagForField(stream: OStream, f: Field) returns (ok: bool, ghost w: bytes)
    requires stream.Valid() && f.tag < TWO32
    modifies stream, stream.buf
    ensures stream.Valid() && Wrote(stream.sizing, old(stream.Now()), w, stream.Now())
    ensures stream.Outcome(old(stream.Now()), Some(TagOf(f)), ok, w)
  {
    ok, w := EncodeTag(stream, WireOf(f.ltype), f.tag);
  }

  method EncodeString(stream: OStream, s: bytes) returns (ok: bool, ghost w: bytes)
    requires stream.Valid() && |s| <= SIZE_MAX
    modifies stream, stream.buf
    ensures stream.Valid() && Wrote(stream.sizing, old(stream.Now()), w, stream.Now())
    ensures stream.Outcome(old(stream.Now()), Some(EncString(s)), ok, w)
  {
    ghost var a := stream.Now();
    ok, w := EncodeVarint(stream, |s|);
    if !ok {
      stream.FirstFails(a, Some(EncVarint(|s|)), w, Some(s));
      return;
    }
    ghost var b := stream.Now();
    ghost var w2;
    ok, w2 := stream.Write(s, |s|, s);
    stream.Followed(a, Some(EncVarint(|s|)), w, b, Some(s), ok, w2, stream.Now());
    w := w + w2;
  }

  // ----- values, arrays, fields, messages -----

  method EncodeValue(stream: OStream, f: Field, v: Value) returns (ok: bool, ghost w: bytes)
    requires stream.Valid() && FieldOk(f) && FitsV(f.ltype, f.dataSize, v)
    modifies stream, stream.buf
    ensures stream.Valid() && Wrote(stream.sizing, old(stream.Now()), w, stream.Now())
    ensures stream.Outcome(old(stream.Now()), EncV(f.ltype, f.dataSize, v), ok, w)
    decreases f, 0
  {
    hide Wrote, EncVarint, EncFixed, EncString;
    match f.ltype
    case Bool => ok, w := EncodeVarint(stream, if v.b then 1 else 0);
    case Varint => ok, w := EncodeVarint(stream, Wrap64(v.n));
    case UVarint => ok, w := EncodeVarint(stream, v.n);
    case SVarint => ok, w := EncodeSvarint(stream, v.n);
    case Fixed32 => ok, w := EncodeFixed32(stream, v.n);
    case Fixed64 => ok, w := EncodeFixed64(stream, v.n);
    case Bytes =>
      if v.size > |v.data| {
        stream.Started(stream.Now());
        return false, [];
      }
      ok, w := EncodeString(stream, v.data[..v.size]);
    case String =>
      var size := 0;
      while size < f.dataSize && v.chars[size] != 0
        invariant size <= f.dataSize
        invariant forall k | 0 <= k < size :: v.chars[k] != 0
        invariant stream.Valid() && stream.Now() == old(stream.Now())
      {
        size := size + 1;
      }
      assert StrLen(v.chars) == size;
      ok, w := EncodeString(stream, v.chars[..size]);
    case FixedLengthBytes => ok, w := EncodeString(stream, v.raw);
    case Submessage(fs) => ok, w := EncodeSubmessage(stream, fs, v.msg);
  }

  lemma CatAssoc(a: Option<bytes>, b: Option<bytes>, c: Option<bytes>)
    ensures Cat(Cat(a, b), c) == Cat(a, Cat(b, c))
  {
    if a.Some? && b.Some? && c.Some? {
      assert a.value + b.value + c.value == a.value + (b.value + c.value);
    }
  }

  lemma CatEmpty(a: Option<bytes>)
    ensures Cat(Some([]), a) == a && Cat(a, Some([])) == a
  {
    if a.Some? {
      assert [] + a.value == a.value && a.value + [] == a.value;
    }
  }

  lemma {:induction false} PackedFixedSize(f: Field, items: seq<Value>, k: nat, count: nat)
    requires k <= count <= |items| && forall j | 0 <= j < |items| :: FitsV(f.ltype, f.dataSize, items[j])
    requires f.ltype.Fixed32? || f.ltype.Fixed64?
    ensures EncPacked(f, items, k, count).Some?
    ensures |EncPacked(f, items, k, count).value| == (if f.ltype.Fixed32? then 4 else 8) * (count - k)
    decreases count - k
  {
    if k < count {
      PackedFixedSize(f, items, k + 1, count);
    }
  }

  /** The items of a packed array, into the stream itself or into a sizing stream. */
  method EncodePackedItems(stream: OStream, f: Field, items: seq<Value>, count: nat) returns (ok: bool, ghost w: bytes)
    requires stream.Valid() && FieldOk(f) && count <= |items|
    requires forall j | 0 <= j < |items| :: FitsV(f.ltype, f.dataSize, items[j])
    modifies stream, stream.buf
    ensures stream.Valid() && Wrote(stream.sizing, old(stream.Now()), w, stream.Now())
    ensures stream.Outcome(old(stream.Now()), EncPacked(f, items, 0, count), ok, w)
    decreases f, 1
  {
    hide Wrote, EncV, FitsV, FieldOk;
    ghost var a := stream.Now();
    ghost var done: Option<bytes> := Some([]);
    ok, w := true, [];
    stream.Started(a);
    CatEmpty(EncPacked(f, items, 0, count));
    var i := 0;
    while i < count
      invariant i <= count && stream.Valid() && ok
      invariant Wrote(stream.sizing, a, w, stream.Now()) && stream.Outcome(a, done, true, w)
      invariant Cat(done, EncPacked(f, items, i, count)) == EncPacked(f, items, 0, count)
    {
      ghost var b := stream.Now();
      ghost var w2, e;
      e := EncV(f.ltype, f.dataSize, items[i]);
      ok, w2 := EncodeValue(stream, f, items[i]);
      stream.Followed(a, done, w, b, e, ok, w2, stream.Now());
      CatAssoc(done, e, EncPacked(f, items, i + 1, count));
      done, w := Cat(done, e), w + w2;
      if !ok {
        stream.FirstFails(a, done, w, EncPacked(f, items, i + 1, count));
        return;
      }
      i := i + 1;
    }
    CatEmpty(done);
  }

  method EncodeItems(stream: OStream, f: Field, items: seq<Value>, count: nat) returns (ok: bool, ghost w: bytes)
    requires stream.Valid() && FieldOk(f) && count <= |items|
    requires forall j | 0 <= j < |items| :: FitsV(f.ltype, f.dataSize, items[j])
    modifies stream, stream.buf
    ensures stream.Valid() && Wrote(stream.sizing, old(stream.Now()), w, stream.Now())
    ensures stream.Outcome(old(stream.Now()), EncItems(f, items, 0, count), ok, w)
    decreases f, 2
  {
    hide Wrote, EncV, FitsV, FieldOk;
    ghost var a := stream.Now();
    ghost var done: Option<bytes> := Some([]);
    ok, w := true, [];
    stream.Started(a);
    CatEmpty(EncItems(f, items, 0, count));
    var i := 0;
    while i < count
      invariant i <= count && stream.Valid() && ok
      invariant Wrote(stream.sizing, a, w, stream.Now()) && stream.Outcome(a, done, true, w)
      invariant Cat(done, EncItems(f, items, i, count)) == EncItems(f, items, 0, count)
    {
      ghost var b := stream.Now();
      ghost var w2, e;
      e := Cat(Some(TagOf(f)), EncV(f.ltype, f.dataSize, items[i]));
      ok, w2 := EncodeTagged(stream, f, items[i]);
      stream.Followed(a, done, w, b, e, ok, w2, stream.Now());
      CatAssoc(done, e, EncItems(f, items, i + 1, count));
      done, w := Cat(done, e), w + w2;
      if !ok {
        stream.FirstFails(a, done, w, EncItems(f, items, i + 1, count));
        return;
      }
      i := i + 1;
    }
    CatEmpty(done);
  }

  /** A tag and a value. */
  method EncodeTagged(stream: OStream, f: Field, v: Value) returns (ok: bool, ghost w: bytes)
    requires stream.Valid() && FieldOk(f) && FitsV(f.ltype, f.dataSize, v)
    modifies stream, stream.buf
    ensures stream.Valid() && Wrote(stream.sizing, old(stream.Now()), w, stream.Now())
    ensures stream.Outcome(old(stream.Now()), Cat(Some(TagOf(f)), EncV(f.ltype, f.dataSize, v)), ok, w)
    decreases f, 1
  {
    hide Wrote, EncV, FitsV;
    ghost var a := stream.Now();
    ok, w := EncodeTagForField(stream, f);
    if !ok {
      stream.FirstFails(a, Some(TagOf(f)), w, EncV(f.ltype, f.dataSize, v));
      return;
    }
    ghost var b := stream.Now();
    ghost var w2;
    ok, w2 := EncodeValue(stream, f, v);
    stream.Followed(a, Some(TagOf(f)), w, b, EncV(f.ltype, f.dataSize, v), ok, w2, stream.Now());
    w := w + w2;
  }

  ghost function Prefixed(payload: Option<bytes>): Option<bytes> {
    if payload.Some? then Some(EncString(payload.value)) else None
  }

  method EncodeSubmessage(stream: OStream, fs: Fields, m: Msg) returns (ok: bool, ghost w: bytes)
    requires stream.Valid() && SchemaOk(fs) && FitsM(fs, m)
    modifies stream, stream.buf
    ensures stream.Valid() && Wrote(stream.sizing, old(stream.Now()), w, stream.Now())
    ensures stream.Outcome(old(stream.Now()), Prefixed(EncM(fs, m)), ok, w)
    decreases fs, 6
  {
    hide Wrote, EncM, FitsM, SchemaOk, EncVarint;
    ghost var a, payload := stream.Now(), EncM(fs, m);
    ghost var w2;
    stream.Started(a);
    var sizer := new OStream.Sizing();
    ghost var z := sizer.Now();
    ok, w2 := Encode(sizer, fs, m);
    if !ok {
      return false, [];
    }
    var size := sizer.bytesWritten;
    Counted(true, z, w2, sizer.Now());
    ok, w := EncodeVarint(stream, size);
    if !ok {
      stream.FirstFails(a, Some(EncVarint(size)), w, payload);
      return;
    }
    ghost var b := stream.Now();
    if stream.sizing {
      ok, w2 := stream.Write([], size, payload.value);
    } else {
      ok, w2 := EncodePayload(stream, fs, m, size);
    }
    stream.Followed(a, Some(EncVarint(size)), w, b, payload, ok, w2, stream.Now());
    w := w + w2;
  }

  /** The writing pass of a submessage, behind its size: a substream with that limit. */
  method EncodePayload(stream: OStream, fs: Fields, m: Msg, size: nat) returns (ok: bool, ghost w: bytes)
    requires stream.Valid() && !stream.sizing && SchemaOk(fs) && FitsM(fs, m) && EncM(fs, m).Some?
    requires size <= SIZE_MAX && (|EncM(fs, m).value| <= SIZE_MAX ==> size == |EncM(fs, m).value|)
    modifies stream, stream.buf
    ensures stream.Valid() && Wrote(stream.sizing, old(stream.Now()), w, stream.Now())
    ensures stream.Outcome(old(stream.Now()), EncM(fs, m), ok, w)
    decreases fs, 5
  {
    hide EncM, FitsM, SchemaOk;
    ghost var a, payload := stream.Now(), EncM(fs, m);
    stream.Started(a);
    if AddSize(stream.bytesWritten, size) > stream.maxSize {
      return false, [];
    }
    if stream.bytesWritten + size > SIZE_MAX {
      // The sum has wrapped, and the test has let a submessage past the limit.
      stream.lost := true;
      return false, payload.value;
    }
    var sub := new OStream.Substream(stream, size);
    ghost var s0 := sub.Now();
    ok, w := Encode(sub, fs, m);
    Counted(false, s0, w, sub.Now());
    if sub.lost {
      stream.lost := true;
      return false, w;
    }
    stream.CatchUp(sub, s0, w);
    if sub.bytesWritten != size {
      ok := false;
    }
  }

  /** The presence rule of proto3 singular fields, applied to any field of a submessage. */
  method CheckProto3Default(f: Field, s: Slot, which: nat) returns (absent: bool)
    requires FieldOk(f) && FitsS(f, s)
    ensures absent == IsZeroS(f, s, which)
    decreases f
  {
    hide SchemaOk;
    if f.htype.Required? {
      return false;
    } else if f.htype.Repeated? {
      return f.sizeOffset != 0 && s.count == 0;
    } else if f.htype.OneOf? {
      return which == 0;
    } else if f.sizeOffset != 0 {
      return !s.has;
    }
    absent := CheckZero(f, s.v);
  }

  method CheckZero(f: Field, v: Value) returns (zero: bool)
    requires FieldOk(f) && FitsV(f.ltype, f.dataSize, v)
    ensures zero == IsZeroV(f.ltype, f.dataSize, v)
    decreases f, 0
  {
    match f.ltype
    case Bytes => zero := v.size == 0;
    case String => zero := v.chars[0] == 0;
    case FixedLengthBytes => zero := f.dataSize == 0;
    case Submessage(fs) => zero := CheckZeroMessage(fs, v.msg);
    case Bool => zero := !v.b;
    case _ => zero := v.n == 0;
  }

  method CheckZeroMessage(fs: Fields, m: Msg) returns (zero: bool)
    requires SchemaOk(fs) && FitsM(fs, m)
    ensures zero == IsZeroM(fs, m)
    decreases fs
  {
    hide FieldOk, FitsS, IsZeroS;
    NoZeroTag(fs);
    var iter := new FieldIter();
    var nonEmpty := iter.Begin(fs, 0);
    if !nonEmpty {
      return true;
    }
    while true
      invariant iter.Valid() && iter.fields == fs && fs != []
      invariant forall i | 0 <= i < iter.pos :: IsZeroS(fs[i], m.slots[i], Which(fs, m, i))
      decreases |fs| - iter.pos
    {
      SlotFits(fs, m, iter.pos);
      var absent := CheckProto3Default(fs[iter.pos], m.slots[iter.pos], Which(fs, m, iter.pos));
      if !absent {
        return false;
      }
      var more := iter.Next();
      if !more {
        return true;
      }
    }
  }

  method EncodeArray(stream: OStream, f: Field, items: seq<Value>, count: nat) returns (ok: bool, ghost w: bytes)
    requires stream.Valid() && FieldOk(f) && |items| == f.arraySize
    requires forall j | 0 <= j < |items| :: FitsV(f.ltype, f.dataSize, items[j])
    modifies stream, stream.buf
    ensures stream.Valid() && Wrote(stream.sizing, old(stream.Now()), w, stream.Now())
    ensures stream.Outcome(old(stream.Now()), EncArray(f, items, count), ok, w)
    decreases f, 4
  {
    hide Wrote, EncV, FitsV, EncItems, EncPacked;
    stream.Started(stream.Now());
    if count == 0 {
      return true, [];
    }
    if count > f.arraySize {
      return false, [];
    }
    if Packable(f.ltype) {
      ok, w := EncodePackedArray(stream, f, items, count);
    } else {
      ok, w := EncodeItems(stream, f, items, count);
    }
  }

  method EncodePackedArray(stream: OStream, f: Field, items: seq<Value>, count: nat) returns (ok: bool, ghost w: bytes)
    requires stream.Valid() && FieldOk(f) && |items| == f.arraySize && Packable(f.ltype)
    requires forall j | 0 <= j < |items| :: FitsV(f.ltype, f.dataSize, items[j])
    requires 0 < count <= f.arraySize
    modifies stream, stream.buf
    ensures stream.Valid() && Wrote(stream.sizing, old(stream.Now()), w, stream.Now())
    ensures stream.Outcome(old(stream.Now()),
                           Cat(Some(EncTag(f.tag, WtString)), Prefixed(EncPacked(f, items, 0, count))), ok, w)
    decreases f, 3
  {
    hide Wrote, EncV, FitsV, EncVarint, EncPacked;
    ghost var a, tag, payload := stream.Now(), EncTag(f.tag, WtString), EncPacked(f, items, 0, count);
    ghost var w2;
    ok, w := EncodeTag(stream, WtString, f.tag);
    if !ok {
      stream.FirstFails(a, Some(tag), w, Prefixed(payload));
      return;
    }
    ghost var b := stream.Now();
    var size;
    if f.ltype.Fixed32? {
      PackedFixedSize(f, items, 0, count);
      size := 4 * count;
    } else if f.ltype.Fixed64? {
      PackedFixedSize(f, items, 0, count);
      size := 8 * count;
    } else {
      var sizer := new OStream.Sizing();
      ghost var z := sizer.Now();
      ok, w2 := EncodePackedItems(sizer, f, items, count);
      if !ok {
        stream.Started(b);
        stream.Followed(a, Some(tag), w, b, Prefixed(payload), false, [], b);
        assert w + [] == w;
        return;
      }
      size := sizer.bytesWritten;
      Counted(true, z, w2, sizer.Now());
    }
    ok, w2 := EncodeSized(stream, f, items, count, size);
    stream.Followed(a, Some(tag), w, b, Prefixed(payload), ok, w2, stream.Now());
    w := w + w2;
  }

  /** The length prefix and the items of a packed array whose size is known. */
  method EncodeSized(stream: OStream, f: Field, items: seq<Value>, count: nat, size: nat) returns (ok: bool, ghost w: bytes)
    requires stream.Valid() && FieldOk(f) && count <= |items|
    requires forall j | 0 <= j < |items| :: FitsV(f.ltype, f.dataSize, items[j])
    requires EncPacked(f, items, 0, count).Some? && size <= SIZE_MAX
    requires |EncPacked(f, items, 0, count).value| <= SIZE_MAX ==> size == |EncPacked(f, items, 0, count).value|
    modifies stream, stream.buf
    ensures stream.Valid() && Wrote(stream.sizing, old(stream.Now()), w, stream.Now())
    ensures stream.Outcome(old(stream.Now()), Prefixed(EncPacked(f, items, 0, count)), ok, w)
    decreases f, 2
  {
    hide Wrote, EncV, FitsV, EncVarint, EncPacked;
    ghost var a, payload := stream.Now(), EncPacked(f, items, 0, count);
    ghost var w2;
    ok, w := EncodeVarint(stream, size);
    if !ok {
      stream.FirstFails(a, Some(EncVarint(size)), w, payload);
      return;
    }
    ghost var b := stream.Now();
    if stream.sizing {
      ok, w2 := stream.Write([], size, payload.value);
    } else {
      ok, w2 := EncodePackedItems(stream, f, items, count);
    }
    stream.Followed(a, Some(EncVarint(size)), w, b, payload, ok, w2, stream.Now());
    w := w + w2;
  }

  method EncodeBasicField(stream: OStream, f: Field, s: Slot, which: nat) returns (ok: bool, ghost w: bytes)
    requires stream.Valid() && FieldOk(f) && FitsS(f, s)
    modifies stream, stream.buf
    ensures stream.Valid() && Wrote(stream.sizing, old(stream.Now()), w, stream.Now())
    ensures stream.Outcome(old(stream.Now()), EncF(f, s, which), ok, w)
    decreases f, 5
  {
    hide Wrote, EncV, FitsV, FieldOk, IsZeroV;
    stream.Started(stream.Now());
    match f.htype
    case Required => ok, w := EncodeTagged(stream, f, s.v);
    case Optional =>
      var has;
      if f.sizeOffset != 0 {
        has := s.has;
      } else {
        var absent := CheckZero(f, s.v);
        has := !absent;
      }
      if has {
        ok, w := EncodeTagged(stream, f, s.v);
      } else {
        ok, w := true, [];
      }
    case Repeated => ok, w := EncodeArray(stream, f, s.items, if f.sizeOffset != 0 then s.count else f.arraySize);
    case OneOf =>
      if which == f.tag {
        ok, w := EncodeTagged(stream, f, s.v);
      } else {
        ok, w := true, [];
      }
  }

  /** pb_encode: the fields in descriptor order, driven by the iterator. */
  method Encode(stream: OStream, fs: Fields, m: Msg) returns (ok: bool, ghost w: bytes)
    requires stream.Valid() && SchemaOk(fs) && FitsM(fs, m)
    modifies stream, stream.buf
    ensures stream.Valid() && Wrote(stream.sizing, old(stream.Now()), w, stream.Now())
    ensures stream.Outcome(old(stream.Now()), EncM(fs, m), ok, w)
    decreases fs, 4
  {
    hide Wrote, EncF, FitsS, FieldOk;
    ghost var a := stream.Now();
    ghost var done: Option<bytes> := Some([]);
    ok, w := true, [];
    stream.Started(a);
    NoZeroTag(fs);
    var iter := new FieldIter();
    var nonEmpty := iter.Begin(fs, 0);
    if !nonEmpty {
      return;
    }
    CatEmpty(EncM(fs, m));
    while true
      invariant iter.Valid() && iter.fields == fs && fs != [] && stream.Valid() && ok
      invariant Wrote(stream.sizing, a, w, stream.Now()) && stream.Outcome(a, done, true, w)
      invariant Cat(done, EncFrom(fs, m, iter.pos)) == EncM(fs, m)
      decreases |fs| - iter.pos
    {
      var i := iter.pos;
      ghost var b, w2 := stream.Now(), [];
      SlotFits(fs, m, i);
      ghost var e := EncF(fs[i], m.slots[i], Which(fs, m, i));
      ok, w2 := EncodeBasicField(stream, fs[i], m.slots[i], Which(fs, m, i));
      stream.Followed(a, done, w, b, e, ok, w2, stream.Now());
      CatAssoc(done, e, EncFrom(fs, m, i + 1));
      done, w := Cat(done, e), w + w2;
      if !ok {
        stream.FirstFails(a, done, w, EncFrom(fs, m, i + 1));
        return;
      }
      var more := iter.Next();
      if !more {
        CatEmpty(done);
        return;
      }
    }
  }

  lemma NoZeroTag(fs: Fields)
    requires SchemaOk(fs)
    ensures forall i | 0 <= i < |fs| :: fs[i].tag != 0
  {
  }

  // ----- entry points -----

  method EncodeDelimited(stream: OStream, fs: Fields, m: Msg) returns (ok: bool, ghost w: bytes)
    requires stream.Valid() && SchemaOk(fs) && FitsM(fs, m)
    modifies stream, stream.buf
    ensures stream.Valid() && Wrote(stream.sizing, old(stream.Now()), w, stream.Now())
    ensures stream.Outcome(old(stream.Now()), Framing.EncodeDelimited(fs, m), ok, w)
  {
    hide Wrote, EncM, FitsM;
    ok, w := EncodeSubmessage(stream, fs, m);
  }

  method EncodeNullTerminated(stream: OStream, fs: Fields, m: Msg) returns (ok: bool, ghost w: bytes)
    requires stream.Valid() && SchemaOk(fs) && FitsM(fs, m)
    modifies stream, stream.buf
    ensures stream.Valid() && Wrote(stream.sizing, old(stream.Now()), w, stream.Now())
    ensures stream.Outcome(old(stream.Now()), Framing.EncodeNullTerminated(fs, m), ok, w)
  {
    hide Wrote, EncM, FitsM;
    ghost var a := stream.Now();
    ok, w := Encode(stream, fs, m);
    if !ok {
      stream.FirstFails(a, EncM(fs, m), w, Some([0]));
      return;
    }
    ghost var b := stream.Now();
    ghost var w2;
    ok, w2 := stream.Write([0], 1, [0]);
    stream.Followed(a, EncM(fs, m), w, b, Some([0]), ok, w2, stream.Now());
    w := w + w2;
  }

  /** The sizing pass counts exactly the bytes that the writing pass writes. */
  method GetEncodedSize(fs: Fields, m: Msg) returns (size: Option<nat>)
    requires SchemaOk(fs) && FitsM(fs, m)
    ensures EncM(fs, m).None? ==> size.None?
    ensures EncM(fs, m).Some? && |EncM(fs, m).value| <= SIZE_MAX ==> size == Some(|EncM(fs, m).value|)
  {
    hide EncM, FitsM;
    var stream := new OStream.Sizing();
    ghost var z := stream.Now();
    ghost var w;
    var ok;
    ok, w := Encode(stream, fs, m);
    Counted(true, z, w, stream.Now());
    if !ok {
      return None;
    }
    return Some(stream.bytesWritten);
  }

  /** Encoding into a buffer succeeds iff the sizing pass does and its size fits; then the
      buffer starts with the encoding. Bytes behind the limit never change, unless a
      submessage that size_t cannot count is on the way to an error. */
  method EncodeToBuffer(buf: array<byte>, size: nat, fs: Fields, m: Msg) returns (ok: bool, written: nat, lost: bool)
    requires size <= buf.Length && size <= SIZE_MAX && SchemaOk(fs) && FitsM(fs, m)
    requires EncM(fs, m).Some? ==> |EncM(fs, m).value| <= SIZE_MAX
    modifies buf
    ensures ok <==> EncM(fs, m).Some? && |EncM(fs, m).value| <= size
    ensures ok ==> written == |EncM(fs, m).value| && buf[..written] == EncM(fs, m).value
    ensures !lost ==> written <= size && buf[written..] == old(buf[written..])
    ensures EncM(fs, m).Some? ==> !lost && buf[..written] <= EncM(fs, m).value
  {
    hide EncM, FitsM;
    var stream := new OStream.FromBuffer(buf, size);
    ghost var w;
    ok, w := Encode(stream, fs, m);
    written, lost := stream.bytesWritten, stream.lost;
    assert !lost ==> buf[..written] == w;
  }

  /** The limit test in front of a submessage is right exactly if the sum does not wrap. */
  lemma LimitTestExact(count: nat, size: nat, maxSize: nat)
    requires count <= maxSize <= SIZE_MAX && size <= SIZE_MAX
    ensures (AddSize(count, size) > maxSize <==> count + size > maxSize) <==> count + size <= SIZE_MAX
  {
  }
}
