/** What the encoder is to write: the bytes of a message as a function of the message.
    `None` is an encoder error. */
module Encoding {
  import opened Options
  import opened Wire
  import opened Schema

  function WireOf(lt: LType): (wt: WireType)
    ensures !wt.WtInvalid?
  {
    match lt
    case Bool => WtVarint
    case Varint => WtVarint
    case UVarint => WtVarint
    case SVarint => WtVarint
    case Fixed32 => Wt32Bit
    case Fixed64 => Wt64Bit
    case _ => WtString
  }

  function TagOf(f: Field): bytes {
    EncTag(f.tag, WireOf(f.ltype))
  }

  /** Sequencing: an error in either part is an error of the whole. */
  function Cat(a: Option<bytes>, b: Option<bytes>): Option<bytes> {
    if a.Some? && b.Some? then Some(a.value + b.value) else None
  }

  function EncV(lt: LType, size: nat, v: Value): (e: Option<bytes>)
    requires FitsV(lt, size, v)
    decreases lt
  {
    match lt
    case Bool => Some(EncVarint(if v.b then 1 else 0))
    case Varint => if size in {1, 2, 4, 8} then Some(EncVarint(Wrap64(v.n))) else None
    case UVarint => if size in {1, 2, 4, 8} then Some(EncVarint(v.n)) else None
    case SVarint => if size in {1, 2, 4, 8} then Some(EncVarint(Zigzag(v.n))) else None
    case Fixed32 => Some(EncFixed(4, v.n))
    case Fixed64 => Some(EncFixed(8, v.n))
    case Bytes => if v.size > |v.data| then None else Some(EncString(v.data[..v.size]))
    case String => Some(EncString(v.chars[..StrLen(v.chars)]))
    case FixedLengthBytes => Some(EncString(v.raw))
    case Submessage(fs) =>
      var e := EncFrom(fs, v.msg, 0);
      if e.Some? then Some(EncString(e.value)) else None
  }

  /** Items k, k+1, ... of a packed array, without tags. */
  function EncPacked(f: Field, items: seq<Value>, k: nat, count: nat): (e: Option<bytes>)
    requires k <= count <= |items|
    requires forall j | 0 <= j < |items| :: FitsV(f.ltype, f.dataSize, items[j])
    decreases f, 0, count - k
  {
    if k == count then Some([])
    else Cat(EncV(f.ltype, f.dataSize, items[k]), EncPacked(f, items, k + 1, count))
  }

  /** Items k, k+1, ... of an array that is not packed, each behind its tag. */
  function EncItems(f: Field, items: seq<Value>, k: nat, count: nat): (e: Option<bytes>)
    requires k <= count <= |items|
    requires forall j | 0 <= j < |items| :: FitsV(f.ltype, f.dataSize, items[j])
    decreases f, 0, count - k
  {
    if k == count then Some([])
    else Cat(Cat(Some(TagOf(f)), EncV(f.ltype, f.dataSize, items[k])), EncItems(f, items, k + 1, count))
  }

  function EncArray(f: Field, items: seq<Value>, count: nat): (e: Option<bytes>)
    requires |items| == f.arraySize
    requires forall j | 0 <= j < |items| :: FitsV(f.ltype, f.dataSize, items[j])
    decreases f, 1
  {
    if count == 0 then Some([])
    else if count > f.arraySize then None
    else if Packable(f.ltype) then
      var e := EncPacked(f, items, 0, count);
      if e.Some? then Some(EncTag(f.tag, WtString) + EncString(e.value)) else None
    else EncItems(f, items, 0, count)
  }

  function Present(f: Field, s: Slot, which: nat): bool
    requires FitsS(f, s) && !f.htype.Repeated?
  {
    match f.htype
    case Required => true
    case Optional => if s.Opt? then s.has else !IsZeroV(f.ltype, f.dataSize, s.v)
    case _ => which == f.tag
  }

  function EncF(f: Field, s: Slot, which: nat): (e: Option<bytes>)
    requires FitsS(f, s)
    decreases f, 2
  {
    if f.htype.Repeated? then EncArray(f, s.items, if s.Rep? then s.count else f.arraySize)
    else if Present(f, s, which) then Cat(Some(TagOf(f)), EncV(f.ltype, f.dataSize, s.v))
    else Some([])
  }

  /** Fields i, i+1, ... of a message, in descriptor order. */
  function EncFrom(fs: Fields, m: Msg, i: nat): (e: Option<bytes>)
    requires FitsM(fs, m) && i <= |fs|
    decreases fs, |fs| - i
  {
    if i == |fs| then Some([])
    else Cat(EncF(fs[i], m.slots[i], Which(fs, m, i)), EncFrom(fs, m, i + 1))
  }

  function EncM(fs: Fields, m: Msg): (e: Option<bytes>)
    requires FitsM(fs, m)
  {
    EncFrom(fs, m, 0)
  }

  // ----- bounded messages encode, equal messages encode alike -----

  lemma {:induction false} BoundedEncodesV(f: Field, v: Value)
    requires FieldOk(f) && FitsV(f.ltype, f.dataSize, v) && BoundedV(f.ltype, f.dataSize, v)
    ensures EncV(f.ltype, f.dataSize, v).Some?
    decreases f, 0
  {
    match f.ltype
    case Submessage(fs) => BoundedEncodes(fs, v.msg, 0);
    case _ =>
  }

  lemma {:induction false} BoundedEncodesItems(f: Field, items: seq<Value>, k: nat, count: nat)
    requires FieldOk(f) && k <= count <= |items|
    requires forall j | 0 <= j < |items| :: FitsV(f.ltype, f.dataSize, items[j])
    requires forall j | 0 <= j < count :: BoundedV(f.ltype, f.dataSize, items[j])
    ensures EncItems(f, items, k, count).Some? && EncPacked(f, items, k, count).Some?
    decreases f, 1, count - k
  {
    if k < count {
      BoundedEncodesV(f, items[k]);
      BoundedEncodesItems(f, items, k + 1, count);
    }
  }

  lemma {:induction false} BoundedEncodesF(f: Field, s: Slot, which: nat)
    requires FieldOk(f) && FitsS(f, s) && BoundedS(f, s, which)
    ensures EncF(f, s, which).Some?
    decreases f, 2
  {
    if f.htype.Repeated? {
      BoundedEncodesItems(f, s.items, 0, if s.Rep? then s.count else f.arraySize);
    } else if Present(f, s, which) {
      BoundedEncodesV(f, s.v);
    }
  }

  /** The encoder accepts every message within its bounds. */
  lemma {:induction false} BoundedEncodes(fs: Fields, m: Msg, i: nat)
    requires SchemaOk(fs) && FitsM(fs, m) && BoundedM(fs, m) && i <= |fs|
    ensures EncFrom(fs, m, i).Some?
    decreases fs, |fs| - i
  {
    if i < |fs| {
      BoundedEncodesF(fs[i], m.slots[i], Which(fs, m, i));
      BoundedEncodes(fs, m, i + 1);
    }
  }

  lemma {:induction false} SameZeroV(lt: LType, size: nat, a: Value, b: Value)
    requires FitsV(lt, size, a) && FitsV(lt, size, b) && SameV(lt, size, a, b)
    ensures IsZeroV(lt, size, a) == IsZeroV(lt, size, b)
    decreases lt
  {
    match lt
    case Submessage(fs) => SameZeroM(fs, a.msg, b.msg);
    case _ =>
  }

  lemma {:induction false} SameZeroS(f: Field, a: Slot, wa: nat, b: Slot, wb: nat)
    requires FitsS(f, a) && FitsS(f, b) && SameS(f, a, wa, b, wb)
    ensures IsZeroS(f, a, wa) == IsZeroS(f, b, wb)
    decreases f
  {
    if IsProto3Singular(f) {
      SameZeroV(f.ltype, f.dataSize, a.v, b.v);
    }
  }

  lemma {:induction false} SameZeroM(fs: Fields, a: Msg, b: Msg)
    requires FitsM(fs, a) && FitsM(fs, b) && SameM(fs, a, b)
    ensures IsZeroM(fs, a) == IsZeroM(fs, b)
    decreases fs
  {
    forall i | 0 <= i < |fs|
      ensures IsZeroS(fs[i], a.slots[i], Which(fs, a, i)) == IsZeroS(fs[i], b.slots[i], Which(fs, b, i))
    {
      SameZeroS(fs[i], a.slots[i], Which(fs, a, i), b.slots[i], Which(fs, b, i));
    }
  }

  lemma {:induction false} SameEncodesV(f: Field, a: Value, b: Value)
    requires FitsV(f.ltype, f.dataSize, a) && FitsV(f.ltype, f.dataSize, b)
    requires SameV(f.ltype, f.dataSize, a, b)
    ensures EncV(f.ltype, f.dataSize, a) == EncV(f.ltype, f.dataSize, b)
    decreases f, 0
  {
    match f.ltype
    case Submessage(fs) => SameEncodes(fs, a.msg, b.msg, 0);
    case _ =>
  }

  lemma {:induction false} SameEncodesItems(f: Field, a: seq<Value>, b: seq<Value>, k: nat, count: nat)
    requires k <= count <= |a| == |b|
    requires forall j | 0 <= j < |a| :: FitsV(f.ltype, f.dataSize, a[j]) && FitsV(f.ltype, f.dataSize, b[j])
    requires forall j | 0 <= j < count :: SameV(f.ltype, f.dataSize, a[j], b[j])
    ensures EncItems(f, a, k, count) == EncItems(f, b, k, count)
    ensures EncPacked(f, a, k, count) == EncPacked(f, b, k, count)
    decreases f, 1, count - k
  {
    if k < count {
      SameEncodesV(f, a[k], b[k]);
      SameEncodesItems(f, a, b, k + 1, count);
    }
  }

  lemma {:induction false} SameEncodesF(f: Field, a: Slot, wa: nat, b: Slot, wb: nat)
    requires FitsS(f, a) && FitsS(f, b) && SameS(f, a, wa, b, wb)
    ensures EncF(f, a, wa) == EncF(f, b, wb)
    decreases f, 2
  {
    if f.htype.Repeated? {
      var n := if a.Rep? then a.count else f.arraySize;
      if n <= f.arraySize {
        SameEncodesItems(f, a.items, b.items, 0, n);
      }
    } else {
      if IsProto3Singular(f) {
        SameZeroV(f.ltype, f.dataSize, a.v, b.v);
      }
      if Present(f, a, wa) {
        SameEncodesV(f, a.v, b.v);
      }
    }
  }

  /** The differences that `SameM` allows are invisible to the encoder. */
  lemma {:induction false} SameEncodes(fs: Fields, a: Msg, b: Msg, i: nat)
    requires FitsM(fs, a) && FitsM(fs, b) && SameM(fs, a, b) && i <= |fs|
    ensures EncFrom(fs, a, i) == EncFrom(fs, b, i)
    decreases fs, |fs| - i
  {
    if i < |fs| {
      SameEncodesF(fs[i], a.slots[i], Which(fs, a, i), b.slots[i], Which(fs, b, i));
      SameEncodes(fs, a, b, i + 1);
    }
  }
}
