/** Field descriptors, the messages they describe, and what it means for a message
    to have the shape of its descriptors. */
module Schema {
  import opened Options
  import opened Wire

  /** The build-time width of `pb_size_t` and of `size_t`, left open. */
  type PbSizeLimit = n: nat | n == 0xFF || n == 0xFFFF || n == 0xFFFF_FFFF witness 0xFF
  type SizeLimit = n: nat | n == 0xFFFF_FFFF || n == 0xFFFF_FFFF_FFFF_FFFF witness 0xFFFF_FFFF
  const PB_SIZE_MAX: PbSizeLimit
  const SIZE_MAX: SizeLimit
  /** Offset of `bytes` behind the `size` member of a bytes array. */
  const BYTES_OFFSET: nat := if PB_SIZE_MAX == 0xFF then 1 else if PB_SIZE_MAX == 0xFFFF then 2 else 4

  datatype LType =
    | Bool | Varint | UVarint | SVarint | Fixed32 | Fixed64
    | Bytes | String | Submessage(fields: seq<Field>) | FixedLengthBytes

  datatype HType = Required | Optional | Repeated | OneOf

  /** One entry of a descriptor array, for a statically allocated field. `init` is the
      default value behind `ptr`; sub-descriptors sit in the logical type. */
  datatype Field = Field(tag: nat, ltype: LType, htype: HType, dataOffset: nat, sizeOffset: int,
                         dataSize: nat, arraySize: nat, init: Option<Value>)

  /** The contents of one data item. */
  datatype Value =
    | Flag(b: bool)
    | Num(n: int)
    | Buf(size: nat, data: bytes)
    | Text(chars: bytes)
    | Raw(raw: bytes)
    | Sub(msg: Msg)

  /** A field's place in the message structure: the data and its has/count member. */
  datatype Slot =
    | Single(v: Value)
    | Opt(has: bool, v: Value)
    | Rep(count: nat, items: seq<Value>)
    | FixedCount(items: seq<Value>)

  /** `which[u]` is the which-member of the union whose first field is number `u`. */
  datatype Msg = Msg(slots: seq<Slot>, which: seq<nat>)

  type Fields = seq<Field>

  predicate Packable(lt: LType) {
    lt.Bool? || lt.Varint? || lt.UVarint? || lt.SVarint? || lt.Fixed32? || lt.Fixed64?
  }

  predicate IsFixedCount(f: Field) {
    f.htype.Repeated? && f.sizeOffset == 0
  }

  predicate IsProto3Singular(f: Field) {
    f.htype.Optional? && f.sizeOffset == 0
  }

  /** Successive members of one union repeat its storage instead of advancing. */
  predicate SameUnion(prev: Field, next: Field) {
    prev.htype.OneOf? && next.htype.OneOf? && next.dataOffset == PB_SIZE_MAX
  }

  function UnionOf(fs: Fields, i: nat): (u: nat)
    requires i < |fs|
    ensures u <= i
  {
    if i > 0 && SameUnion(fs[i - 1], fs[i]) then UnionOf(fs, i - 1) else i
  }

  function Which(fs: Fields, m: Msg, i: nat): nat
    requires i < |fs| == |m.which|
  {
    m.which[UnionOf(fs, i)]
  }

  /** Number of required fields before field `i`. */
  function RequiredBefore(fs: Fields, i: nat): (n: nat)
    requires i <= |fs|
    ensures n <= i
  {
    if i == 0 then 0 else RequiredBefore(fs, i - 1) + (if fs[i - 1].htype.Required? then 1 else 0)
  }

  function IndexOf(fs: Fields, tag: nat): (i: nat)
    ensures i <= |fs|
    ensures i < |fs| ==> fs[i].tag == tag
    ensures forall j | 0 <= j < i :: fs[j].tag != tag
  {
    if fs == [] || fs[0].tag == tag then 0 else 1 + IndexOf(fs[1..], tag)
  }

  /** Addition in `size_t`. */
  function AddSize(a: nat, b: nat): nat {
    if a + b <= SIZE_MAX then a + b else a + b - SIZE_MAX - 1
  }

  function Capacity(size: nat): nat {
    if size < BYTES_OFFSET then 0 else size - BYTES_OFFSET
  }

  function Zeros(n: nat): (s: bytes)
    ensures |s| == n && forall i | 0 <= i < n :: s[i] == 0
  {
    seq(n, _ => 0)
  }

  // ----- well-formed descriptors -----

  ghost predicate FieldOk(f: Field)
    decreases f
  {
    && 1 <= f.tag <= PB_SIZE_MAX && f.tag < 0x2000_0000
    && f.dataSize <= PB_SIZE_MAX
    && f.arraySize <= PB_SIZE_MAX
    && f.dataSize * f.arraySize <= SIZE_MAX
    && (f.htype.OneOf? ==> f.sizeOffset != 0)
    && (f.init.Some? ==> FitsV(f.ltype, f.dataSize, f.init.value) && BoundedV(f.ltype, f.dataSize, f.init.value))
    && match f.ltype
       case Varint => f.dataSize in {1, 2, 4, 8}
       case UVarint => f.dataSize in {1, 2, 4, 8}
       case SVarint => f.dataSize in {1, 2, 4, 8}
       case Fixed32 => f.dataSize == 4
       case Fixed64 => f.dataSize == 8
       case Bytes => f.dataSize >= BYTES_OFFSET
       case String => f.dataSize >= 1
       case Submessage(sub) => SchemaOk(sub)
       case _ => true
  }

  ghost predicate SchemaOk(fs: Fields)
    decreases fs
  {
    && (forall i | 0 <= i < |fs| :: FieldOk(fs[i]))
    && DistinctTags(fs)
  }

  ghost predicate DistinctTags(fs: Fields) {
    forall i, j | 0 <= i < j < |fs| :: fs[i].tag != fs[j].tag
  }

  // ----- storage shape -----

  /** `v` is a content of the storage of one item of type `lt` and `size` bytes. */
  ghost predicate FitsV(lt: LType, size: nat, v: Value)
    decreases lt
  {
    match lt
    case Bool => v.Flag?
    case Varint => v.Num? && (size in {1, 2, 4, 8} ==> 0 - Half(size) <= v.n < Half(size))
    case SVarint => v.Num? && (size in {1, 2, 4, 8} ==> 0 - Half(size) <= v.n < Half(size))
    case UVarint => v.Num? && 0 <= v.n && (size in {1, 2, 4, 8} ==> v.n < 2 * Half(size))
    case Fixed32 => v.Num? && 0 <= v.n < TWO32
    case Fixed64 => v.Num? && 0 <= v.n < TWO64
    case Bytes => v.Buf? && |v.data| == Capacity(size) && v.size <= PB_SIZE_MAX
    case String => v.Text? && |v.chars| == size
    case FixedLengthBytes => v.Raw? && |v.raw| == size
    case Submessage(fs) => v.Sub? && FitsM(fs, v.msg)
  }

  ghost predicate FitsS(f: Field, s: Slot)
    decreases f
  {
    match f.htype
    case Required => s.Single? && FitsV(f.ltype, f.dataSize, s.v)
    case OneOf => s.Single? && FitsV(f.ltype, f.dataSize, s.v)
    case Optional =>
      if f.sizeOffset == 0 then s.Single? && FitsV(f.ltype, f.dataSize, s.v)
      else s.Opt? && FitsV(f.ltype, f.dataSize, s.v)
    case Repeated =>
      && (if f.sizeOffset == 0 then s.FixedCount? else s.Rep?)
      && |s.items| == f.arraySize
      && forall k | 0 <= k < |s.items| :: FitsV(f.ltype, f.dataSize, s.items[k])
  }

  ghost predicate FitsM(fs: Fields, m: Msg)
    decreases fs
  {
    && |m.slots| == |fs| == |m.which|
    && forall i | 0 <= i < |fs| :: FitsS(fs[i], m.slots[i])
  }

  lemma SlotFits(fs: Fields, m: Msg, i: nat)
    requires SchemaOk(fs) && FitsM(fs, m) && i < |fs|
    ensures FieldOk(fs[i]) && FitsS(fs[i], m.slots[i])
  {
  }

  // ----- zeroed storage and default values -----

  function ZeroV(lt: LType, size: nat): Value
    decreases lt
  {
    match lt
    case Bool => Flag(false)
    case Bytes => Buf(0, Zeros(Capacity(size)))
    case String => Text(Zeros(size))
    case FixedLengthBytes => Raw(Zeros(size))
    case Submessage(fs) => Sub(ZeroM(fs))
    case _ => Num(0)
  }

  function ZeroS(f: Field): Slot
    decreases f, 1
  {
    match f.htype
    case Repeated =>
      var items := seq(f.arraySize, _ => ZeroV(f.ltype, f.dataSize));
      if f.sizeOffset == 0 then FixedCount(items) else Rep(0, items)
    case Optional =>
      var v := ZeroV(f.ltype, f.dataSize);
      if f.sizeOffset == 0 then Single(v) else Opt(false, v)
    case _ => Single(ZeroV(f.ltype, f.dataSize))
  }

  function ZeroM(fs: Fields): Msg
    decreases fs
  {
    Msg(seq(|fs|, i requires 0 <= i < |fs| => ZeroS(fs[i])), seq(|fs|, _ => 0))
  }

  /** What the default pass makes of an item that held `v`. */
  function DefaultV(f: Field, v: Value): Value
    decreases f, 0
  {
    match f.ltype
    case Submessage(fs) => if v.Sub? then Sub(DefaultM(fs, v.msg)) else v
    case _ => if f.init.Some? then f.init.value else ZeroV(f.ltype, f.dataSize)
  }

  function DefaultS(f: Field, s: Slot): Slot
    decreases f, 1
  {
    match s
    case Single(v) => if f.htype.OneOf? then s else Single(DefaultV(f, v))
    case Opt(_, v) => Opt(false, DefaultV(f, v))
    case Rep(_, items) => Rep(0, items)
    case FixedCount(_) => s
  }

  function DefaultM(fs: Fields, m: Msg): Msg
    decreases fs
  {
    Msg(seq(|m.slots|, i requires 0 <= i < |m.slots| => if i < |fs| then DefaultS(fs[i], m.slots[i]) else m.slots[i]),
        seq(|m.which|, _ => 0))
  }

  lemma {:induction false} ZeroVFits(lt: LType, size: nat)
    ensures FitsV(lt, size, ZeroV(lt, size))
    decreases lt
  {
    match lt
    case Submessage(fs) => ZeroMFits(fs);
    case _ =>
  }

  lemma {:induction false} ZeroMFits(fs: Fields)
    ensures FitsM(fs, ZeroM(fs))
    decreases fs
  {
    forall i | 0 <= i < |fs|
      ensures FitsS(fs[i], ZeroS(fs[i]))
    {
      ZeroSFits(fs[i]);
    }
  }

  lemma {:induction false} ZeroSFits(f: Field)
    ensures FitsS(f, ZeroS(f))
    decreases f
  {
    ZeroVFits(f.ltype, f.dataSize);
  }

  lemma {:induction false} DefaultSFits(f: Field, s: Slot)
    requires FieldOk(f) && FitsS(f, s)
    ensures FitsS(f, DefaultS(f, s))
    decreases f
  {
    if s.Single? || s.Opt? {
      match f.ltype
      case Submessage(fs) => DefaultMFits(fs, s.v.msg);
      case _ => ZeroVFits(f.ltype, f.dataSize);
    }
  }

  lemma {:induction false} DefaultMFits(fs: Fields, m: Msg)
    requires SchemaOk(fs) && FitsM(fs, m)
    ensures FitsM(fs, DefaultM(fs, m))
    decreases fs
  {
    forall i | 0 <= i < |fs|
      ensures FitsS(fs[i], DefaultS(fs[i], m.slots[i]))
    {
      DefaultSFits(fs[i], m.slots[i]);
    }
  }

  // ----- the proto3 presence rule -----

  function StrLen(chars: bytes): (n: nat)
    ensures n <= |chars|
    ensures n < |chars| ==> chars[n] == 0
    ensures forall i | 0 <= i < n :: chars[i] != 0
  {
    if chars == [] || chars[0] == 0 then 0 else 1 + StrLen(chars[1..])
  }

  /** A singular item counts as absent in proto3. */
  predicate IsZeroV(lt: LType, size: nat, v: Value)
    requires FitsV(lt, size, v)
    decreases lt
  {
    match lt
    case Bool => !v.b
    case Bytes => v.size == 0
    case String => StrLen(v.chars) == 0
    case FixedLengthBytes => size == 0
    case Submessage(fs) => IsZeroM(fs, v.msg)
    case _ => v.n == 0
  }

  predicate IsZeroM(fs: Fields, m: Msg)
    requires FitsM(fs, m)
    decreases fs
  {
    forall i | 0 <= i < |fs| :: IsZeroS(fs[i], m.slots[i], Which(fs, m, i))
  }

  predicate IsZeroS(f: Field, s: Slot, which: nat)
    requires FitsS(f, s)
    decreases f
  {
    match f.htype
    case Required => false
    case Repeated => s.Rep? && s.count == 0
    case OneOf => which == 0
    case Optional => if s.Opt? then !s.has else IsZeroV(f.ltype, f.dataSize, s.v)
  }

  // ----- messages within their bounds -----

  /** The item is initialised within its bounds: sizes fit and strings end in NUL. */
  ghost predicate BoundedV(lt: LType, size: nat, v: Value)
    requires FitsV(lt, size, v)
    decreases lt
  {
    match lt
    case Bytes => v.size <= |v.data|
    case String => StrLen(v.chars) < size
    case Submessage(fs) => BoundedM(fs, v.msg)
    case _ => true
  }

  ghost predicate BoundedS(f: Field, s: Slot, which: nat)
    requires FitsS(f, s)
    decreases f
  {
    match f.htype
    case Required => BoundedV(f.ltype, f.dataSize, s.v)
    case Optional => (s.Opt? && !s.has) || BoundedV(f.ltype, f.dataSize, s.v)
    case OneOf => which == f.tag ==> BoundedV(f.ltype, f.dataSize, s.v)
    case Repeated =>
      var n := if s.Rep? then s.count else f.arraySize;
      n <= f.arraySize && forall k | 0 <= k < n :: BoundedV(f.ltype, f.dataSize, s.items[k])
  }

  /** What the library asks of a message: every count is at most its array size, and all
      data that is present is within its bounds. Absent data is not constrained. */
  ghost predicate BoundedM(fs: Fields, m: Msg)
    requires FitsM(fs, m)
    decreases fs
  {
    forall i | 0 <= i < |fs| :: BoundedS(fs[i], m.slots[i], Which(fs, m, i)) && WhichOk(fs, m, i)
  }

  /** A which-member is 0 or the tag of a member of its union. */
  ghost predicate WhichOk(fs: Fields, m: Msg, i: nat)
    requires i < |fs| == |m.which|
  {
    fs[i].htype.OneOf? && Which(fs, m, i) != 0 ==>
      exists j | 0 <= j < |fs| :: fs[j].htype.OneOf? && UnionOf(fs, j) == UnionOf(fs, i) && fs[j].tag == Which(fs, m, i)
  }

  // ----- equality as far as a reader of the message can tell -----

  /** Same value, up to the bytes behind a string's NUL and behind a bytes field's size. */
  ghost predicate SameV(lt: LType, size: nat, a: Value, b: Value)
    requires FitsV(lt, size, a) && FitsV(lt, size, b)
    decreases lt
  {
    match lt
    case Bytes => a.size == b.size && (a.size <= |a.data| ==> a.data[..a.size] == b.data[..b.size])
    case String => StrLen(a.chars) == StrLen(b.chars) && a.chars[..StrLen(a.chars)] == b.chars[..StrLen(b.chars)]
    case Submessage(fs) => SameM(fs, a.msg, b.msg)
    case _ => a == b
  }

  ghost predicate SameS(f: Field, a: Slot, wa: nat, b: Slot, wb: nat)
    requires FitsS(f, a) && FitsS(f, b)
    decreases f
  {
    match f.htype
    case Required => SameV(f.ltype, f.dataSize, a.v, b.v)
    case Optional =>
      if a.Opt? then a.has == b.has && (a.has ==> SameV(f.ltype, f.dataSize, a.v, b.v))
      else SameV(f.ltype, f.dataSize, a.v, b.v)
    case OneOf => wa == wb && (wa == f.tag ==> SameV(f.ltype, f.dataSize, a.v, b.v))
    case Repeated =>
      && (a.Rep? ==> a.count == b.count)
      && forall k | 0 <= k < |a.items| && (a.Rep? ==> k < a.count) :: SameV(f.ltype, f.dataSize, a.items[k], b.items[k])
  }

  /** Same message, up to absent optional fields, unused array slots, inactive union
      members and the bytes that `SameV` ignores. */
  ghost predicate SameM(fs: Fields, a: Msg, b: Msg)
    requires FitsM(fs, a) && FitsM(fs, b)
    decreases fs
  {
    forall i | 0 <= i < |fs| :: SameS(fs[i], a.slots[i], Which(fs, a, i), b.slots[i], Which(fs, b, i))
  }
}
