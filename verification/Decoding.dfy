/** What the decoder is to do: a function from the message so far and the bytes that
    are left to the message after and the bytes behind. `Fail` is a decoder error. */
module Decoding {
  import opened Options
  import opened Wire
  import opened Schema

  /** Number of required fields whose presence is tracked. */
  const MAX_REQUIRED_FIELDS := 64

  /** State of the field loop: the message, the required fields seen, and the fixed-count
      array that is being received with the number of items it has so far. */
  datatype Progress = Progress(msg: Msg, seen: set<nat>, fixed: Option<nat>, fixedSize: nat)

  function Start(m: Msg): Progress {
    Progress(m, {}, None, 0)
  }

  ghost predicate FitsP(fs: Fields, st: Progress) {
    && FitsM(fs, st.msg)
    && (st.fixed.Some? ==>
          st.fixed.value < |fs| && IsFixedCount(fs[st.fixed.value]) && st.fixedSize <= fs[st.fixed.value].arraySize)
  }

  /** The fixed-count array in progress, if any, has all its items. */
  predicate FixedComplete(fs: Fields, st: Progress) {
    st.fixed.Some? && st.fixed.value < |fs| ==> st.fixedSize == fs[st.fixed.value].arraySize
  }

  predicate Tracked(fs: Fields, i: nat)
    requires i < |fs|
  {
    fs[i].htype.Required? && RequiredBefore(fs, i) < MAX_REQUIRED_FIELDS
  }

  /** The final acceptance test. */
  predicate Accept(fs: Fields, st: Progress) {
    FixedComplete(fs, st) && forall i | 0 <= i < |fs| :: Tracked(fs, i) ==> i in st.seen
  }

  function DecInt(f: Field, s: bytes): (p: Parsed<Value>)
    requires FieldOk(f) && (f.ltype.Varint? || f.ltype.UVarint? || f.ltype.SVarint?)
    ensures p.Got? ==> FitsV(f.ltype, f.dataSize, p.value) && |p.rest| < |s|
  {
    match Varint64(s)
    case Fail => Fail
    case Got(v, rest) =>
      if f.dataSize !in {1, 2, 4, 8} then Fail
      else
        var exact :=
          if f.ltype.UVarint? then v
          else if f.ltype.SVarint? then Unzigzag(v)
          else ToSigned(v, if f.dataSize == 8 then 8 else 4);
        var stored := if f.ltype.UVarint? then ToUnsigned(exact, f.dataSize) else ToSigned(exact, f.dataSize);
        if stored != exact then Fail else Got(Num(stored), rest)
  }

  function DecBytes(f: Field, was: Value, s: bytes): (p: Parsed<Value>)
    requires FieldOk(f) && f.ltype.Bytes? && FitsV(f.ltype, f.dataSize, was)
    ensures p.Got? ==> FitsV(f.ltype, f.dataSize, p.value) && |p.rest| < |s|
  {
    match Varint32(s)
    case Fail => Fail
    case Got(n, rest) =>
      var alloc := AddSize(n, BYTES_OFFSET);
      if n > PB_SIZE_MAX || n > alloc || alloc > f.dataSize || |rest| < n then Fail
      else Got(Buf(n, rest[..n] + was.data[n..]), rest[n..])
  }

  function DecString(f: Field, was: Value, s: bytes): (p: Parsed<Value>)
    requires FieldOk(f) && f.ltype.String? && FitsV(f.ltype, f.dataSize, was)
    ensures p.Got? ==> FitsV(f.ltype, f.dataSize, p.value) && |p.rest| < |s|
  {
    match Varint32(s)
    case Fail => Fail
    case Got(n, rest) =>
      var alloc := (n + 1) % TWO32;
      if alloc < n || alloc > f.dataSize || |rest| < n then Fail
      else Got(Text(rest[..n] + [0] + was.chars[n + 1..]), rest[n..])
  }

  function DecFixedLength(f: Field, s: bytes): (p: Parsed<Value>)
    requires f.ltype.FixedLengthBytes?
    ensures p.Got? ==> FitsV(f.ltype, f.dataSize, p.value) && |p.rest| < |s|
  {
    match Varint32(s)
    case Fail => Fail
    case Got(n, rest) =>
      if n > PB_SIZE_MAX then Fail
      else if n == 0 then Got(Raw(Zeros(f.dataSize)), rest)
      else if n != f.dataSize || |rest| < n then Fail
      else Got(Raw(rest[..n]), rest[n..])
  }

  /** One data item; `was` is what its storage held. */
  function DecV(f: Field, was: Value, s: bytes): (p: Parsed<Value>)
    requires FieldOk(f) && FitsV(f.ltype, f.dataSize, was)
    ensures p.Got? ==> FitsV(f.ltype, f.dataSize, p.value) && |p.rest| < |s|
    decreases |s|, 0
  {
    match f.ltype
    case Bool =>
      (match Varint32(s)
       case Fail => Fail
       case Got(v, rest) => Got(Flag(v != 0), rest))
    case Fixed32 => if |s| < 4 then Fail else Got(Num(ReadWord(s[..4])), s[4..])
    case Fixed64 => if |s| < 8 then Fail else Got(Num(ReadWord(s[..8])), s[8..])
    case Bytes => DecBytes(f, was, s)
    case String => DecString(f, was, s)
    case FixedLengthBytes => DecFixedLength(f, s)
    case Submessage(fs) =>
      (match Delimited(s)
       case Fail => Fail
       case Got(d, rest) =>
         DefaultMFits(fs, was.msg);
         match DecM(fs, if f.htype.Repeated? then DefaultM(fs, was.msg) else was.msg, d)
         case Fail => Fail
         case Got(m, _) => Got(Sub(m), rest))
    case _ => DecInt(f, s)
  }

  /** The items of a packed run, into an array that already has `count` items. */
  function DecPacked(f: Field, items: seq<Value>, count: nat, s: bytes): (p: Parsed<(seq<Value>, nat)>)
    requires FieldOk(f) && |items| == f.arraySize
    requires forall k | 0 <= k < |items| :: FitsV(f.ltype, f.dataSize, items[k])
    ensures p.Got? ==> FitsItems(f, p.value.0) && count <= p.value.1 && |p.rest| <= |s|
    ensures p.Got? && count <= f.arraySize ==> p.value.1 <= f.arraySize
    decreases |s|, 1
  {
    if s == [] || count >= f.arraySize then Got((items, count), s)
    else
      match DecV(f, items[count], s)
      case Fail => Fail
      case Got(v, rest) => DecPacked(f, items[count := v], count + 1, rest)
  }

  ghost predicate FitsItems(f: Field, items: seq<Value>) {
    |items| == f.arraySize && forall k | 0 <= k < |items| :: FitsV(f.ltype, f.dataSize, items[k])
  }

  /** One record of an array field: a packed run or a single item. */
  function DecArray(f: Field, items: seq<Value>, count: nat, wt: WireType, s: bytes): (p: Parsed<(seq<Value>, nat)>)
    requires FieldOk(f) && |items| == f.arraySize
    requires forall k | 0 <= k < |items| :: FitsV(f.ltype, f.dataSize, items[k])
    ensures p.Got? ==> FitsItems(f, p.value.0) && count <= p.value.1 && |p.rest| < |s|
    ensures p.Got? && count <= f.arraySize ==> p.value.1 <= f.arraySize
    decreases |s|, 2
  {
    if wt == WtString && Packable(f.ltype) then
      match Delimited(s)
      case Fail => Fail
      case Got(d, rest) =>
        var q := DecPacked(f, items, count, d);
        if q.Got? && q.rest == [] then Got(q.value, rest) else Fail
    else if count >= f.arraySize then Fail
    else
      match DecV(f, items[count], s)
      case Fail => Fail
      case Got(v, rest) => Got((items[count := v], count + 1), rest)
  }

  /** A fixed-count array becomes the one in progress; an unfinished other one is an error. */
  function EnterFixed(fs: Fields, st: Progress, i: nat): Option<Progress> {
    if st.fixed == Some(i) then Some(st)
    else if !FixedComplete(fs, st) then None
    else Some(st.(fixed := Some(i), fixedSize := 0))
  }

  function WithSlot(st: Progress, i: nat, s: Slot): Progress
    requires i < |st.msg.slots|
  {
    st.(msg := st.msg.(slots := st.msg.slots[i := s]))
  }

  /** The storage of a union member when its record arrives: kept if the member is
      active or not a submessage, else a freshly initialised submessage. */
  function UnionBase(f: Field, v: Value, which: nat): Value {
    if f.ltype.Submessage? && which != f.tag then
      Sub(DefaultM(f.ltype.fields, ZeroM(f.ltype.fields)))
    else v
  }

  lemma UnionBaseFits(f: Field, v: Value, which: nat)
    requires FieldOk(f) && FitsV(f.ltype, f.dataSize, v)
    ensures FitsV(f.ltype, f.dataSize, UnionBase(f, v, which))
  {
    if f.ltype.Submessage? {
      ZeroMFits(f.ltype.fields);
      DefaultMFits(f.ltype.fields, ZeroM(f.ltype.fields));
    }
  }

  /** One record of field `i`, from behind its tag. */
  function DecField(fs: Fields, st: Progress, i: nat, wt: WireType, s: bytes): (p: Parsed<Progress>)
    requires SchemaOk(fs) && FitsP(fs, st) && i < |fs|
    ensures p.Got? ==> FitsP(fs, p.value) && |p.rest| < |s|
    decreases |s|, 3
  {
    SlotFits(fs, st.msg, i);
    var f, slot := fs[i], st.msg.slots[i];
    match f.htype
    case Required =>
      (match DecV(f, slot.v, s)
       case Fail => Fail
       case Got(v, rest) =>
         Got(WithSlot(st, i, Single(v)).(seen := if Tracked(fs, i) then st.seen + {i} else st.seen), rest))
    case Optional =>
      (match DecV(f, slot.v, s)
       case Fail => Fail
       case Got(v, rest) => Got(WithSlot(st, i, if f.sizeOffset == 0 then Single(v) else Opt(true, v)), rest))
    case OneOf =>
      UnionBaseFits(f, slot.v, Which(fs, st.msg, i));
      (match DecV(f, UnionBase(f, slot.v, Which(fs, st.msg, i)), s)
       case Fail => Fail
       case Got(v, rest) =>
         var m := Msg(st.msg.slots[i := Single(v)], st.msg.which[UnionOf(fs, i) := f.tag]);
         Got(st.(msg := m), rest))
    case Repeated =>
      if f.sizeOffset == 0 then
        match EnterFixed(fs, st, i)
        case None => Fail
        case Some(st1) =>
          match DecArray(f, slot.items, st1.fixedSize, wt, s)
          case Fail => Fail
          case Got((items, n), rest) => Got(WithSlot(st1, i, FixedCount(items)).(fixedSize := n), rest)
      else
        match DecArray(f, slot.items, slot.count, wt, s)
        case Fail => Fail
        case Got((items, n), rest) => Got(WithSlot(st, i, Rep(n, items)), rest)
  }

  /** One record, from behind its tag. An empty message type takes a record with field
      number 0 for its own terminator, which reads as a required bool without storage. */
  function Dispatch(fs: Fields, st: Progress, tag: nat, wt: WireType, s: bytes): (p: Parsed<Progress>)
    requires SchemaOk(fs) && FitsP(fs, st)
    ensures p.Got? ==> FitsP(fs, p.value) && |p.rest| < |s|
    decreases |s|, 4
  {
    var i := IndexOf(fs, tag);
    if i < |fs| then DecField(fs, st, i, wt, s)
    else if fs == [] && tag == 0 then
      match Varint32(s)
      case Fail => Fail
      case Got(_, rest) => Got(st, rest)
    else
      match SkipField(wt, s)
      case Fail => Fail
      case Got(_, rest) => Got(st, rest)
  }

  /** The field loop, to the end of the stream or a zero tag. */
  function Loop(fs: Fields, st: Progress, s: bytes): (p: Parsed<Progress>)
    requires SchemaOk(fs) && FitsP(fs, st)
    ensures p.Got? ==> FitsP(fs, p.value) && |p.rest| <= |s|
    decreases |s|, 5
  {
    if s == [] then Got(st, s)
    else
      match ReadHeader(s)
      case BadHeader => Fail
      case EndOfMessage(rest) => Got(st, rest)
      case FieldHeader(tag, wt, rest) =>
        match Dispatch(fs, st, tag, wt, rest)
        case Fail => Fail
        case Got(st', rest') => Loop(fs, st', rest')
  }

  /** Decoding on top of an initialised message. */
  function DecM(fs: Fields, m: Msg, s: bytes): (p: Parsed<Msg>)
    requires SchemaOk(fs) && FitsM(fs, m)
    ensures p.Got? ==> FitsM(fs, p.value) && |p.rest| <= |s|
    decreases |s|, 6
  {
    match Loop(fs, Start(m), s)
    case Fail => Fail
    case Got(st, rest) => if Accept(fs, st) then Got(st.msg, rest) else Fail
  }
}
