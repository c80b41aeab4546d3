/** The memory that the default pass writes, and the memory it is there to write. */
module DefaultPass {
  import opened Options
  import opened Wire
  import opened Schema
  import opened Decoding
  import opened Iterator
  import Framing

  const SIZEOF_BOOL: nat := 1
  const SIZEOF_PB_SIZE: nat := BYTES_OFFSET

  /** A run of bytes: one that is written, or the place of a member of the structure. */
  datatype Region = Region(address: int, length: nat)

  predicate Inside(w: Region, home: Region) {
    home.address <= w.address && w.address + w.length <= home.address + home.length
  }

  // ----- the writes -----

  /** Setting the data of field f at address `data`. */
  function DataWrites(f: Field, data: int): seq<Region>
    decreases f, 0
  {
    match f.ltype
    case Submessage(fs) => DefaultWrites(fs, data)
    case _ => [Region(data, f.dataSize)]
  }

  /** Setting a has-flag, or a count or which-member, and the data where it is initialised. */
  function FieldWrites(f: Field, data: int, size: int): seq<Region>
    decreases f, 1
  {
    match f.htype
    case Required => DataWrites(f, data)
    case Optional => (if size != data then [Region(size, SIZEOF_BOOL)] else []) + DataWrites(f, data)
    case OneOf => [Region(size, SIZEOF_PB_SIZE)]
    case Repeated => [Region(size, SIZEOF_PB_SIZE)]
  }

  function WritesTo(fs: Fields, base: int, n: nat): seq<Region>
    requires n <= |fs|
    decreases fs, 0, n
  {
    if n == 0 then []
    else WritesTo(fs, base, n - 1) + FieldWrites(fs[n - 1], DataAt(fs, base, n - 1), SizeAt(fs, base, n - 1))
  }

  /** All writes to a structure at address `base`, in order. */
  function DefaultWrites(fs: Fields, base: int): seq<Region>
    decreases fs, 1
  {
    WritesTo(fs, base, |fs|)
  }

  // ----- the places of the members -----

  /** How the compiler lays a structure out: where each field's data is and where its has,
      count or which member, and the layouts of its submessages. */
  datatype Layout = Layout(place: seq<Placement>, off: seq<nat>, sizeOff: seq<int>, sub: seq<Layout>)

  /** The descriptors describe that layout, at every depth, and the which-members of
      different unions are at different addresses. */
  ghost predicate LayoutOk(fs: Fields, l: Layout)
    decreases fs
  {
    && StructLayout(fs, l.place, l.off) && DeltaCoded(fs, l.place, l.off)
    && SizeCoded(fs, l.place, l.off, l.sizeOff)
    && (forall i | 0 < i < |fs| && l.place[i].Other? && fs[i - 1].htype.OneOf? && fs[i].htype.OneOf? ::
          l.sizeOff[i] != l.sizeOff[i - 1])
    && |l.sub| == |fs|
    && (forall i | 0 <= i < |fs| :: LayoutOkIn(fs[i], l.sub[i]))
  }

  ghost predicate LayoutOkIn(f: Field, l: Layout)
    decreases f
  {
    f.ltype.Submessage? ==> LayoutOk(f.ltype.fields, l)
  }

  /** The member that each data write is there to set, in the order of the writes. */
  ghost function DataHomes(f: Field, l: Layout, data: int): seq<Region>
    requires LayoutOkIn(f, l)
    decreases f, 0
  {
    match f.ltype
    case Submessage(fs) => Homes(fs, l, data)
    case _ => [Region(data, f.dataSize)]
  }

  /** A count for an array without a count member can only go into the array. */
  ghost function FieldHomes(f: Field, l: Layout, data: int, size: int): seq<Region>
    requires LayoutOkIn(f, l)
    decreases f, 1
  {
    match f.htype
    case Required => DataHomes(f, l, data)
    case Optional => (if f.sizeOffset != 0 then [Region(size, SIZEOF_BOOL)] else []) + DataHomes(f, l, data)
    case OneOf => [Region(size, SIZEOF_PB_SIZE)]
    case Repeated => if f.sizeOffset != 0 then [Region(size, SIZEOF_PB_SIZE)] else [Region(data, StorageSize(f))]
  }

  ghost function HomesTo(fs: Fields, l: Layout, base: int, n: nat): seq<Region>
    requires n <= |fs| && LayoutOk(fs, l)
    decreases fs, 0, n
  {
    if n == 0 then []
    else HomesTo(fs, l, base, n - 1)
         + FieldHomes(fs[n - 1], l.sub[n - 1], base + l.off[n - 1], base + l.sizeOff[n - 1])
  }

  /** The members of a structure at address `base` that the pass sets, by their true offsets. */
  ghost function Homes(fs: Fields, l: Layout, base: int): seq<Region>
    requires LayoutOk(fs, l)
    decreases fs, 1
  {
    HomesTo(fs, l, base, |fs|)
  }

  /** Every write stays inside the member that it is there to set. */
  ghost predicate AllInside(ws: seq<Region>, homes: seq<Region>) {
    |ws| == |homes| && forall i | 0 <= i < |ws| :: Inside(ws[i], homes[i])
  }

  // ----- when the writes meet their members -----

  /** The pass goes on into the field's own fields. */
  predicate Entered(f: Field) {
    f.ltype.Submessage? && (f.htype.Required? || f.htype.Optional?)
  }

  /** Every fixed-count array that the pass comes to, at any depth, has room for a count. */
  ghost predicate RoomForCounts(fs: Fields)
    decreases fs
  {
    forall i | 0 <= i < |fs| :: RoomForCountsIn(fs[i])
  }

  ghost predicate RoomForCountsIn(f: Field)
    decreases f
  {
    && (IsFixedCount(f) ==> SIZEOF_PB_SIZE <= f.dataSize * f.arraySize)
    && (Entered(f) ==> RoomForCounts(f.ltype.fields))
  }

  /** No two unions that the pass comes to, at any depth, are taken for one. */
  ghost predicate NoCollisions(fs: Fields, l: Layout)
    requires LayoutOk(fs, l)
    decreases fs
  {
    forall i | 0 <= i < |fs| :: !MarkerCollision(fs, l.place, i) && NoCollisionsIn(fs[i], l.sub[i])
  }

  ghost predicate NoCollisionsIn(f: Field, l: Layout)
    requires LayoutOkIn(f, l)
    decreases f
  {
    Entered(f) ==> NoCollisions(f.ltype.fields, l)
  }

  /** Both conditions for field i alone. */
  ghost predicate Met(fs: Fields, l: Layout, i: nat)
    requires LayoutOk(fs, l) && i < |fs|
  {
    !MarkerCollision(fs, l.place, i) && RoomForCountsIn(fs[i]) && NoCollisionsIn(fs[i], l.sub[i])
  }

  lemma InsideConcat(a: seq<Region>, b: seq<Region>, ha: seq<Region>, hb: seq<Region>)
    requires |a| == |ha|
    ensures AllInside(a + b, ha + hb) <==> AllInside(a, ha) && AllInside(b, hb)
  {
    if AllInside(a + b, ha + hb) {
      forall i | 0 <= i < |a| ensures Inside(a[i], ha[i]) { assert (a + b)[i] == a[i] && (ha + hb)[i] == ha[i]; }
      forall i | 0 <= i < |b| ensures Inside(b[i], hb[i]) { assert (a + b)[|a| + i] == b[i] && (ha + hb)[|a| + i] == hb[i]; }
    }
  }

  /** There is one home for each write, whatever the addresses. */
  lemma {:induction false} OneHomeEachData(f: Field, l: Layout, data: int, data': int)
    requires LayoutOkIn(f, l)
    ensures |DataWrites(f, data)| == |DataHomes(f, l, data')|
    decreases f, 0
  {
    if f.ltype.Submessage? {
      OneHomeEach(f.ltype.fields, l, data, data', |f.ltype.fields|);
    }
  }

  lemma {:induction false} OneHomeEachField(f: Field, l: Layout, data: int, size: int, data': int, size': int)
    requires LayoutOkIn(f, l)
    requires f.htype.Optional? ==> size == data + f.sizeOffset
    ensures |FieldWrites(f, data, size)| == |FieldHomes(f, l, data', size')|
    decreases f, 1
  {
    hide DataWrites, DataHomes, LayoutOk;
    OneHomeEachData(f, l, data, data');
  }

  lemma {:induction false} OneHomeEach(fs: Fields, l: Layout, base: int, base': int, n: nat)
    requires LayoutOk(fs, l) && n <= |fs|
    ensures |WritesTo(fs, base, n)| == |HomesTo(fs, l, base', n)|
    decreases fs, 0, n
  {
    hide FieldWrites, FieldHomes, DeltaCoded, LayoutOkIn;
    if n > 0 {
      var i := n - 1;
      OneHomeEach(fs, l, base, base', i);
      OneHomeEachField(fs[i], l.sub[i], DataAt(fs, base, i), SizeAt(fs, base, i), base' + l.off[i], base' + l.sizeOff[i]);
    }
  }

  lemma {:induction false} DataInside(f: Field, l: Layout, data: int)
    requires FieldOk(f) && LayoutOkIn(f, l)
    ensures AllInside(DataWrites(f, data), DataHomes(f, l, data)) <==>
            (f.ltype.Submessage? ==> RoomForCounts(f.ltype.fields) && NoCollisions(f.ltype.fields, l))
    decreases f, 0
  {
    if f.ltype.Submessage? {
      WritesInside(f.ltype.fields, l, data);
    }
  }

  /** At the true addresses only a fixed-count array, or a field further down, can go wrong. */
  lemma {:induction false} FieldInside(f: Field, l: Layout, data: int, size: int)
    requires FieldOk(f) && LayoutOkIn(f, l)
    requires f.htype.Repeated? || f.htype.Optional? ==> size == data + f.sizeOffset
    ensures AllInside(FieldWrites(f, data, size), FieldHomes(f, l, data, size)) <==> RoomForCountsIn(f) && NoCollisionsIn(f, l)
    decreases f, 1
  {
    hide FieldOk, DataWrites, DataHomes, LayoutOk, NoCollisions, RoomForCounts;
    if f.htype.Required? {
      DataInside(f, l, data);
    } else if f.htype.Optional? {
      var flag := if f.sizeOffset != 0 then [Region(size, SIZEOF_BOOL)] else [];
      DataInside(f, l, data);
      InsideConcat(flag, DataWrites(f, data), flag, DataHomes(f, l, data));
    } else {
      OneInside(FieldWrites(f, data, size)[0], FieldHomes(f, l, data, size)[0]);
    }
  }

  lemma OneInside(w: Region, home: Region)
    ensures AllInside([w], [home]) <==> Inside(w, home)
  {
    assert [w][0] == w && [home][0] == home;
  }

  /** The first field at which unions collide sets the which-member of the wrong union. */
  lemma CollisionMisses(fs: Fields, l: Layout, base: int, i: nat)
    requires SchemaOk(fs) && LayoutOk(fs, l) && i < |fs| && MarkerCollision(fs, l.place, i)
    requires forall j | 0 <= j < i :: !MarkerCollision(fs, l.place, j)
    ensures fs[i].htype.OneOf? && SizeAt(fs, base, i) == base + l.sizeOff[i - 1] != base + l.sizeOff[i]
  {
    hide SchemaOk, LayoutOkIn, StructLayout, DeltaCoded, SizeCoded;
    SizeAtOffset(fs, l.place, l.off, l.sizeOff, base, i - 1);
  }

  lemma AddressesRight(fs: Fields, l: Layout, base: int, i: nat)
    requires LayoutOk(fs, l) && i < |fs| && forall j | 0 <= j <= i :: !MarkerCollision(fs, l.place, j)
    ensures DataAt(fs, base, i) == base + l.off[i] && SizeAt(fs, base, i) == base + l.sizeOff[i]
    ensures base + l.sizeOff[i] == base + l.off[i] + fs[i].sizeOffset
  {
    hide LayoutOkIn;
    DataAtOffset(fs, l.place, l.off, base, i);
    SizeAtOffset(fs, l.place, l.off, l.sizeOff, base, i);
  }

  /** The writes of field i, when those before it met their members. */
  lemma {:induction false} OneMore(fs: Fields, l: Layout, base: int, i: nat)
    requires SchemaOk(fs) && LayoutOk(fs, l) && i < |fs| && forall j | 0 <= j < i :: !MarkerCollision(fs, l.place, j)
    requires FieldOk(fs[i]) && LayoutOkIn(fs[i], l.sub[i])
    ensures Met(fs, l, i) <==> AllInside(FieldWrites(fs[i], DataAt(fs, base, i), SizeAt(fs, base, i)),
                                         FieldHomes(fs[i], l.sub[i], base + l.off[i], base + l.sizeOff[i]))
    decreases fs[i], 2
  {
    hide FieldOk, LayoutOkIn, DataAt, SizeAt, SchemaOk, RoomForCountsIn, NoCollisionsIn, DeltaCoded;
    var f, data, size := fs[i], base + l.off[i], base + l.sizeOff[i];
    if MarkerCollision(fs, l.place, i) {
      CollisionMisses(fs, l, base, i);
      OneInside(Region(SizeAt(fs, base, i), SIZEOF_PB_SIZE), Region(size, SIZEOF_PB_SIZE));
    } else {
      AddressesRight(fs, l, base, i);
      FieldInside(f, l.sub[i], data, size);
    }
  }

  lemma LayoutAt(fs: Fields, l: Layout, i: nat)
    requires LayoutOk(fs, l) && i < |fs|
    ensures |l.place| == |l.off| == |l.sizeOff| == |l.sub| == |fs| && LayoutOkIn(fs[i], l.sub[i])
  {
    hide DeltaCoded, LayoutOkIn;
  }

  /** No writes yet. */
  lemma NothingWritten(fs: Fields, l: Layout, base: int)
    requires LayoutOk(fs, l)
    ensures AllInside(WritesTo(fs, base, 0), HomesTo(fs, l, base, 0))
  {
    hide LayoutOk;
  }

  lemma {:induction false} WritesToInside(fs: Fields, l: Layout, base: int, n: nat)
    requires SchemaOk(fs) && LayoutOk(fs, l) && n <= |fs|
    ensures AllInside(WritesTo(fs, base, n), HomesTo(fs, l, base, n)) <==> forall i | 0 <= i < n :: Met(fs, l, i)
    decreases fs, 0, n
  {
    hide FieldWrites, FieldHomes, AllInside, FieldOk, MarkerCollision, DataAt, SizeAt, RoomForCountsIn, NoCollisionsIn, LayoutOk;
    if n > 0 {
      var i := n - 1;
      LayoutAt(fs, l, i);
      assert FieldOk(fs[i]);
      WritesToInside(fs, l, base, i);
      OneHomeEach(fs, l, base, base, i);
      InsideConcat(WritesTo(fs, base, i), FieldWrites(fs[i], DataAt(fs, base, i), SizeAt(fs, base, i)),
                   HomesTo(fs, l, base, i), FieldHomes(fs[i], l.sub[i], base + l.off[i], base + l.sizeOff[i]));
      if forall j | 0 <= j < i :: Met(fs, l, j) {
        forall j | 0 <= j < i ensures |l.place| == |fs| && !MarkerCollision(fs, l.place, j) { assert Met(fs, l, j); }
        OneMore(fs, l, base, i);
      }
    } else {
      NothingWritten(fs, l, base);
    }
  }

  /** The default pass stays inside the members that it is there to set, at any depth,
      exactly if every fixed-count array it comes to is at least as large as a `pb_size_t`
      and no two unions it comes to are taken for one. */
  lemma {:induction false} WritesInside(fs: Fields, l: Layout, base: int)
    requires SchemaOk(fs) && LayoutOk(fs, l)
    ensures AllInside(DefaultWrites(fs, base), Homes(fs, l, base)) <==> RoomForCounts(fs) && NoCollisions(fs, l)
    decreases fs, 1
  {
    hide WritesTo, HomesTo, MarkerCollision;
    WritesToInside(fs, l, base, |fs|);
    MetEverywhere(fs, l);
  }

  lemma MetEverywhere(fs: Fields, l: Layout)
    requires LayoutOk(fs, l)
    ensures (forall i | 0 <= i < |fs| :: Met(fs, l, i)) <==> RoomForCounts(fs) && NoCollisions(fs, l)
  {
    hide DeltaCoded, MarkerCollision, RoomForCountsIn, NoCollisionsIn, LayoutOkIn;
    if forall i | 0 <= i < |fs| :: Met(fs, l, i) {
      forall i | 0 <= i < |fs|
        ensures RoomForCountsIn(fs[i]) && !MarkerCollision(fs, l.place, i) && NoCollisionsIn(fs[i], l.sub[i])
      {
        assert Met(fs, l, i);
      }
    }
  }

  /** A count spills: an array of two bools where `pb_size_t` has four bytes. */
  lemma CountSpills(base: int)
    requires PB_SIZE_MAX == 0xFFFF_FFFF
    ensures var fs := [Field(1, Bool, Repeated, 0, 0, 1, 2, None)];
            var l := Layout([First], [0], [0], [Leaf]);
            && SchemaOk(fs) && LayoutOk(fs, l) && NoCollisions(fs, l)
            && DefaultWrites(fs, base) == [Region(base, 4)] && Homes(fs, l, base) == [Region(base, 2)]
  {
    var f := Field(1, Bool, Repeated, 0, 0, 1, 2, None);
    var fs, l := [f], Layout([First], [0], [0], [Leaf]);
    assert FieldOk(f) && fs[0] == f;
    assert StructLayout(fs, l.place, l.off) && DeltaCoded(fs, l.place, l.off) && SizeCoded(fs, l.place, l.off, l.sizeOff);
    assert LayoutOk(fs, l);
    assert DefaultWrites(fs, base) == WritesTo(fs, base, 0) + FieldWrites(f, base, base);
    assert Homes(fs, l, base) == HomesTo(fs, l, base, 0) + FieldHomes(f, l.sub[0], base, base);
  }

  /** Two unions are taken for one, though there is room for every count: the which-member
      of the second is not set. */
  lemma UnionMissed(base: int)
    requires PB_SIZE_MAX == 0xFF
    ensures var l := Layout(CollidingPlaces, CollidingOffsets, [0, 0, 256], [Leaf, Leaf, Leaf]);
            && SchemaOk(Colliding) && LayoutOk(Colliding, l) && RoomForCounts(Colliding) && !NoCollisions(Colliding, l)
            && !AllInside(DefaultWrites(Colliding, base), Homes(Colliding, l, base))
  {
    hide StructLayout, DeltaCoded, SchemaOk;
    var l := Layout(CollidingPlaces, CollidingOffsets, [0, 0, 256], [Leaf, Leaf, Leaf]);
    CollidingOk();
    CollidingLayout();
    assert SizeCoded(Colliding, l.place, l.off, l.sizeOff);
    assert LayoutOk(Colliding, l);
    assert MarkerCollision(Colliding, l.place, 2);
    WritesInside(Colliding, l, base);
  }

  const Leaf := Layout([], [], [], [])

  // ----- what the stray count does to values -----

  /** x is y except in the items of fixed-count arrays, at any depth the pass comes to. */
  ghost predicate BesideV(f: Field, x: Value, y: Value)
    decreases f, 0
  {
    if f.ltype.Submessage? && x.Sub? && y.Sub? then BesideM(f.ltype.fields, x.msg, y.msg) else x == y
  }

  ghost predicate BesideS(f: Field, x: Slot, y: Slot)
    decreases f, 1
  {
    match f.htype
    case Required => x.Single? && y.Single? && BesideV(f, x.v, y.v)
    case Optional =>
      || (x.Single? && y.Single? && BesideV(f, x.v, y.v))
      || (x.Opt? && y.Opt? && x.has == y.has && BesideV(f, x.v, y.v))
    case OneOf => x == y
    case Repeated => (x.FixedCount? && y.FixedCount?) || x == y
  }

  ghost predicate BesideM(fs: Fields, x: Msg, y: Msg)
    decreases fs
  {
    && |x.slots| == |y.slots| == |fs| && x.which == y.which
    && forall i | 0 <= i < |fs| :: BesideS(fs[i], x.slots[i], y.slots[i])
  }

  lemma {:induction false} DefaultStaysV(f: Field, v: Value, x: Value)
    requires FieldOk(f) && FitsV(f.ltype, f.dataSize, v) && FitsV(f.ltype, f.dataSize, x) && BesideV(f, x, DefaultV(f, v))
    ensures DefaultV(f, x) == x
    decreases f, 0
  {
    if f.ltype.Submessage? {
      DefaultStays(f.ltype.fields, v.msg, x.msg);
    }
  }

  lemma {:induction false} DefaultStaysS(f: Field, s: Slot, x: Slot)
    requires FieldOk(f) && FitsS(f, s) && FitsS(f, x) && BesideS(f, x, DefaultS(f, s))
    ensures DefaultS(f, x) == x
    decreases f, 1
  {
    hide DefaultV, FitsV, FieldOk, BesideV;
    if f.htype.Required? || f.htype.Optional? {
      DefaultStaysV(f, s.v, x.v);
    }
  }

  lemma {:induction false} DefaultStays(fs: Fields, m: Msg, x: Msg)
    requires SchemaOk(fs) && FitsM(fs, m) && FitsM(fs, x) && BesideM(fs, x, DefaultM(fs, m))
    ensures DefaultM(fs, x) == x
    decreases fs
  {
    hide DefaultS, FitsS, FieldOk, BesideS;
    forall i | 0 <= i < |fs|
      ensures DefaultM(fs, x).slots[i] == x.slots[i]
    {
      assert BesideS(fs[i], x.slots[i], DefaultM(fs, m).slots[i]);
      DefaultStaysS(fs[i], m.slots[i], x.slots[i]);
    }
    assert DefaultM(fs, x).slots == x.slots;
    assert DefaultM(fs, x).which == x.which;
  }

  /** Whatever the stray counts make of the fixed-count arrays: going on from such a
      structure x is decoding into x, so what holds of decoding into any structure holds. */
  lemma StrayCountsCovered(fs: Fields, dest: Msg, x: Msg, s: bytes)
    requires SchemaOk(fs) && FitsM(fs, dest) && FitsM(fs, x) && BesideM(fs, x, DefaultM(fs, dest))
    ensures DecM(fs, x, s) == Framing.Decode(fs, x, s)
  {
    hide DecM, BesideM, DefaultM;
    DefaultStays(fs, dest, x);
  }
}
