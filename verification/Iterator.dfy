/** The cyclic field iterator over delta-coded descriptors, and the struct layout that
    the descriptors stand for. Addresses are offsets into memory. */
module Iterator {
  import opened Options
  import opened Schema

  /** Bytes that a field occupies in the structure. */
  function StorageSize(f: Field): nat {
    if f.htype.Repeated? then f.dataSize * f.arraySize else f.dataSize
  }

  /** The address the iterator computes for field i, step by step from the first. */
  function DataAt(fs: Fields, base: int, i: nat): int
    requires i < |fs|
  {
    if i == 0 then base + fs[0].dataOffset
    else if SameUnion(fs[i - 1], fs[i]) then DataAt(fs, base, i - 1)
    else DataAt(fs, base, i - 1) + StorageSize(fs[i - 1]) + fs[i].dataOffset
  }

  /** The address it keeps for the has/count member: members of a union go on using the
      one of the first. */
  function SizeAt(fs: Fields, base: int, i: nat): int
    requires i < |fs|
  {
    if i > 0 && SameUnion(fs[i - 1], fs[i]) then SizeAt(fs, base, i - 1)
    else DataAt(fs, base, i) + fs[i].sizeOffset
  }

  /** Where the has/count member is looked for: in the structure, or, for the
      fixed-count array being received, in the decoder's own counter. */
  datatype SizePtr = InStruct(address: int) | FixedCounter

  class FieldIter {
    var fields: Fields
    var base: int
    var pos: nat
    var requiredFieldIndex: nat
    var pData: int
    var pSize: SizePtr

    /** The index of the terminator stands for an empty message type only. */
    ghost predicate Valid()
      reads this
    {
      && (if fields == [] then pos == 0 else pos < |fields|)
      && requiredFieldIndex == RequiredBefore(fields, pos)
      && pData == (if fields == [] then base else DataAt(fields, base, pos))
      && (pSize == FixedCounter ==> fields != [] && IsFixedCount(fields[pos]))
      && (pSize.InStruct? ==> pSize == HomeSize())
    }

    ghost function HomeSize(): SizePtr
      reads this
    {
      InStruct(if pos < |fields| then SizeAt(fields, base, pos) else base)
    }

    function TagAt(i: nat): nat
      reads this
    {
      if i < |fields| then fields[i].tag else 0
    }

    constructor ()
      ensures Valid() && fields == []
    {
      fields, base, pos, requiredFieldIndex, pData, pSize := [], 0, 0, 0, 0, InStruct(0);
    }

    method Begin(fs: Fields, dest: int) returns (nonEmpty: bool)
      requires forall i | 0 <= i < |fs| :: fs[i].tag != 0
      modifies this
      ensures Valid() && fields == fs && base == dest && pos == 0 && pSize == HomeSize()
      ensures nonEmpty <==> fs != []
    {
      fields, base, pos, requiredFieldIndex := fs, dest, 0, 0;
      if fs == [] {
        pData := dest;
        pSize := InStruct(pData);
      } else {
        pData := dest + fs[0].dataOffset;
        pSize := InStruct(pData + fs[0].sizeOffset);
      }
      nonEmpty := TagAt(0) != 0;
    }

    method Next() returns (more: bool)
      requires Valid() && forall i | 0 <= i < |fields| :: fields[i].tag != 0
      modifies this
      ensures Valid() && fields == old(fields) && base == old(base)
      ensures more <==> old(pos) + 1 < |fields|
      ensures pos == if more then old(pos) + 1 else 0
      ensures if fields == [] then pSize == old(pSize) else pSize == HomeSize()
    {
      if TagAt(pos) == 0 {
        return false;
      }
      var prev := fields[pos];
      pos := pos + 1;
      if TagAt(pos) == 0 {
        var _ := Begin(fields, base);
        return false;
      }
      var prevSize := prev.dataSize;
      if prev.htype.OneOf? && fields[pos].htype.OneOf? && fields[pos].dataOffset == PB_SIZE_MAX {
        return true;
      } else if prev.htype.Repeated? {
        prevSize := prevSize * prev.arraySize;
      }
      if prev.htype.Required? {
        requiredFieldIndex := requiredFieldIndex + 1;
      }
      pData := pData + prevSize + fields[pos].dataOffset;
      pSize := InStruct(pData + fields[pos].sizeOffset);
      return true;
    }

    /** Search for a tag from the current position all the way round. In an empty message
        type the terminator itself is found under tag 0. */
    method Find(tag: nat) returns (found: bool)
      requires Valid() && forall i | 0 <= i < |fields| :: fields[i].tag != 0
      modifies this
      ensures Valid() && fields == old(fields) && base == old(base)
      ensures found <==> (exists i | 0 <= i < |fields| :: fields[i].tag == tag) || (fields == [] && tag == 0)
      ensures found && fields != [] ==> fields[pos].tag == tag
      ensures !found ==> pos == old(pos)
      ensures pSize == if fields == [] || (found && pos == old(pos)) then old(pSize) else HomeSize()
    {
      var start := pos;
      ghost var wrapped := false;
      while true
        invariant Valid() && fields == old(fields) && base == old(base)
        invariant fields == [] ==> start == 0 && !wrapped
        invariant if wrapped then pos < start else start <= pos
        invariant wrapped ==> forall j | start <= j < |fields| || 0 <= j < pos :: fields[j].tag != tag
        invariant !wrapped ==> forall j | start <= j < pos :: fields[j].tag != tag
        invariant pSize == if !wrapped && pos == start then old(pSize) else HomeSize()
        decreases !wrapped, if wrapped then start - pos else |fields| - pos
      {
        if TagAt(pos) == tag {
          return true;
        }
        var more := Next();
        if pos == start {
          return false;
        }
        wrapped := wrapped || !more;
      }
    }

    /** The decoder redirects the count of a fixed-count array to its own counter. */
    method UseFixedCounter()
      requires Valid() && fields != [] && IsFixedCount(fields[pos])
      modifies this`pSize
      ensures Valid() && pSize == FixedCounter
    {
      pSize := FixedCounter;
    }
  }

  // ----- the layout behind the descriptors -----

  datatype Placement = First | Other | InUnion

  /** The structure as the compiler lays it out: union members at one address, everything
      else behind all that precedes it. */
  ghost predicate StructLayout(fs: Fields, place: seq<Placement>, off: seq<nat>) {
    && |place| == |off| == |fs|
    && (forall i | 0 <= i < |fs| :: (place[i].First? <==> i == 0))
    && (forall i | 0 < i < |fs| && place[i].InUnion? ::
          fs[i - 1].htype.OneOf? && fs[i].htype.OneOf? && off[i] == off[i - 1])
    && (forall i, k, j | 0 <= i < k <= j < |fs| && place[k].Other? :: off[i] + StorageSize(fs[i]) <= off[j])
  }

  /** `data_offset` as the three placement macros fill it in. */
  ghost function Delta(fs: Fields, place: seq<Placement>, off: seq<nat>, i: nat): int
    requires StructLayout(fs, place, off) && i < |fs|
  {
    match place[i]
    case First => off[i]
    case Other => off[i] - off[i - 1] - StorageSize(fs[i - 1])
    case InUnion => PB_SIZE_MAX
  }

  ghost predicate DeltaCoded(fs: Fields, place: seq<Placement>, off: seq<nat>)
    requires StructLayout(fs, place, off)
  {
    forall i | 0 <= i < |fs| :: fs[i].dataOffset == Delta(fs, place, off, i)
  }

  /** Two unions back to back whose gap happens to be the union marker. */
  ghost predicate MarkerCollision(fs: Fields, place: seq<Placement>, i: nat)
    requires |place| == |fs|
  {
    0 < i < |fs| && place[i].Other? && SameUnion(fs[i - 1], fs[i])
  }

  lemma OffsetStep(fs: Fields, place: seq<Placement>, off: seq<nat>, i: nat)
    requires StructLayout(fs, place, off) && DeltaCoded(fs, place, off) && 0 < i < |fs| && !MarkerCollision(fs, place, i)
    ensures SameUnion(fs[i - 1], fs[i]) ==> off[i] == off[i - 1]
    ensures !SameUnion(fs[i - 1], fs[i]) ==> fs[i].dataOffset == off[i] - off[i - 1] - StorageSize(fs[i - 1])
  {
    hide StorageSize;
    assert fs[i].dataOffset == Delta(fs, place, off, i);
    assert place[i].Other? || place[i].InUnion?;
  }

  lemma {:induction false} DataAtOffset(fs: Fields, place: seq<Placement>, off: seq<nat>, base: int, i: nat)
    requires StructLayout(fs, place, off) && DeltaCoded(fs, place, off) && i < |fs|
    requires forall j | 0 < j <= i :: !MarkerCollision(fs, place, j)
    ensures DataAt(fs, base, i) == base + off[i]
  {
    hide StorageSize, SameUnion, StructLayout, DeltaCoded, MarkerCollision;
    FirstOffset(fs, place, off);
    if i > 0 {
      DataAtOffset(fs, place, off, base, i - 1);
      assert !MarkerCollision(fs, place, i);
      OffsetStep(fs, place, off, i);
    }
  }

  lemma FirstOffset(fs: Fields, place: seq<Placement>, off: seq<nat>)
    requires StructLayout(fs, place, off) && DeltaCoded(fs, place, off) && fs != []
    ensures |place| == |off| == |fs| && fs[0].dataOffset == off[0]
  {
    assert fs[0].dataOffset == Delta(fs, place, off, 0);
  }

  /** The iterator's address is the true one for every field iff no gap collides. */
  lemma IteratorRefinesLayout(fs: Fields, place: seq<Placement>, off: seq<nat>, base: int)
    requires StructLayout(fs, place, off) && DeltaCoded(fs, place, off)
    ensures (forall i | 0 <= i < |fs| :: DataAt(fs, base, i) == base + off[i])
       <==> (forall i | 0 < i < |fs| :: !MarkerCollision(fs, place, i))
  {
    if forall i | 0 < i < |fs| :: !MarkerCollision(fs, place, i) {
      forall i | 0 <= i < |fs|
        ensures DataAt(fs, base, i) == base + off[i]
      {
        DataAtOffset(fs, place, off, base, i);
      }
    } else {
      var i :| 0 < i < |fs| && MarkerCollision(fs, place, i);
      assert fs[i].dataOffset == off[i] - off[i - 1] - StorageSize(fs[i - 1]) == PB_SIZE_MAX;
      assert DataAt(fs, base, i) == DataAt(fs, base, i - 1);
    }
  }

  /** Where the has, count and which members are, `size_offset` being the difference to
      the data: a union has one which member, and a field without such a member has 0. */
  ghost predicate SizeCoded(fs: Fields, place: seq<Placement>, off: seq<nat>, sizeOff: seq<int>)
    requires StructLayout(fs, place, off)
  {
    && |sizeOff| == |fs|
    && (forall i | 0 <= i < |fs| :: fs[i].sizeOffset == sizeOff[i] - off[i])
    && (forall i | 0 < i < |fs| && place[i].InUnion? :: sizeOff[i] == sizeOff[i - 1])
  }

  /** The address kept for the has, count or which member is the true one as well. */
  lemma {:induction false} SizeAtOffset(fs: Fields, place: seq<Placement>, off: seq<nat>, sizeOff: seq<int>, base: int, i: nat)
    requires StructLayout(fs, place, off) && DeltaCoded(fs, place, off) && SizeCoded(fs, place, off, sizeOff) && i < |fs|
    requires forall j | 0 < j <= i :: !MarkerCollision(fs, place, j)
    ensures SizeAt(fs, base, i) == base + sizeOff[i]
  {
    DataAtOffset(fs, place, off, base, i);
    if i > 0 && SameUnion(fs[i - 1], fs[i]) {
      assert !MarkerCollision(fs, place, i);
      SizeAtOffset(fs, place, off, sizeOff, base, i - 1);
    }
  }

  /** With an 8-bit `pb_size_t`, a union that starts with a string of 255 bytes and goes
      on with a bool, and right behind it another union. */
  const CollidingText := Field(1, String, OneOf, 1, -1, 255, 0, None)
  const CollidingFlag := Field(2, Bool, OneOf, 255, -1, 1, 0, None)
  const CollidingNext := Field(3, Bool, OneOf, 255, -1, 1, 0, None)
  const Colliding: Fields := [CollidingText, CollidingFlag, CollidingNext]

  const CollidingPlaces: seq<Placement> := [First, InUnion, Other]
  const CollidingOffsets: seq<nat> := [1, 1, 257]

  lemma CollidingFieldsOk()
    requires PB_SIZE_MAX == 0xFF
    ensures FieldOk(CollidingText) && FieldOk(CollidingFlag) && FieldOk(CollidingNext)
  {
  }

  lemma CollidingOk()
    requires PB_SIZE_MAX == 0xFF
    ensures SchemaOk(Colliding)
  {
    hide FieldOk;
    CollidingFieldsOk();
  }

  lemma CollidingLayout()
    requires PB_SIZE_MAX == 0xFF
    ensures StructLayout(Colliding, CollidingPlaces, CollidingOffsets)
    ensures DeltaCoded(Colliding, CollidingPlaces, CollidingOffsets)
  {
  }

  /** A collision happens, and the address is then wrong. */
  lemma MarkersCollide()
    requires PB_SIZE_MAX == 0xFF
    ensures SchemaOk(Colliding)
    ensures exists place, off ::
              && StructLayout(Colliding, place, off) && DeltaCoded(Colliding, place, off)
              && MarkerCollision(Colliding, place, 2) && DataAt(Colliding, 0, 2) != off[2]
  {
    hide SchemaOk, StructLayout, DeltaCoded;
    CollidingOk();
    CollidingLayout();
    assert MarkerCollision(Colliding, CollidingPlaces, 2);
    assert DataAt(Colliding, 0, 2) == DataAt(Colliding, 0, 1) == DataAt(Colliding, 0, 0) == 1;
  }

  lemma {:induction false} OneUnion(fs: Fields, place: seq<Placement>, off: seq<nat>, i: nat, j: nat)
    requires StructLayout(fs, place, off) && DeltaCoded(fs, place, off) && i <= j < |fs|
    requires forall k | i < k <= j :: place[k].InUnion?
    ensures UnionOf(fs, i) == UnionOf(fs, j)
  {
    if i < j {
      OneUnion(fs, place, off, i, j - 1);
      assert fs[j].dataOffset == Delta(fs, place, off, j);
      assert SameUnion(fs[j - 1], fs[j]);
    }
  }

  /** The addresses the iterator hands out never let two fields share a byte, except for
      the members of one union, which share their address. */
  lemma StorageDisjoint(fs: Fields, place: seq<Placement>, off: seq<nat>, base: int, i: nat, j: nat)
    requires StructLayout(fs, place, off) && DeltaCoded(fs, place, off) && i < j < |fs|
    requires forall k | 0 < k < |fs| :: !MarkerCollision(fs, place, k)
    requires UnionOf(fs, i) != UnionOf(fs, j)
    ensures DataAt(fs, base, i) + StorageSize(fs[i]) <= DataAt(fs, base, j)
  {
    DataAtOffset(fs, place, off, base, i);
    DataAtOffset(fs, place, off, base, j);
    if forall k | i < k <= j :: place[k].InUnion? {
      OneUnion(fs, place, off, i, j);
    } else {
      var k :| i < k <= j && !place[k].InUnion?;
      assert place[k].Other?;
    }
  }

  lemma {:induction false} UnionShares(fs: Fields, base: int, i: nat, j: nat)
    requires i <= j < |fs| && UnionOf(fs, i) == UnionOf(fs, j)
    ensures DataAt(fs, base, i) == DataAt(fs, base, j) && SizeAt(fs, base, i) == SizeAt(fs, base, j)
    decreases j
  {
    if i < j {
      UnionShares(fs, base, i, j - 1);
    }
  }
}
