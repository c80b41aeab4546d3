/** Whole-library entry points: initialised, delimited and null-terminated decoding. */
module Framing {
  import opened Options
  import opened Wire
  import opened Schema
  import opened Encoding
  import opened Decoding
  import opened Merging
  import opened RoundTrip

  /** pb_decode: the default pass, then the field loop. */
  function Decode(fs: Fields, dest: Msg, s: bytes): (p: Parsed<Msg>)
    requires SchemaOk(fs) && FitsM(fs, dest)
    ensures p.Got? ==> FitsM(fs, p.value) && |p.rest| <= |s|
  {
    DefaultMFits(fs, dest);
    DecM(fs, DefaultM(fs, dest), s)
  }

  function EncodeDelimited(fs: Fields, m: Msg): Option<bytes>
    requires FitsM(fs, m)
  {
    var e := EncM(fs, m);
    if e.Some? then Some(EncString(e.value)) else None
  }

  function DecodeDelimited(fs: Fields, dest: Msg, s: bytes): (p: Parsed<Msg>)
    requires SchemaOk(fs) && FitsM(fs, dest)
    ensures p.Got? ==> FitsM(fs, p.value) && |p.rest| < |s|
  {
    match Delimited(s)
    case Fail => Fail
    case Got(d, rest) =>
      match Decode(fs, dest, d)
      case Fail => Fail
      case Got(m, _) => Got(m, rest)
  }

  function EncodeNullTerminated(fs: Fields, m: Msg): Option<bytes>
    requires FitsM(fs, m)
  {
    Cat(EncM(fs, m), Some([0]))
  }

  /** A message within its bounds and of a size the decoder's 32-bit lengths can express. */
  ghost predicate Sendable(fs: Fields, m: Msg) {
    FitsM(fs, m) && BoundedM(fs, m) && EncM(fs, m).Some? && |EncM(fs, m).value| < TWO32
  }

  /** pb_decode of an encoding, for any schema: the message merged into the structure that
      the default pass leaves. */
  lemma DecodeMerges(fs: Fields, dest: Msg, m: Msg)
    requires SchemaOk(fs) && FitsM(fs, dest) && Sendable(fs, m)
    ensures FitsM(fs, DefaultM(fs, dest)) && FitsM(fs, Onto(fs, dest, m))
    ensures var p := Decode(fs, dest, EncM(fs, m).value);
            p.Got? && p.rest == [] && AlikeM(fs, Onto(fs, dest, m), p.value)
  {
    hide DecM, AlikeM, MergeM, BoundedM, EncM, SchemaOk, VacantM, RoomM;
    DefaultVacant(fs, dest);
    VacantRoom(fs, DefaultM(fs, dest), m);
    MessageMerged(fs, DefaultM(fs, dest), m, EncM(fs, m).value);
  }

  function Onto(fs: Fields, dest: Msg, m: Msg): Msg
    requires SchemaOk(fs) && FitsM(fs, dest) && FitsM(fs, m)
  {
    DefaultMFits(fs, dest);
    MergeM(fs, DefaultM(fs, dest), m)
  }

  ghost predicate Recovers(fs: Fields, dest: Msg, m: Msg)
    requires SchemaOk(fs) && FitsM(fs, dest) && Sendable(fs, m)
  {
    var p := Decode(fs, dest, EncM(fs, m).value);
    p.Got? && p.rest == [] && SameM(fs, m, p.value)
  }

  /** The round trip through pb_decode, onto any structure. */
  lemma DecodeRoundTrip(fs: Fields, dest: Msg, m: Msg)
    requires SchemaOk(fs) && ZeroDefaults(fs) && FitsM(fs, dest) && Sendable(fs, m)
    ensures Recovers(fs, dest, m)
  {
    hide DecM, SameM, FreshM, BoundedM, EncM, SchemaOk;
    DefaultMFits(fs, dest);
    DefaultsFresh(fs, dest);
    MessageRoundTrip(fs, DefaultM(fs, dest), m, EncM(fs, m).value);
  }

  /** Whatever the defaults: a message comes back iff merging it into the default values
      gives it. */
  lemma RecoversExactly(fs: Fields, dest: Msg, m: Msg)
    requires SchemaOk(fs) && FitsM(fs, dest) && Sendable(fs, m)
    ensures FitsM(fs, Onto(fs, dest, m))
    ensures Recovers(fs, dest, m) <==> SameM(fs, m, Onto(fs, dest, m))
  {
    hide Decode, SameM, AlikeM, MergeM, BoundedM, EncM, SchemaOk;
    DecodeMerges(fs, dest, m);
    var x := Decode(fs, dest, EncM(fs, m).value).value;
    AlikeSame(fs, Onto(fs, dest, m), x);
    if SameM(fs, m, x) {
      SameSymmetric(fs, Onto(fs, dest, m), x);
      SameTransitive(fs, m, x, Onto(fs, dest, m));
    }
    if SameM(fs, m, Onto(fs, dest, m)) {
      SameTransitive(fs, m, Onto(fs, dest, m), x);
    }
  }

  /** A proto3 singular field whose default is not zero: a zero message does not come back,
      whatever else is in the schema. */
  lemma DefaultsNeeded(fs: Fields, dest: Msg, i: nat)
    requires SchemaOk(fs) && FitsM(fs, dest) && Sendable(fs, ZeroM(fs))
    requires i < |fs| && !fs[i].ltype.Submessage? && !ZeroDefaultsF(fs[i])
    ensures !Recovers(fs, dest, ZeroM(fs))
  {
    hide SameM, AlikeM, MergeM, BoundedM, EncM, SchemaOk, Decode, FitsM;
    RecoversExactly(fs, dest, ZeroM(fs));
    if SameM(fs, ZeroM(fs), Onto(fs, dest, ZeroM(fs))) {
      DefaultShows(fs, dest, i);
    }
  }

  /** The zero value is not sent, and the default pass leaves something else. */
  lemma DefaultShows(fs: Fields, dest: Msg, i: nat)
    requires SchemaOk(fs) && FitsM(fs, dest) && FitsM(fs, ZeroM(fs)) && FitsM(fs, Onto(fs, dest, ZeroM(fs)))
    requires i < |fs| && !fs[i].ltype.Submessage? && !ZeroDefaultsF(fs[i])
    ensures !SameM(fs, ZeroM(fs), Onto(fs, dest, ZeroM(fs)))
  {
    var f, m, x := fs[i], ZeroM(fs), Onto(fs, dest, ZeroM(fs));
    DefaultMFits(fs, dest);
    SlotFits(fs, dest, i);
    ZeroIsZero(f);
    assert m.slots[i] == ZeroS(f) == Single(ZeroV(f.ltype, f.dataSize));
    assert DefaultM(fs, dest).slots[i] == DefaultS(f, dest.slots[i]) == Single(f.init.value);
    assert x.slots[i] == MergeS(f, DefaultM(fs, dest).slots[i], Which(fs, DefaultM(fs, dest), i), m.slots[i], Which(fs, m, i));
    assert x.slots[i] == Single(f.init.value);
    assert !SameV(f.ltype, f.dataSize, m.slots[i].v, x.slots[i].v);
    assert !SameS(f, m.slots[i], Which(fs, m, i), x.slots[i], Which(fs, x, i));
  }

  lemma ZeroIsZero(f: Field)
    requires FieldOk(f) && !f.ltype.Submessage?
    ensures FitsV(f.ltype, f.dataSize, ZeroV(f.ltype, f.dataSize))
    ensures f.ltype.FixedLengthBytes? || IsZeroV(f.ltype, f.dataSize, ZeroV(f.ltype, f.dataSize))
  {
    ZeroVFits(f.ltype, f.dataSize);
  }

  lemma DelimitedMessage(fs: Fields, dest: Msg, m: Msg, suffix: bytes)
    requires SchemaOk(fs) && ZeroDefaults(fs) && FitsM(fs, dest) && Sendable(fs, m)
    ensures EncodeDelimited(fs, m).Some?
    ensures var p := DecodeDelimited(fs, dest, EncodeDelimited(fs, m).value + suffix);
            p.Got? && p.rest == suffix && SameM(fs, m, p.value)
  {
    hide DecM, SameM, BoundedM, EncM, SchemaOk, Decode, Delimited, EncString;
    DecodeRoundTrip(fs, dest, m);
    DelimitedRoundTrip(EncM(fs, m).value, suffix);
  }

  /** Messages written back to back. */
  function EncodeAll(fs: Fields, ms: seq<Msg>): bytes
    requires forall i | 0 <= i < |ms| :: Sendable(fs, ms[i])
  {
    if ms == [] then [] else
      assert Sendable(fs, ms[0]);
      EncodeDelimited(fs, ms[0]).value + EncodeAll(fs, ms[1..])
  }

  /** As many delimited messages as there are destinations, read one after the other. */
  function DecodeAll(fs: Fields, dests: seq<Msg>, s: bytes): (p: Parsed<seq<Msg>>)
    requires SchemaOk(fs) && forall i | 0 <= i < |dests| :: FitsM(fs, dests[i])
    ensures p.Got? ==> |p.value| == |dests| && forall i | 0 <= i < |p.value| :: FitsM(fs, p.value[i])
  {
    if dests == [] then Got([], s)
    else
      match DecodeDelimited(fs, dests[0], s)
      case Fail => Fail
      case Got(m, rest) =>
        match DecodeAll(fs, dests[1..], rest)
        case Fail => Fail
        case Got(ms, rest') => Got([m] + ms, rest')
  }

  /** n messages written with pb_encode_delimited are recovered in order by n calls of
      pb_decode_delimited, and exactly what follows them is left in the stream. */
  lemma {:induction false} BackToBack(fs: Fields, dests: seq<Msg>, ms: seq<Msg>, suffix: bytes)
    requires SchemaOk(fs) && ZeroDefaults(fs) && |dests| == |ms|
    requires forall i | 0 <= i < |dests| :: FitsM(fs, dests[i])
    requires forall i | 0 <= i < |ms| :: Sendable(fs, ms[i])
    ensures var p := DecodeAll(fs, dests, EncodeAll(fs, ms) + suffix);
            && p.Got? && p.rest == suffix && |p.value| == |ms|
            && forall i | 0 <= i < |ms| :: SameM(fs, ms[i], p.value[i])
    decreases |ms|
  {
    hide SameM, FitsM, BoundedM, EncM, DecodeDelimited, SchemaOk;
    if ms == [] {
      assert EncodeAll(fs, ms) + suffix == suffix;
    } else {
      var rest := EncodeAll(fs, ms[1..]) + suffix;
      assert Sendable(fs, ms[0]) && FitsM(fs, dests[0]);
      assert EncodeAll(fs, ms) + suffix == EncodeDelimited(fs, ms[0]).value + rest;
      DelimitedMessage(fs, dests[0], ms[0], rest);
      BackToBack(fs, dests[1..], ms[1..], suffix);
    }
  }

  /** A null-terminated message followed by anything decodes to the message and stops
      exactly behind the terminator. */
  lemma NullTerminatedMessage(fs: Fields, dest: Msg, m: Msg, suffix: bytes)
    requires SchemaOk(fs) && ZeroDefaults(fs) && FitsM(fs, dest) && Sendable(fs, m)
    ensures EncodeNullTerminated(fs, m).Some?
    ensures var p := Decode(fs, dest, EncodeNullTerminated(fs, m).value + suffix);
            p.Got? && p.rest == suffix && SameM(fs, m, p.value)
  {
    hide Loop, SameM, FreshM, BoundedM, EncM, SchemaOk, AlikeM, MergeM, RoomM, VacantM;
    DefaultVacant(fs, dest);
    DefaultsFresh(fs, dest);
    var d, b := DefaultM(fs, dest), EncM(fs, m).value;
    VacantRoom(fs, d, m);
    var st := MessageLoop(fs, Start(d), m, b, [0] + suffix);
    assert b + [0] + suffix == b + ([0] + suffix);
    StopsAtZero(fs, st, suffix);
    FreshMerge(fs, d, m);
    AlikeSame(fs, MergeM(fs, d, m), st.msg);
    SameTransitive(fs, m, MergeM(fs, d, m), st.msg);
  }

  lemma StopsAtZero(fs: Fields, st: Progress, suffix: bytes)
    requires SchemaOk(fs) && FitsP(fs, st)
    ensures Loop(fs, st, [0] + suffix) == Got(st, suffix)
  {
    assert ([0] + suffix)[1..] == suffix;
  }

  /** Two encodings one behind the other, through pb_decode: one message and then the other
      merged into the structure that the default pass leaves, if there is room for it. */
  lemma DecodeConcatenated(fs: Fields, dest: Msg, a: Msg, b: Msg)
    requires SchemaOk(fs) && FitsM(fs, dest) && Sendable(fs, a) && Sendable(fs, b)
    requires forall i | 0 <= i < |fs| :: !IsFixedCount(fs[i])
    ensures FitsM(fs, Onto(fs, dest, a))
    ensures var p := Decode(fs, dest, EncM(fs, a).value + EncM(fs, b).value);
            var both := MergeM(fs, Onto(fs, dest, a), b);
            && (p.Got? <==> RoomM(fs, Onto(fs, dest, a), b))
            && (p.Got? ==> p.rest == [] && FitsM(fs, both) && AlikeM(fs, both, p.value))
  {
    hide DecM, AlikeM, MergeM, BoundedM, EncM, SchemaOk, VacantM, RoomM;
    DefaultVacant(fs, dest);
    VacantRoom(fs, DefaultM(fs, dest), a);
    Concatenated(fs, DefaultM(fs, dest), a, b);
  }
}
