/** The wire format on plain byte sequences: base-128 varints, zigzag, little
    endian words, and how an unknown field is skipped. Every reader is a function
    of the bytes that are left and yields the value and the bytes after it. */
module Wire {
  import opened Bits

  type byte = x: int | 0 <= x < 256
  type bytes = seq<byte>

  datatype Parsed<+T> = Fail | Got(value: T, rest: bytes)

  const TWO32: int := 0x1_0000_0000
  const TWO63: int := 0x8000_0000_0000_0000
  const TWO64: int := 0x1_0000_0000_0000_0000

  datatype WireType = WtVarint | Wt64Bit | WtString | Wt32Bit | WtInvalid(code: nat)

  function WireCode(wt: WireType): nat {
    match wt
    case WtVarint => 0
    case Wt64Bit => 1
    case WtString => 2
    case Wt32Bit => 5
    case WtInvalid(code) => code
  }

  function WireTypeOf(code: nat): WireType {
    if code == 0 then WtVarint
    else if code == 1 then Wt64Bit
    else if code == 2 then WtString
    else if code == 5 then Wt32Bit
    else WtInvalid(code)
  }

  // ----- writing -----

  function EncVarint(v: nat): (s: bytes)
    ensures |s| >= 1
    ensures s[|s| - 1] < 128 && forall i | 0 <= i < |s| - 1 :: s[i] >= 128
  {
    if v < 128 then [v] else [v % 128 + 128] + EncVarint(v / 128)
  }

  /** The 64-bit pattern that C gives a signed value on conversion. */
  function Wrap64(n: int): nat {
    n % TWO64
  }

  function Zigzag(n: int): nat {
    if n < 0 then TWO64 - 1 - (Wrap64(n) * 2) % TWO64 else (Wrap64(n) * 2) % TWO64
  }

  function Unzigzag(v: nat): (n: int)
    ensures -TWO63 <= n < TWO63
  {
    if v % 2 == 1 then ToSigned(TWO64 - 1 - v / 2, 8) else ToSigned(v / 2, 8)
  }

  /** Sign bit of a signed integer of `size` bytes. */
  function Half(size: nat): (h: nat)
    requires size in {1, 2, 4, 8}
  {
    if size == 1 then 0x80 else if size == 2 then 0x8000 else if size == 4 then 0x8000_0000 else TWO63
  }

  /** Two's complement reading of the low `size` bytes: the C cast to a signed type. */
  function ToSigned(v: int, size: nat): (n: int)
    requires size in {1, 2, 4, 8}
    ensures 0 - Half(size) <= n < Half(size)
    ensures 0 - Half(size) <= v < Half(size) ==> n == v
  {
    var w := ToUnsigned(v, size);
    if w < Half(size) then w else w - 2 * Half(size)
  }

  /** The low `size` bytes: the C cast to an unsigned type. */
  function ToUnsigned(v: int, size: nat): (n: nat)
    requires size in {1, 2, 4, 8}
    ensures n < 2 * Half(size)
    ensures 0 <= v < 2 * Half(size) ==> n == v
  {
    if size == 1 then v % 0x100
    else if size == 2 then v % 0x1_0000
    else if size == 4 then v % TWO32
    else v % TWO64
  }

  function EncFixed(width: nat, v: nat): (s: bytes)
    ensures |s| == width
  {
    if width == 0 then [] else [v % 256] + EncFixed(width - 1, v / 256)
  }

  function LittleEndian(s: bytes): nat {
    if s == [] then 0 else s[0] + 256 * LittleEndian(s[1..])
  }

  function EncTag(tag: nat, wt: WireType): bytes {
    EncVarint(tag * 8 + WireCode(wt))
  }

  /** A length-delimited run of bytes. */
  function EncString(s: bytes): bytes {
    EncVarint(|s|) + s
  }

  // ----- reading -----

  /** What a register of `width` bits holds after `result |= low << bitpos`. */
  function OrInto(width: nat, result: nat, low: nat, bitpos: nat): nat {
    Or(result, Low(Shl(low, bitpos), width))
  }

  /** The loop of the 64-bit varint decoder from a given `bitpos` and `result`. */
  function Dec64(s: bytes, bitpos: nat, result: nat): (p: Parsed<nat>)
    ensures p.Got? ==> |p.rest| < |s|
    decreases |s|
  {
    if bitpos >= 64 || s == [] then Fail
    else
      var r := OrInto(64, result, s[0] % 128, bitpos);
      if s[0] >= 128 then Dec64(s[1..], (bitpos + 7) % 256, r) else Got(r, s[1..])
  }

  function Varint64(s: bytes): (p: Parsed<nat>)
    ensures p.Got? ==> |p.rest| < |s|
  {
    Dec64(s, 0, 0)
  }

  /** The loop of the 32-bit varint decoder; `bitpos` is an 8-bit counter and wraps. */
  function Dec32(s: bytes, bitpos: nat, result: nat): (p: Parsed<nat>)
    ensures p.Got? ==> |p.rest| < |s|
    decreases |s|
  {
    if s == [] || Overflows32(s[0], bitpos, result) then Fail
    else
      var r := if bitpos >= 32 then result else OrInto(32, result, s[0] % 128, bitpos);
      var next := (bitpos + 7) % 256;
      if s[0] >= 128 then Dec32(s[1..], next, r)
      else if next == 35 && (s[0] / 16) % 8 != 0 then Fail
      else Got(r, s[1..])
  }

  predicate Overflows32(b: byte, bitpos: nat, result: nat) {
    && bitpos >= 32
    && b % 128 != 0
    && (result / 0x8000_0000 == 0 || b != (if bitpos < 63 then 0xFF else 0x01))
  }

  function Varint32(s: bytes): (p: Parsed<nat>)
    ensures p.Got? ==> |p.rest| < |s|
  {
    if s == [] then Fail
    else if s[0] < 128 then Got(s[0], s[1..])
    else Dec32(s[1..], 7, s[0] % 128)
  }

  function Take(n: nat, s: bytes): (p: Parsed<bytes>)
    ensures p.Got? ==> p.value + p.rest == s && |p.value| == n
  {
    if |s| < n then Fail else Got(s[..n], s[n..])
  }

  /** A length prefix and the bytes it announces, cut out of the stream. */
  function Delimited(s: bytes): (p: Parsed<bytes>)
    ensures p.Got? ==> |p.rest| < |s| && |p.value| < |s|
  {
    var n := Varint32(s);
    if n.Fail? then Fail else Take(n.value, n.rest)
  }

  datatype Header = BadHeader | EndOfMessage(rest: bytes) | FieldHeader(tag: nat, wt: WireType, rest: bytes)

  function ReadHeader(s: bytes): (h: Header)
    ensures !h.BadHeader? ==> |h.rest| < |s|
  {
    match Varint32(s)
    case Fail => BadHeader
    case Got(t, rest) => if t == 0 then EndOfMessage(rest) else FieldHeader(t / 8, WireTypeOf(t % 8), rest)
  }

  function SkipVarint(s: bytes): (p: Parsed<()>)
    ensures p.Got? ==> |p.rest| < |s|
  {
    if s == [] then Fail
    else if s[0] >= 128 then SkipVarint(s[1..])
    else Got((), s[1..])
  }

  function Skip(n: nat, s: bytes): (p: Parsed<()>) {
    if |s| < n then Fail else Got((), s[n..])
  }

  function SkipField(wt: WireType, s: bytes): (p: Parsed<()>)
    ensures p.Got? ==> |p.rest| < |s|
  {
    match wt
    case WtVarint => SkipVarint(s)
    case Wt64Bit => Skip(8, s)
    case WtString =>
      var d := Delimited(s);
      if d.Fail? then Fail else Got((), d.rest)
    case Wt32Bit => Skip(4, s)
    case WtInvalid(_) => Fail
  }

  // ----- register bounds -----

  lemma OrIntoBound(width: nat, result: nat, low: nat, bitpos: nat)
    requires result < Pow2(width)
    ensures OrInto(width, result, low, bitpos) < Pow2(width)
  {
    LowIsSmall(Shl(low, bitpos), width);
    OrBound(result, Low(Shl(low, bitpos), width), width);
  }

  lemma {:induction false} Dec64Word(s: bytes, bitpos: nat, result: nat)
    requires result < TWO64
    ensures Dec64(s, bitpos, result).Got? ==> Dec64(s, bitpos, result).value < TWO64
    decreases |s|
  {
    if Dec64(s, bitpos, result).Got? {
      Pow2At64(64);
      OrIntoBound(64, result, s[0] % 128, bitpos);
      if s[0] >= 128 {
        Dec64Word(s[1..], (bitpos + 7) % 256, OrInto(64, result, s[0] % 128, bitpos));
      }
    }
  }

  lemma {:induction false} Dec32Word(s: bytes, bitpos: nat, result: nat)
    requires result < TWO32
    ensures Dec32(s, bitpos, result).Got? ==> Dec32(s, bitpos, result).value < TWO32
    decreases |s|
  {
    if Dec32(s, bitpos, result).Got? {
      Pow2At32(32);
      OrIntoBound(32, result, s[0] % 128, bitpos);
      if s[0] >= 128 {
        Dec32Word(s[1..], (bitpos + 7) % 256,
                  if bitpos >= 32 then result else OrInto(32, result, s[0] % 128, bitpos));
      }
    }
  }

  // ----- varint: reading undoes writing -----

  /** One turn of the 64-bit decoder's loop on the low seven bits of `v`. */
  lemma Dec64Turn(v: nat, bp: nat, result: nat)
    requires bp <= 63 && result < Pow2(bp) && v < Pow2(64 - bp)
    ensures OrInto(64, result, v % 128, bp) == result + Shl(v % 128, bp)
    ensures result + Shl(v % 128, bp) < Pow2(bp + 7)
  {
    hide Or, Low, Shl, Pow2;
    ShlSplit(v, bp);
    ShlBound(v, 64 - bp, bp);
    LowIsSmall(Shl(v % 128, bp), 64);
    OrDisjoint(result, v % 128, bp);
    LowSeven(v);
    ShlBound(v % 128, 7, bp);
  }

  lemma LowSeven(v: nat)
    ensures v % 128 < Pow2(7)
  {
    Pow2Seven(0);
  }

  /** What is left above those seven bits still fits above them. */
  lemma Dec64Remaining(v: nat, bp: nat)
    requires bp <= 63 && v < Pow2(64 - bp)
    ensures bp <= 57 ==> v / 128 < Pow2(57 - bp)
    ensures v >= 128 ==> bp <= 56
  {
    Pow2Seven(0);
    if bp <= 57 {
      Pow2Seven(57 - bp);
    } else {
      Pow2Mono(64 - bp, 7);
    }
  }

  lemma Dec64Unfold(b: byte, tail: bytes, bp: nat, result: nat)
    requires bp <= 63
    ensures Dec64([b] + tail, bp, result) ==
            if b >= 128 then Dec64(tail, bp + 7, OrInto(64, result, b % 128, bp))
            else Got(OrInto(64, result, b % 128, bp), tail)
  {
    hide Or, Low, Shl;
    assert ([b] + tail)[1..] == tail;
  }

  lemma Dec32Unfold(b: byte, tail: bytes, bp: nat, result: nat)
    requires bp < 128 && !Overflows32(b, bp, result)
    ensures var r := if bp >= 32 then result else OrInto(32, result, b % 128, bp);
            Dec32([b] + tail, bp, result) ==
            if b >= 128 then Dec32(tail, bp + 7, r)
            else if bp == 28 && (b / 16) % 8 != 0 then Fail
            else Got(r, tail)
  {
    hide Or, Low, Shl;
    assert ([b] + tail)[1..] == tail;
  }

  lemma EncVarintUnfold(v: nat, suffix: bytes)
    ensures EncVarint(v) + suffix ==
            if v < 128 then [v] + suffix else [v % 128 + 128] + (EncVarint(v / 128) + suffix)
  {
  }

  lemma Dec64Stops(s: bytes, bp: nat, result: nat)
    ensures bp >= 64 || s == [] ==> Dec64(s, bp, result).Fail?
  {
  }

  /** Invariant of the 64-bit decoder: with the low `bp` bits already read, decoding
      the encoding of `v` adds `v` above them and stops exactly behind it. */
  lemma {:induction false} Dec64Invariant(v: nat, bp: nat, result: nat, suffix: bytes)
    requires bp <= 63 && result < Pow2(bp) && v < Pow2(64 - bp)
    ensures Dec64(EncVarint(v) + suffix, bp, result) == Got(result + Shl(v, bp), suffix)
    decreases v
  {
    hide Or, Low, Shl, Dec64, Pow2, OrInto, EncVarint;
    Dec64Turn(v, bp, result);
    Dec64Remaining(v, bp);
    ShlSplit(v, bp);
    EncVarintUnfold(v, suffix);
    if v < 128 {
      Dec64Unfold(v, suffix, bp, result);
    } else {
      Dec64Unfold(v % 128 + 128, EncVarint(v / 128) + suffix, bp, result);
      Dec64Invariant(v / 128, bp + 7, result + Shl(v % 128, bp), suffix);
    }
  }

  /** "Base 128 Varints": decoding an encoded value returns it and leaves the suffix. */
  lemma VarintRoundTrip(v: nat, suffix: bytes)
    requires v < TWO64
    ensures Varint64(EncVarint(v) + suffix) == Got(v, suffix)
  {
    Pow2At64(64);
    Dec64Invariant(v, 0, 0, suffix);
  }

  /** The encoding of v needs no more than n bytes iff v fits in 7n bits. */
  lemma {:induction false} VarintLength(v: nat, n: nat)
    requires n >= 1
    ensures |EncVarint(v)| <= n <==> v < Pow2(7 * n)
    decreases v
  {
    Pow2Seven(0);
    if n == 1 {
    } else if v < 128 {
      Pow2Mono(7, 7 * n);
    } else {
      VarintLength(v / 128, n - 1);
      Pow2Seven(7 * (n - 1));
    }
  }

  lemma VarintAtMostTen(v: nat)
    requires v < TWO64
    ensures |EncVarint(v)| <= 10
  {
    Pow2At64(64);
    Pow2Mono(64, 70);
    VarintLength(v, 10);
  }

  lemma OrIntoGrows(result: nat, low: nat, bp: nat)
    requires result < Pow2(bp) && low < 128
    ensures OrInto(64, result, low, bp) < Pow2(bp + 7)
  {
    hide Or, Low, Shl;
    assert low < Pow2(7) by { Pow2Seven(0); }
    ShlBound(low, 7, bp);
    LowIsSmall(Shl(low, bp), 64);
    Pow2Mono(bp, bp + 7);
    OrBound(result, Low(Shl(low, bp), 64), bp + 7);
  }

  lemma {:induction false} Dec64Bound(s: bytes, bp: nat, result: nat)
    requires result < Pow2(bp) && bp < 128
    requires Dec64(s, bp, result).Got?
    ensures Dec64(s, bp, result).value < Pow2(bp + 7 * (|s| - |Dec64(s, bp, result).rest|))
    decreases |s|
  {
    hide Or, Low, Shl, Pow2, Dec64, OrInto;
    Dec64Stops(s, bp, result);
    var low := s[0] % 128;
    OrIntoGrows(result, low, bp);
    assert s == [s[0]] + s[1..];
    Dec64Unfold(s[0], s[1..], bp, result);
    if s[0] >= 128 {
      Dec64Bound(s[1..], bp + 7, OrInto(64, result, low, bp));
    }
  }

  /** No byte string that decodes to `v` is shorter than the encoder's output. */
  lemma VarintShortest(s: bytes)
    requires Varint64(s).Got?
    ensures |EncVarint(Varint64(s).value)| <= |s| - |Varint64(s).rest|
  {
    Dec64Bound(s, 0, 0);
    VarintLength(Varint64(s).value, |s| - |Varint64(s).rest|);
  }

  // ----- the 32-bit decoder against the 64-bit one -----

  lemma {:induction false} Dec32Agrees(s: bytes, bp: nat, result: nat)
    requires 1 <= bp < 128
    requires Dec64(s, bp, result).Got? && Dec32(s, bp, Low(result, 32)).Got?
    ensures Dec32(s, bp, Low(result, 32)).rest == Dec64(s, bp, result).rest
    ensures Dec32(s, bp, Low(result, 32)).value == Low(Dec64(s, bp, result).value, 32)
    decreases |s|
  {
    hide Or, Low, Shl, OrInto;
    var low := s[0] % 128;
    LowWord(result, low, bp);
    assert s == [s[0]] + s[1..];
    Dec64Unfold(s[0], s[1..], bp, result);
    Dec32Unfold(s[0], s[1..], bp, Low(result, 32));
    if s[0] >= 128 {
      Dec32Agrees(s[1..], bp + 7, OrInto(64, result, low, bp));
    }
  }

  /** Only the low word of the accumulated value matters to the 32-bit register. */
  lemma LowWord(result: nat, low: nat, bp: nat)
    ensures Low(OrInto(64, result, low, bp), 32)
         == if bp >= 32 then Low(result, 32) else OrInto(32, Low(result, 32), low, bp)
  {
    LowOfOr(result, Low(Shl(low, bp), 64), 32);
    LowLow(Shl(low, bp), 32, 64);
    if bp >= 32 {
      ShlAbove(low, bp);
      OrZero(Low(result, 32));
    }
  }

  lemma {:induction false} ShlAbove(a: nat, k: nat)
    requires k >= 32
    ensures Low(Shl(a, k), 32) == 0
    decreases k
  {
    if k == 32 {
      LowOfShl(a, 32, 32);
      ShlZero(32);
    } else {
      ShlDouble(a, k - 1);
      ShlAbove(2 * a, k - 1);
    }
  }

  lemma {:induction false} OrZero(a: nat)
    ensures Or(a, 0) == a
  {
    if a != 0 {
      OrZero(a / 2);
    }
  }

  /** The 32-bit decoder refines the 64-bit one wherever both accept: the same bytes
      are consumed and the result is the low word. */
  lemma Varint32Refines(s: bytes)
    requires Varint32(s).Got? && Varint64(s).Got?
    ensures Varint32(s).rest == Varint64(s).rest
    ensures Varint32(s).value == Low(Varint64(s).value, 32)
  {
    hide Or, Low, Shl, Dec64, OrInto, Pow2;
    FirstByte(s[0] % 128);
    assert s == [s[0]] + s[1..];
    Dec64Unfold(s[0], s[1..], 0, 0);
    if s[0] >= 128 {
      Dec32Agrees(s[1..], 7, s[0] % 128);
    }
  }

  lemma FirstByte(low: nat)
    requires low < 128
    ensures OrInto(64, 0, low, 0) == low && Low(low, 32) == low
  {
    hide Low;
    Pow2Seven(0);
    Pow2Mono(7, 32);
    Pow2Mono(7, 64);
    LowIsSmall(low, 64);
    LowIsSmall(low, 32);
  }

  // ----- exactly what the 32-bit decoder accepts -----

  /** What the head of the 32-bit loop makes of v: a value, an overflow, or, with more
      groups to come, the loop behind the register. */
  ghost predicate Head(v: nat, bp: nat, result: nat, suffix: bytes)
    requires bp in {7, 14, 21, 28}
  {
    var p := Dec32(EncVarint(v) + suffix, bp, result);
    if v < Pow2(35 - bp) then p == if v < Pow2(32 - bp) then Got(result + Shl(v, bp), suffix) else Fail
    else p == Dec32(EncVarint(Shr(v, 35 - bp)) + suffix, 35, Low(result + Shl(v, bp), 32))
  }

  lemma LastGroup(v: nat, result: nat, suffix: bytes)
    requires result < Pow2(28)
    ensures Head(v, 28, result, suffix)
  {
    hide Head, Pow2;
    if v < 128 {
      LastGroupEnds(v, result, suffix);
    } else {
      LastGroupGoesOn(v, result, suffix);
    }
  }

  lemma LastGroupEnds(v: nat, result: nat, suffix: bytes)
    requires result < Pow2(28) && v < 128
    ensures Head(v, 28, result, suffix)
  {
    hide Or, Low, Shl, Shr, Pow2, Dec32, OrInto, EncVarint;
    EncVarintUnfold(v, suffix);
    Pow2SmallValues();
    assert !Overflows32(v, 28, result);
    Dec32LastGroup(v, result);
    Dec32Unfold(v, suffix, 28, result);
  }

  lemma LastGroupGoesOn(v: nat, result: nat, suffix: bytes)
    requires result < Pow2(28) && v >= 128
    ensures Head(v, 28, result, suffix)
  {
    hide Or, Low, Shl, Shr, Pow2, Dec32, OrInto, EncVarint;
    EncVarintUnfold(v, suffix);
    Pow2SmallValues();
    assert !Overflows32(v % 128 + 128, 28, result);
    Dec32LastGroup(v, result);
    Dec32Unfold(v % 128 + 128, EncVarint(v / 128) + suffix, 28, result);
    ShrByOneGroup(v);
  }

  lemma OnlyGroup(v: nat, bp: nat, result: nat, suffix: bytes)
    requires bp in {7, 14, 21} && result < Pow2(bp) && v < 128
    ensures Head(v, bp, result, suffix)
  {
    hide Or, Low, Shl, Shr, Pow2, Dec32, OrInto, EncVarint;
    EncVarintUnfold(v, suffix);
    assert !Overflows32(v, bp, result);
    Dec32Turn(v, bp, result);
    Pow2SmallValues();
    Pow2Mono(7, 32 - bp);
    Pow2Mono(7, 35 - bp);
    Dec32Unfold(v, suffix, bp, result);
  }

  lemma NextGroup(v: nat, bp: nat, result: nat, suffix: bytes)
    requires bp in {7, 14, 21} && result < Pow2(bp) && v >= 128
    requires Head(v / 128, bp + 7, result + Shl(v % 128, bp), suffix)
    ensures Head(v, bp, result, suffix)
  {
    hide Or, Low, Shl, Shr, Pow2, Dec32, OrInto, EncVarint;
    EncVarintUnfold(v, suffix);
    ShlSplit(v, bp);
    assert !Overflows32(v % 128 + 128, bp, result);
    Dec32Turn(v, bp, result);
    Dec32Unfold(v % 128 + 128, EncVarint(v / 128) + suffix, bp, result);
    Pow2Seven(25 - bp);
    Pow2Seven(28 - bp);
    ShrSeven(v, 28 - bp);
  }

  lemma {:induction false} Dec32Head(v: nat, bp: nat, result: nat, suffix: bytes)
    requires bp in {7, 14, 21, 28} && result < Pow2(bp)
    ensures Head(v, bp, result, suffix)
    decreases v
  {
    hide Shl, Pow2, Head;
    if bp == 28 {
      LastGroup(v, result, suffix);
    } else if v < 128 {
      OnlyGroup(v, bp, result, suffix);
    } else {
      Dec32Turn(v, bp, result);
      Dec32Head(v / 128, bp + 7, result + Shl(v % 128, bp), suffix);
      NextGroup(v, bp, result, suffix);
    }
  }

  lemma Pow2SmallValues()
    ensures Pow2(4) == 16 && Pow2(7) == 128
  {
  }

  lemma ShrByOneGroup(v: nat)
    ensures Shr(v, 7) == v / 128
  {
    ShrSeven(v, 0);
  }

  lemma Dec32Turn(v: nat, bp: nat, result: nat)
    requires bp <= 25 && result < Pow2(bp)
    ensures OrInto(32, result, v % 128, bp) == result + Shl(v % 128, bp) < Pow2(bp + 7)
  {
    hide Or, Low, Shl, Pow2;
    LowSeven(v);
    ShlBound(v % 128, 7, bp);
    Pow2Mono(bp + 7, 32);
    LowIsSmall(Shl(v % 128, bp), 32);
    OrDisjoint(result, v % 128, bp);
  }

  /** The fifth group overlaps the top of the register; its upper three bits are lost. */
  lemma Dec32LastGroup(v: nat, result: nat)
    requires result < Pow2(28)
    ensures OrInto(32, result, v % 128, 28) == Low(result + Shl(v, 28), 32)
    ensures v < 16 ==> OrInto(32, result, v % 128, 28) == result + Shl(v, 28)
  {
    hide Or, Low, Shl, Pow2;
    OrDisjoint(result, v, 28);
    LowOfOr(result, Shl(v, 28), 32);
    Pow2Mono(28, 32);
    LowIsSmall(result, 32);
    LowOfShl(v, 28, 32);
    LowOfShl(v % 128, 28, 32);
    LowFourOfGroup(v);
    if v < 16 {
      Pow2SmallValues();
      LowIsSmall(v, 4);
      OrDisjoint(result, v, 28);
    }
  }

  lemma LowFourOfGroup(v: nat)
    ensures Low(v, 4) == Low(v % 128, 4)
  {
    hide Low, Shl;
    ShlOneGroup(v);
    LowAddHigh(v % 128, v / 128, 7);
    LowLow(v, 4, 7);
    LowLow(v % 128, 4, 7);
  }

  /** `w` holds the bits from `bp` up of a 64-bit value whose groups between bit 35 and
      bit 62 are each all zeros or all ones and whose top bit is set. */
  predicate SignTail(w: nat, bp: nat)
    decreases w
  {
    if bp >= 63 then w == 1
    else w >= 128 && (w % 128 == 0 || w % 128 == 127) && SignTail(w / 128, bp + 7)
  }

  lemma {:induction false} Dec32Tail(w: nat, bp: nat, result: nat, suffix: bytes)
    requires bp in {35, 42, 49, 56, 63} && 1 <= w < Pow2(64 - bp)
    ensures Dec32(EncVarint(w) + suffix, bp, result) ==
            if result >= 0x8000_0000 && SignTail(w, bp) then Got(result, suffix)
            else Dec32(EncVarint(w) + suffix, bp, result)
    ensures !(result >= 0x8000_0000 && SignTail(w, bp)) ==> Dec32(EncVarint(w) + suffix, bp, result).Fail?
    decreases w
  {
    hide Or, Low, Shl, Pow2, Dec32, OrInto, EncVarint;
    EncVarintUnfold(w, suffix);
    var b := if w < 128 then w else w % 128 + 128;
    var tail := if w < 128 then suffix else EncVarint(w / 128) + suffix;
    if Overflows32(b, bp, result) {
      Dec32Stops([b] + tail, bp, result);
    } else {
      Dec32Unfold(b, tail, bp, result);
      if w < 128 {
        assert result / 0x8000_0000 >= 1 && bp == 63 && w == 1;
      } else {
        assert bp < 63 by {
          if bp == 63 { TopGroup(w, bp); }
        }
        Pow2Seven(57 - bp);
        Dec32Tail(w / 128, bp + 7, result, suffix);
      }
    }
  }

  lemma TopGroup(w: nat, bp: nat)
    requires bp == 63 && w < Pow2(64 - bp)
    ensures w <= 1
  {
    assert Pow2(64 - bp) == 2;
  }

  lemma Dec32Stops(s: bytes, bp: nat, result: nat)
    ensures s == [] || Overflows32(s[0], bp, result) ==> Dec32(s, bp, result).Fail?
  {
  }

  /** On canonical input the 32-bit decoder accepts exactly the 32-bit values and the
      64-bit values of the sign-extended form; it always yields the low word. */
  predicate Accepts32(v: nat) {
    v < TWO32 || (v >= 0x8_0000_0000 && Low(v, 32) >= 0x8000_0000 && SignTail(Shr(v, 35), 35))
  }

  lemma Varint32Exact(v: nat, suffix: bytes)
    requires v < TWO64
    ensures Varint32(EncVarint(v) + suffix) == if Accepts32(v) then Got(Low(v, 32), suffix) else Fail
  {
    hide Or, Low, Shl, Shr, Pow2, Dec32, EncVarint, SignTail;
    EncVarintUnfold(v, suffix);
    if v < 128 {
      FirstByte(v);
      assert EncVarint(v) + suffix == [v] + suffix;
      assert ([v] + suffix)[1..] == suffix;
    } else {
      var low, tail := v % 128, EncVarint(v / 128) + suffix;
      assert ([low + 128] + tail)[1..] == tail;
      GroupsExact(v, suffix);
    }
  }

  /** Several groups: the head of the loop, and a sign extension behind it. */
  lemma GroupsExact(v: nat, suffix: bytes)
    requires 128 <= v < TWO64
    ensures Dec32(EncVarint(v / 128) + suffix, 7, v % 128) == if Accepts32(v) then Got(Low(v, 32), suffix) else Fail
  {
    hide Or, Low, Shl, Shr, Pow2, Dec32, EncVarint, SignTail;
    LowSeven(v);
    Dec32Head(v / 128, 7, v % 128, suffix);
    ShlOneGroup(v);
    Pow2At25And28();
    ShrSeven(v, 28);
    if v < TWO32 {
      Pow2At32(32);
      LowIsSmall(v, 32);
    } else if v >= 0x8_0000_0000 {
      Pow2At64(64);
      ShrBound(v, 29, 35);
      ShrPositive(v, 35);
      Pow2Seven(28);
      Dec32Tail(Shr(v, 35), 35, Low(v, 32), suffix);
    }
  }

  lemma ShlOneGroup(v: nat)
    ensures v % 128 + Shl(v / 128, 7) == v
  {
    ShlSplit(v, 0);
    assert Shl(v, 0) == v && Shl(v % 128, 0) == v % 128;
  }

  lemma Pow2At25And28()
    ensures Pow2(25) == 0x200_0000 && Pow2(28) == 0x1000_0000
  {
    Pow2Eight(0);
    Pow2Eight(8);
    Pow2Eight(16);
    assert Pow2(28) == 2 * Pow2(27) == 4 * Pow2(26) == 8 * Pow2(25) == 16 * Pow2(24);
  }

  lemma {:induction false} SignTailRange(w: nat, bp: nat)
    requires bp in {35, 42, 49, 56, 63} && SignTail(w, bp)
    ensures w >= Pow2(63 - bp)
    decreases w
  {
    if bp < 63 {
      SignTailRange(w / 128, bp + 7);
      Pow2Seven(56 - bp);
    }
  }

  /** All values between 2^32 and 2^63 are rejected. */
  lemma Varint32RejectsLarge(v: nat, suffix: bytes)
    requires TWO32 <= v < TWO63
    ensures Varint32(EncVarint(v) + suffix).Fail?
  {
    hide Low, Shr, Pow2, Varint32, EncVarint, SignTail;
    Varint32Exact(v, suffix);
    if Accepts32(v) {
      SignTailRange(Shr(v, 35), 35);
      HalfOf64();
      ShrBound(v, 28, 35);
    }
  }

  lemma HalfOf64()
    ensures Pow2(28 + 35) == TWO63
  {
    Pow2At64(64);
    assert Pow2(64) == 2 * Pow2(28 + 35);
  }

  /** A negative int32, sign-extended to 64 bits, is accepted and gives back its word. */
  lemma Varint32AcceptsNegative(n: int, suffix: bytes)
    requires -0x8000_0000 <= n < 0
    ensures Varint32(EncVarint(Wrap64(n)) + suffix) == Got(n + TWO32, suffix)
  {
    hide Varint32, EncVarint, SignTail, Low, Shr, Pow2;
    var v := n + TWO64;
    assert Wrap64(n) == v;
    Varint32Exact(v, suffix);
    NegativeWord(n);
    SignTailOfOnes();
  }

  lemma SignTailOfOnes()
    ensures SignTail(0x1FFF_FFFF, 35)
  {
    assert SignTail(0x1, 63);
    assert SignTail(0xFF, 56);
    assert SignTail(0x7FFF, 49);
    assert SignTail(0x3F_FFFF, 42);
  }

  lemma NegativeWord(n: int)
    requires -0x8000_0000 <= n < 0
    ensures Low(n + TWO64, 32) == n + TWO32
    ensures Shr(n + TWO64, 35) == 0x1FFF_FFFF
  {
    hide Low, Shr;
    Pow2At32(32);
    LowIsSmall(n + TWO32, 32);
    ShlOfWord(0xFFFF_FFFF);
    LowAddHigh(n + TWO32, 0xFFFF_FFFF, 32);
    var v := n + TWO64;
    ShrSeven(v, 28);
    ShrSeven(v / 128, 21);
    ShrSeven(v / 128 / 128, 14);
    ShrSeven(v / 128 / 128 / 128, 7);
    ShrByOneGroup(v / 128 / 128 / 128 / 128);
  }

  lemma ShlOfWord(a: nat)
    ensures Shl(a, 32) == a * TWO32
  {
    hide Shl;
    ShlSeven(a, 25);
    ShlSeven(128 * a, 18);
    ShlSeven(128 * 128 * a, 11);
    ShlSeven(128 * 128 * 128 * a, 4);
    ShlFour(128 * 128 * 128 * 128 * a);
  }

  lemma ShlFour(a: nat)
    ensures Shl(a, 4) == 16 * a
  {
    assert Shl(a, 4) == 2 * Shl(a, 3) == 4 * Shl(a, 2) == 8 * Shl(a, 1) == 16 * Shl(a, 0);
  }

  /** "Base 128 Varints", for the 32-bit decoder. */
  lemma Varint32RoundTrip(v: nat, suffix: bytes)
    requires v < TWO32
    ensures Varint32(EncVarint(v) + suffix) == Got(v, suffix)
  {
    hide Low, Varint32, EncVarint;
    Varint32Exact(v, suffix);
    Pow2At32(32);
    LowIsSmall(v, 32);
  }

  // ----- the other scalars -----

  /** "Signed Integers": the zigzag map is a bijection between int64 and uint64. */
  lemma ZigzagRoundTrip(n: int)
    requires -TWO63 <= n < TWO63
    ensures Zigzag(n) < TWO64 && Unzigzag(Zigzag(n)) == n
  {
    ZigzagIsFolding(n);
  }

  lemma ZigzagIsFolding(n: int)
    requires -TWO63 <= n < TWO63
    ensures Zigzag(n) == if n < 0 then -2 * n - 1 else 2 * n
  {
    if n < 0 {
      assert Wrap64(n) == n + TWO64;
      assert ((n + TWO64) * 2) % TWO64 == 2 * n + TWO64;
    }
  }

  lemma UnzigzagRoundTrip(v: nat)
    requires v < TWO64
    ensures Zigzag(Unzigzag(v)) == v
  {
    ZigzagIsFolding(Unzigzag(v));
  }

  lemma {:induction false} LittleEndianBound(s: bytes)
    ensures LittleEndian(s) < Pow2(8 * |s|)
  {
    if s != [] {
      LittleEndianBound(s[1..]);
      Pow2Eight(8 * |s| - 8);
    }
  }

  /** A stored word read back from its bytes; the value fits its register. */
  function ReadWord(s: bytes): (v: nat)
    ensures |s| == 4 ==> v < TWO32
    ensures |s| == 8 ==> v < TWO64
  {
    LittleEndianBound(s);
    Pow2At32(32);
    Pow2At64(64);
    LittleEndian(s)
  }

  lemma {:induction false} FixedRoundTrip(width: nat, v: nat)
    requires v < Pow2(8 * width)
    ensures LittleEndian(EncFixed(width, v)) == v
  {
    if width != 0 {
      Pow2Eight(8 * width - 8);
      FixedRoundTrip(width - 1, v / 256);
      assert EncFixed(width, v)[1..] == EncFixed(width - 1, v / 256);
    }
  }

  lemma DelimitedRoundTrip(s: bytes, suffix: bytes)
    requires |s| < TWO32
    ensures Delimited(EncString(s) + suffix) == Got(s, suffix)
  {
    assert EncString(s) + suffix == EncVarint(|s|) + (s + suffix);
    Varint32RoundTrip(|s|, s + suffix);
    assert (s + suffix)[..|s|] == s && (s + suffix)[|s|..] == suffix;
  }

  lemma HeaderRoundTrip(tag: nat, wt: WireType, suffix: bytes)
    requires 1 <= tag < 0x2000_0000 && !wt.WtInvalid?
    ensures ReadHeader(EncTag(tag, wt) + suffix) == FieldHeader(tag, wt, suffix)
  {
    hide Varint32, EncVarint;
    Varint32RoundTrip(tag * 8 + WireCode(wt), suffix);
  }

  // ----- reading looks only at the bytes it consumes -----

  lemma {:induction false} Dec64Local(s: bytes, bp: nat, result: nat, y: bytes)
    requires Dec64(s, bp, result).Got?
    ensures Dec64(s + y, bp, result) == Got(Dec64(s, bp, result).value, Dec64(s, bp, result).rest + y)
    decreases |s|
  {
    hide OrInto;
    assert (s + y)[1..] == s[1..] + y;
    if s[0] >= 128 {
      Dec64Local(s[1..], (bp + 7) % 256, OrInto(64, result, s[0] % 128, bp), y);
    }
  }

  lemma {:induction false} Dec32Local(s: bytes, bp: nat, result: nat, y: bytes)
    requires Dec32(s, bp, result).Got?
    ensures Dec32(s + y, bp, result) == Got(Dec32(s, bp, result).value, Dec32(s, bp, result).rest + y)
    decreases |s|
  {
    hide OrInto, Overflows32;
    assert (s + y)[1..] == s[1..] + y;
    if s[0] >= 128 {
      Dec32Local(s[1..], (bp + 7) % 256, if bp >= 32 then result else OrInto(32, result, s[0] % 128, bp), y);
    }
  }

  lemma Varint32Local(s: bytes, y: bytes)
    requires Varint32(s).Got?
    ensures Varint32(s + y) == Got(Varint32(s).value, Varint32(s).rest + y)
  {
    hide Dec32;
    assert (s + y)[1..] == s[1..] + y;
    if s[0] >= 128 {
      Dec32Local(s[1..], 7, s[0] % 128, y);
    }
  }

  lemma DelimitedLocal(s: bytes, y: bytes)
    requires Delimited(s).Got?
    ensures Delimited(s + y) == Got(Delimited(s).value, Delimited(s).rest + y)
  {
    hide Varint32;
    Varint32Local(s, y);
    var n, r := Varint32(s).value, Varint32(s).rest;
    assert (r + y)[..n] == r[..n] && (r + y)[n..] == r[n..] + y;
  }

  lemma HeaderLocal(s: bytes, y: bytes)
    requires !ReadHeader(s).BadHeader?
    ensures ReadHeader(s + y) == ReadHeader(s).(rest := ReadHeader(s).rest + y)
  {
    hide Varint32;
    Varint32Local(s, y);
  }

  lemma {:induction false} SkipVarintLocal(s: bytes, y: bytes)
    requires SkipVarint(s).Got?
    ensures SkipVarint(s + y) == Got((), SkipVarint(s).rest + y)
  {
    assert (s + y)[1..] == s[1..] + y;
    if s[0] >= 128 {
      SkipVarintLocal(s[1..], y);
    }
  }

  lemma SkipFieldLocal(wt: WireType, s: bytes, y: bytes)
    requires SkipField(wt, s).Got?
    ensures SkipField(wt, s + y) == Got((), SkipField(wt, s).rest + y)
  {
    hide Delimited;
    match wt
    case WtVarint => SkipVarintLocal(s, y);
    case Wt64Bit => assert (s + y)[8..] == s[8..] + y;
    case WtString => DelimitedLocal(s, y);
    case Wt32Bit => assert (s + y)[4..] == s[4..] + y;
    case WtInvalid(_) =>
  }
}
