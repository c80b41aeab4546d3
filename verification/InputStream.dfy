/** The input stream over a memory buffer, its substreams, and the readers of the wire
    format as loops over it. Each is proved to compute the reader of `Wire` on the bytes
    that were left. */
module InputStream {
  import opened Wire

  class IStream {
    const data: bytes
    var pos: nat
    var bytesLeft: nat

    ghost predicate Valid()
      reads this
    {
      pos + bytesLeft <= |data|
    }

    /** The bytes this stream may still read. */
    function Rem(): bytes
      reads this
      requires Valid()
    {
      data[pos..pos + bytesLeft]
    }

    /** The position at which this stream ends. */
    function End(): nat
      reads this
    {
      pos + bytesLeft
    }

    constructor FromBuffer(data: bytes)
      ensures Valid() && Rem() == data && this.data == data && pos == 0
    {
      this.data, pos, bytesLeft := data, 0, |data|;
    }

    /** A copy of the parent, limited to `size` bytes. */
    constructor Copy(parent: IStream, size: nat)
      requires parent.Valid() && size <= parent.bytesLeft
      ensures Valid() && data == parent.data && pos == parent.pos && bytesLeft == size
      ensures Rem() == parent.Rem()[..size]
    {
      data, pos, bytesLeft := parent.data, parent.pos, size;
    }

    /** pb_read */
    method Read(count: nat) returns (ok: bool, out: bytes)
      requires Valid()
      modifies this
      ensures Valid() && End() == old(End())
      ensures ok <==> count <= old(bytesLeft)
      ensures ok ==> out == old(Rem())[..count] && Rem() == old(Rem())[count..]
      ensures !ok ==> Rem() == old(Rem()) && out == []
    {
      if count == 0 {
        return true, [];
      }
      if bytesLeft < count {
        return false, [];
      }
      out := data[pos..pos + count];
      pos := pos + count;
      bytesLeft := bytesLeft - count;
      ok := true;
    }

    method ReadByte() returns (ok: bool, b: byte)
      requires Valid()
      modifies this
      ensures Valid() && End() == old(End())
      ensures ok <==> old(Rem()) != []
      ensures ok ==> b == old(Rem())[0] && Rem() == old(Rem())[1..]
      ensures !ok ==> Rem() == old(Rem())
    {
      if bytesLeft == 0 {
        return false, 0;
      }
      b := data[pos];
      pos := pos + 1;
      bytesLeft := bytesLeft - 1;
      ok := true;
    }

    /** pb_decode_varint32_eof */
    method DecodeVarint32() returns (ok: bool, value: nat, eof: bool)
      requires Valid()
      modifies this
      ensures Valid() && End() == old(End())
      ensures ok <==> Varint32(old(Rem())).Got?
      ensures ok ==> Got(value, Rem()) == Varint32(old(Rem()))
      ensures eof <==> old(Rem()) == []
    {
      hide OrInto, Dec32;
      var b;
      value, eof := 0, false;
      ok, b := ReadByte();
      if !ok {
        eof := bytesLeft == 0;
        return;
      }
      if b < 128 {
        value := b;
        return;
      }
      var bitpos := 7;
      var result := b % 128;
      while true
        invariant Valid() && End() == old(End())
        invariant 0 <= bitpos < 256 && result >= 0
        invariant Varint32(old(Rem())) == Dec32(Rem(), bitpos, result)
        decreases bytesLeft
      {
        Dec32Case(Rem(), bitpos, result);
        ok, b := ReadByte();
        if !ok {
          return;
        }
        if bitpos >= 32 {
          var signExtension := if bitpos < 63 then 0xFF else 0x01;
          if b % 128 != 0 && (result / 0x8000_0000 == 0 || b != signExtension) {
            ok := false;
            return;
          }
        } else {
          result := OrInto(32, result, b % 128, bitpos);
        }
        bitpos := (bitpos + 7) % 256;
        if b < 128 {
          break;
        }
      }
      if bitpos == 35 && (b / 16) % 8 != 0 {
        ok := false;
        return;
      }
      value := result;
    }

    /** pb_decode_varint */
    method DecodeVarint() returns (ok: bool, value: nat)
      requires Valid()
      modifies this
      ensures Valid() && End() == old(End())
      ensures ok <==> Varint64(old(Rem())).Got?
      ensures ok ==> Got(value, Rem()) == Varint64(old(Rem()))
    {
      hide OrInto;
      var bitpos, b := 0, 0;
      value := 0;
      while true
        invariant Valid() && End() == old(End())
        invariant 0 <= bitpos < 256
        invariant Varint64(old(Rem())) == Dec64(Rem(), bitpos, value)
        decreases bytesLeft
      {
        if bitpos >= 64 {
          ok := false;
          return;
        }
        ok, b := ReadByte();
        if !ok {
          return;
        }
        value := OrInto(64, value, b % 128, bitpos);
        bitpos := (bitpos + 7) % 256;
        if b < 128 {
          return;
        }
      }
    }

    method SkipVarint() returns (ok: bool)
      requires Valid()
      modifies this
      ensures Valid() && End() == old(End())
      ensures ok <==> Wire.SkipVarint(old(Rem())).Got?
      ensures ok ==> Rem() == Wire.SkipVarint(old(Rem())).rest
    {
      while true
        invariant Valid() && End() == old(End())
        invariant Wire.SkipVarint(old(Rem())) == Wire.SkipVarint(Rem())
        decreases bytesLeft
      {
        var out;
        ghost var before := Rem();
        ok, out := Read(1);
        if !ok {
          return;
        }
        assert out[0] == before[0];
        if out[0] < 128 {
          return;
        }
      }
    }

    method SkipString() returns (ok: bool)
      requires Valid()
      modifies this
      ensures Valid() && End() == old(End())
      ensures ok <==> Delimited(old(Rem())).Got?
      ensures ok ==> Rem() == Delimited(old(Rem())).rest
    {
      hide Varint32;
      var length, eof, out;
      ok, length, eof := DecodeVarint32();
      if !ok {
        return;
      }
      ok, out := Read(length);
    }

    method SkipField(wt: WireType) returns (ok: bool)
      requires Valid()
      modifies this
      ensures Valid() && End() == old(End())
      ensures ok <==> Wire.SkipField(wt, old(Rem())).Got?
      ensures ok ==> Rem() == Wire.SkipField(wt, old(Rem())).rest
    {
      hide Delimited;
      var out;
      match wt
      case WtVarint => ok := SkipVarint();
      case Wt64Bit => ok, out := Read(8);
      case WtString => ok := SkipString();
      case Wt32Bit => ok, out := Read(4);
      case WtInvalid(_) => ok := false;
    }

    /** pb_decode_tag: eof also stands for a zero tag, which ends a message. */
    method DecodeTag() returns (ok: bool, tag: nat, wt: WireType, eof: bool)
      requires Valid() && Rem() != []
      modifies this
      ensures Valid() && End() == old(End())
      ensures ok ==> ReadHeader(old(Rem())) == FieldHeader(tag, wt, Rem())
      ensures !ok && eof ==> ReadHeader(old(Rem())) == EndOfMessage(Rem())
      ensures !ok && !eof ==> ReadHeader(old(Rem())).BadHeader?
    {
      hide Varint32;
      var temp;
      tag, wt := 0, WtVarint;
      ok, temp, eof := DecodeVarint32();
      if !ok {
        return;
      }
      if temp == 0 {
        return false, tag, wt, true;
      }
      tag := temp / 8;
      wt := WireTypeOf(temp % 8);
    }

    /** pb_make_string_substream: the parent gives the bytes away but stays in place. */
    method MakeStringSubstream() returns (ok: bool, sub: IStream)
      requires Valid()
      modifies this
      ensures Valid() && fresh(sub)
      ensures ok <==> Delimited(old(Rem())).Got?
      ensures ok ==> sub.Valid() && sub.Rem() == Delimited(old(Rem())).value && sub.data == data
      ensures ok ==> sub.pos == pos && pos + sub.bytesLeft + bytesLeft == old(End())
      ensures ok ==> data[sub.End()..old(End())] == Delimited(old(Rem())).rest
      ensures ok ==> sub.bytesLeft < old(bytesLeft)
      ensures !ok ==> End() == old(End())
    {
      hide Varint32;
      var size, eof;
      ok, size, eof := DecodeVarint32();
      if !ok || bytesLeft < size {
        sub := new IStream.FromBuffer([]);
        return false, sub;
      }
      sub := new IStream.Copy(this, size);
      bytesLeft := bytesLeft - size;
    }

    /** pb_close_string_substream: skip what the substream has left and catch up with it. */
    method CloseStringSubstream(sub: IStream) returns (ok: bool)
      requires Valid() && sub.Valid() && sub != this && sub.data == data
      requires sub.End() + bytesLeft <= |data|
      modifies this, sub
      ensures ok && Valid() && pos == old(sub.End()) && bytesLeft == old(bytesLeft)
    {
      if sub.bytesLeft != 0 {
        var out;
        ok, out := sub.Read(sub.bytesLeft);
        if !ok {
          return;
        }
      }
      pos := sub.pos;
      ok := true;
    }
  }

  lemma Dec32Case(s: bytes, bitpos: nat, result: nat)
    requires bitpos < 256
    ensures s == [] ==> Dec32(s, bitpos, result).Fail?
    ensures s != [] && Overflows32(s[0], bitpos, result) ==> Dec32(s, bitpos, result).Fail?
    ensures s != [] && !Overflows32(s[0], bitpos, result) ==>
              var r := if bitpos >= 32 then result else OrInto(32, result, s[0] % 128, bitpos);
              var next := (bitpos + 7) % 256;
              Dec32(s, bitpos, result) ==
              if s[0] >= 128 then Dec32(s[1..], next, r)
              else if next == 35 && (s[0] / 16) % 8 != 0 then Fail
              else Got(r, s[1..])
  {
    hide OrInto;
  }
}
