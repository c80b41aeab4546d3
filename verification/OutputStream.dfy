/** The output stream: a memory buffer with a limit, or a counter for sizing. */
module OutputStream {
  import opened Options
  import opened Wire
  import opened Schema
  import opened Encoding

  /** Everything about a stream that writing changes. A stream is lost once a submessage
      has got past its limit. */
  datatype Snap = Snap(mem: bytes, pos: nat, count: nat, lost: bool)

  /** From `a` to `b` exactly the bytes `w` were written: behind each other from the old
      position, with no other byte of memory touched. A sizing stream only counts. A stream
      gets lost only where `w` is more than size_t can count. */
  ghost predicate Wrote(sizing: bool, a: Snap, w: bytes, b: Snap) {
    if b.lost then a.lost || a.count + |w| > SIZE_MAX
    else if a.lost then false
    else if sizing then
      && b.mem == a.mem && b.pos == a.pos && b.count <= SIZE_MAX
      && (a.count + |w| <= SIZE_MAX ==> b.count == a.count + |w|)
    else
      && a.pos + |w| <= |a.mem|
      && b.mem == a.mem[..a.pos] + w + a.mem[a.pos + |w|..]
      && b.pos == a.pos + |w| && b.count == a.count + |w|
  }

  lemma WroteTwice(sizing: bool, a: Snap, w1: bytes, b: Snap, w2: bytes, c: Snap)
    requires Wrote(sizing, a, w1, b) && Wrote(sizing, b, w2, c)
    ensures Wrote(sizing, a, w1 + w2, c)
  {
  }

  lemma Counted(sizing: bool, a: Snap, w: bytes, b: Snap)
    requires Wrote(sizing, a, w, b)
    ensures sizing && !a.lost ==> (a.count + |w| <= SIZE_MAX ==> b.count == a.count + |w|)
    ensures !sizing && !b.lost ==> b.count == a.count + |w|
    ensures b.lost ==> a.lost || a.count + |w| > SIZE_MAX
  {
  }

  class OStream {
    const sizing: bool
    const buf: array<byte>
    const maxSize: nat
    var pos: nat
    var bytesWritten: nat
    var lost: bool

    ghost predicate Valid()
      reads this
    {
      && bytesWritten <= SIZE_MAX && maxSize <= SIZE_MAX
      && pos <= buf.Length
      && (!sizing ==> bytesWritten <= maxSize && pos + (maxSize - bytesWritten) <= buf.Length)
    }

    ghost function Now(): Snap
      reads this, buf
    {
      Snap(buf[..], pos, bytesWritten, lost)
    }

    /** What a writer owes for the specified output `e`: it fails on an error of `e` and,
        as long as size_t suffices, succeeds exactly if `e` fits, and in any case writes
        a prefix of `e`. */
    ghost predicate Outcome(a: Snap, e: Option<bytes>, ok: bool, w: bytes) {
      && (e.None? ==> !ok)
      && (e.Some? && !a.lost && a.count + |e.value| <= SIZE_MAX ==>
            && (ok <==> sizing || a.count + |e.value| <= maxSize)
            && w <= e.value
            && (ok ==> w == e.value))
    }

    lemma FirstFails(a: Snap, e1: Option<bytes>, w: bytes, e2: Option<bytes>)
      requires Outcome(a, e1, false, w)
      ensures Outcome(a, Cat(e1, e2), false, w)
    {
    }

    lemma FirstSucceeds(a: Snap, e1: Option<bytes>, w1: bytes, b: Snap, e2: Option<bytes>, ok: bool, w2: bytes)
      requires Outcome(a, e1, true, w1) && Wrote(sizing, a, w1, b) && Outcome(b, e2, ok, w2)
      ensures Outcome(a, Cat(e1, e2), ok, w1 + w2)
    {
    }

    /** Nothing written yet. */
    lemma Started(a: Snap)
      requires Valid() && a == Now()
      ensures Outcome(a, Some([]), true, []) && Wrote(sizing, a, [], a)
    {
    }

    /** Sequencing of writers: the next piece behind what was written since `a`. */
    lemma Followed(a: Snap, done: Option<bytes>, w: bytes, b: Snap, e: Option<bytes>, ok: bool, w2: bytes, c: Snap)
      requires Outcome(a, done, true, w) && Wrote(sizing, a, w, b)
      requires Outcome(b, e, ok, w2) && Wrote(sizing, b, w2, c)
      ensures Outcome(a, Cat(done, e), ok, w + w2) && Wrote(sizing, a, w + w2, c)
    {
      FirstSucceeds(a, done, w, b, e, ok, w2);
      WroteTwice(sizing, a, w, b, w2, c);
    }

    constructor FromBuffer(buf: array<byte>, size: nat)
      requires size <= buf.Length && size <= SIZE_MAX
      ensures Valid() && !sizing && this.buf == buf && maxSize == size && pos == 0 && bytesWritten == 0 && !lost
    {
      sizing, this.buf, maxSize, pos, bytesWritten, lost := false, buf, size, 0, 0, false;
    }

    constructor Sizing()
      ensures Valid() && sizing && fresh(buf) && bytesWritten == 0 && pos == 0 && buf.Length == 0 && !lost
    {
      sizing, buf, maxSize, pos, bytesWritten, lost := true, new byte[0], 0, 0, 0, false;
    }

    /** A stream on the same memory from the parent's position on, limited to `size`. */
    constructor Substream(parent: OStream, size: nat)
      requires parent.Valid() && !parent.sizing && parent.bytesWritten + size <= parent.maxSize
      ensures Valid() && !sizing && buf == parent.buf && maxSize == size && pos == parent.pos && bytesWritten == 0 && !lost
    {
      sizing, buf, maxSize, pos, bytesWritten, lost := false, parent.buf, size, parent.pos, 0, false;
    }

    /** Copy into the buffer, byte by byte, and advance. */
    method BufWrite(src: bytes)
      requires pos + |src| <= buf.Length
      modifies this`pos, buf
      ensures pos == old(pos) + |src|
      ensures buf[..] == old(buf[..])[..old(pos)] + src + old(buf[..])[old(pos) + |src|..]
    {
      var dest := pos;
      pos := dest + |src|;
      var i := 0;
      while i < |src|
        invariant i <= |src| && pos == dest + |src|
        invariant buf[..] == old(buf[..])[..dest] + src[..i] + old(buf[..])[dest + i..]
      {
        buf[dest + i] := src[i];
        i := i + 1;
      }
      assert src[..i] == src;
    }

    /** pb_write. A sizing stream takes a count without data; `what` is what is meant. */
    method Write(src: bytes, count: nat, ghost what: bytes) returns (ok: bool, ghost w: bytes)
      requires Valid() && count <= SIZE_MAX
      requires sizing || (src == what && count == |src|)
      requires sizing && |what| <= SIZE_MAX ==> count == |what|
      modifies this, buf
      ensures Valid() && Wrote(sizing, old(Now()), w, Now()) && Outcome(old(Now()), Some(what), ok, w)
    {
      w := [];
      if count > 0 && !sizing {
        var sum := AddSize(bytesWritten, count);
        if sum < bytesWritten || sum > maxSize {
          assert old(buf[..])[..pos] + w + old(buf[..])[pos..] == buf[..];
          return false, [];
        }
        BufWrite(src);
      }
      w := what;
      if !sizing && count == 0 {
        assert old(buf[..])[..pos] + w + old(buf[..])[pos..] == buf[..];
      }
      bytesWritten := AddSize(bytesWritten, count);
      ok := true;
    }

    /** The parent catches up with a substream that has written `w`. */
    method CatchUp(sub: OStream, ghost a: Snap, ghost w: bytes)
      requires Valid() && !sizing && !sub.sizing && sub != this && sub.buf == buf
      requires a.pos == pos && a.count == 0 && Wrote(false, a, w, sub.Now())
      requires !sub.lost && bytesWritten + |w| <= maxSize
      modifies this`bytesWritten, this`pos
      ensures Valid() && Wrote(false, Snap(a.mem, old(pos), old(bytesWritten), lost), w, Now())
    {
      bytesWritten := bytesWritten + sub.bytesWritten;
      pos := sub.pos;
    }
  }
}
