/**
 The circular buffer of `hev-circular-buffer.c`: it hands out the stretches of
 its memory that hold data or room, for the system to read or write, and is
 told afterwards how much was moved. It is a queue of bytes.
 */
module CircularBuffer {
  import opened Common
  import opened RingWindow

  type Byte = bv8

  /** The cells of a list of at most two spans, in order. */
  ghost function CellAt(iov: seq<Span>, k: nat): nat
    requires 1 <= |iov| <= 2
  {
    if k < iov[0].len || |iov| == 1 then iov[0].base + k else iov[1].base + (k - iov[0].len)
  }

  ghost function Length(iov: seq<Span>): nat
    requires |iov| <= 2
  {
    (if |iov| >= 1 then iov[0].len else 0) + (if |iov| == 2 then iov[1].len else 0)
  }

  /** The spans name, in order and without a gap, the `n` cells from `start` on, around the end. */
  ghost predicate Covers(iov: seq<Span>, start: nat, n: nat, max: nat)
    requires start < max && n <= max
  {
    && |iov| <= 2 && Length(iov) == n && (|iov| == 0 <==> n == 0)
    && (forall k :: 0 <= k < |iov| ==> iov[k].len > 0 && iov[k].base + iov[k].len <= max)
    && (forall k :: 0 <= k < n ==> CellAt(iov, k) == Wrap(start, k, max))
  }

  class Buffer {
    const data: array<Byte>
    var rp: nat
    var useSize: nat

    /** `hev_circular_buffer_new`, of at least one byte. */
    constructor (maxSize: nat)
      requires maxSize > 0
      ensures Valid() && Contents() == [] && data.Length == maxSize && fresh(data)
    {
      data := new Byte[maxSize](_ => 0);
      rp, useSize := 0, 0;
    }

    ghost predicate Valid()
      reads this
    {
      rp < data.Length && useSize <= data.Length
    }

    ghost function Contents(): (q: seq<Byte>)
      requires Valid()
      reads this, data
      ensures |q| == useSize
    {
      Window(data[..], rp, useSize)
    }

    /** `hev_circular_buffer_reading`: the stretches that hold the contents. */
    method Reading() returns (iov: seq<Span>)
      requires Valid()
      ensures Covers(iov, rp, useSize, data.Length)
    {
      var upper := data.Length - rp;
      if useSize == 0 {
        return [];
      }
      if useSize <= upper {
        return [Span(rp, useSize)];
      }
      return [Span(rp, upper), Span(0, useSize - upper)];
    }

    /** `hev_circular_buffer_read_finish`: the first `size` bytes are gone. */
    method ReadFinish(size: nat)
      requires Valid() && size <= useSize
      modifies this
      ensures Valid() && Contents() == old(Contents())[size..]
    {
      WrapIsMod(rp, size, data.Length);
      WindowDrop(data[..], rp, useSize, size);
      rp := (rp + size) % data.Length;
      useSize := useSize - size;
    }

    /** `hev_circular_buffer_writing`: the stretches that are free, from behind the contents on. */
    method Writing() returns (iov: seq<Span>)
      requires Valid()
      ensures Covers(iov, Wrap(rp, useSize, data.Length), data.Length - useSize, data.Length)
    {
      var wp := (rp + useSize) % data.Length;
      WrapIsMod(rp, useSize, data.Length);
      var upper := data.Length - wp;
      var space := data.Length - useSize;
      if useSize == data.Length {
        return [];
      }
      if space <= upper {
        return [Span(wp, space)];
      }
      return [Span(wp, upper), Span(0, space - upper)];
    }

    /** The system fills the first cells of the spans. */
    method Fill(iov: seq<Span>, bytes: seq<Byte>)
      requires Valid() && |bytes| <= data.Length - useSize
      requires Covers(iov, Wrap(rp, useSize, data.Length), data.Length - useSize, data.Length)
      modifies data
      ensures Valid() && useSize + |bytes| <= data.Length
      ensures Window(data[..], rp, useSize + |bytes|) == old(Contents()) + bytes
    {
      for k := 0 to |bytes|
        invariant Window(data[..], rp, useSize + k) == old(Contents()) + bytes[..k]
      {
        assert CellAt(iov, k) == Wrap(rp, useSize + k, data.Length);
        var cell := if k < iov[0].len then iov[0].base + k else iov[1].base + (k - iov[0].len);
        ghost var after := data[..][cell := bytes[k]];
        WindowPush(data[..], rp, useSize + k, bytes[k]);
        data[cell] := bytes[k];
        assert data[..] == after;
      }
      assert bytes[..|bytes|] == bytes;
    }

    /** The system takes the first `n` bytes of the spans. */
    method Drain(iov: seq<Span>, n: nat) returns (bytes: seq<Byte>)
      requires Valid() && n <= useSize && Covers(iov, rp, useSize, data.Length)
      ensures bytes == Contents()[..n]
    {
      bytes := [];
      for k := 0 to n
        invariant bytes == Contents()[..k]
      {
        assert CellAt(iov, k) == Wrap(rp, k, data.Length);
        var cell := if k < iov[0].len then iov[0].base + k else iov[1].base + (k - iov[0].len);
        bytes := bytes + [data[cell]];
      }
    }

    /** `hev_circular_buffer_write_finish`: the cells filled join the contents. */
    method WriteFinish(size: nat)
      requires Valid() && useSize + size <= data.Length
      modifies this
      ensures Valid() && Contents() == Window(data[..], old(rp), old(useSize) + size)
    {
      useSize := useSize + size;
    }
  }
}
