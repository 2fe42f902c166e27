/**
 The ring of buffers inside a channel endpoint (`hev-task-channel.c`): the
 part of a read and of a write between its waiting and its waking, proved
 against a queue of messages.
 */
module ChannelRing {
  import opened RingWindow

  type Message = seq<bv8>

  /** What `hev_task_channel_data_copy` moves: at most `n` bytes of the message. */
  function Clip(m: Message, n: nat): (r: Message)
    ensures r <= m && |r| == if |m| <= n then |m| else n
  {
    if |m| <= n then m else m[..n]
  }

  class Ring {
    const maxSize: nat
    const slots: array<Message>
    var rdIdx: nat
    var wrIdx: nat
    var useCount: nat

    /** `hev_task_channel_new_with_buffers` for one endpoint: one buffer more than asked for. */
    constructor (size: nat, buffers: nat)
      ensures Valid() && Contents() == [] && slots.Length == buffers + 1 && maxSize == size
      ensures fresh(slots)
    {
      maxSize := size;
      slots := new Message[buffers + 1](_ => []);
      rdIdx, wrIdx, useCount := 0, 0, 0;
    }

    ghost predicate Valid()
      reads this
    {
      && rdIdx < slots.Length && useCount <= slots.Length
      && wrIdx == Wrap(rdIdx, useCount, slots.Length)
    }

    /** The messages in the ring, oldest first. */
    ghost function Contents(): (q: seq<Message>)
      requires Valid()
      reads this, slots
      ensures |q| == useCount
    {
      Window(slots[..], rdIdx, useCount)
    }

    /** The middle of `hev_task_channel_read`: the oldest message, cut to the buffer of the reader, leaves. */
    method Take(count: nat) returns (data: Message)
      requires Valid() && useCount > 0
      modifies `rdIdx, `useCount
      ensures Valid() && Contents() == old(Contents())[1..]
      ensures data == Clip(old(Contents())[0], count)
    {
      var m := slots[rdIdx];
      WrapIsMod(rdIdx, 1, slots.Length);
      WindowDrop(slots[..], rdIdx, useCount, 1);
      rdIdx := (rdIdx + 1) % slots.Length;
      data := Clip(m, count);
      useCount := useCount - 1;
    }

    /** The middle of `hev_task_channel_write`: the message joins at the end, cut to the buffer size if there are buffers. */
    method Put(m: Message) returns (size: nat)
      requires Valid() && useCount < slots.Length
      modifies `wrIdx, `useCount, slots
      ensures Valid() && Contents() == old(Contents()) + [if slots.Length == 1 then m else Clip(m, maxSize)]
      ensures size == |Contents()[old(useCount)]|
    {
      var stored := if slots.Length == 1 then m else Clip(m, maxSize);
      WrapIsMod(wrIdx, 1, slots.Length);
      WindowPush(slots[..], rdIdx, useCount, stored);
      ghost var after := slots[..][wrIdx := stored];
      slots[wrIdx] := stored;
      assert slots[..] == after;
      wrIdx := (wrIdx + 1) % slots.Length;
      size := |stored|;
      useCount := useCount + 1;
    }

    /** The write index is the read index plus the use count, round the ring. */
    lemma Indices()
      requires Valid()
      ensures wrIdx == (rdIdx + useCount) % slots.Length
    {
      WrapIsMod(rdIdx, useCount, slots.Length);
    }
  }
}
