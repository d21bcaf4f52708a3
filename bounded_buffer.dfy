/**
 * The bounded buffer of the shared-memory producer/consumer program: a ring
 * of BOUNDED_BUFFER_LEN slots with a read cursor and a write cursor, guarded
 * by three semaphores (`slots` counts free slots, `elements` filled ones,
 * `lock` is the binary semaphore around the cursor updates).
 *
 * The logical queue is the ghost field `Contents`; `Valid()` ties it to the
 * ring and states the buffer's invariants.
 */
module BoundedBuffers {
  import opened Semaphores

  /** BOUNDED_BUFFER_LEN */
  const BoundedBufferLen: nat := 3

  class BoundedBuffer<T(0)> {
    const slots: Semaphore
    const elements: Semaphore
    const lock: Semaphore
    var readIdx: nat
    var writeIdx: nat
    const data: array<T>

    /** The items put and not yet taken, oldest first. */
    ghost var Contents: seq<T>

    ghost predicate Valid()
      reads this, slots, elements, lock
      reads data
    {
      && slots != elements && slots != lock && elements != lock
      && slots.Valid() && elements.Valid()
      && data.Length == BoundedBufferLen
      && readIdx < BoundedBufferLen && writeIdx < BoundedBufferLen
      && slots.count + elements.count == BoundedBufferLen
      && lock.count == 1
      && elements.count == |Contents|
      && writeIdx == (readIdx + elements.count) % BoundedBufferLen
      && forall i :: 0 <= i < |Contents| ==> Contents[i] == data[(readIdx + i) % BoundedBufferLen]
    }

    /** bbuf_init: all slots free, no elements, lock released, both cursors at 0. */
    constructor ()
      ensures Valid() && fresh(slots) && fresh(elements) && fresh(lock) && fresh(data)
      ensures slots.count == BoundedBufferLen && elements.count == 0 && lock.count == 1
      ensures readIdx == 0 && writeIdx == 0
      ensures Contents == []
    {
      slots := new Semaphore(BoundedBufferLen);
      elements := new Semaphore(0);
      lock := new Semaphore(1);
      data := new T[BoundedBufferLen];
      writeIdx := 0;
      readIdx := 0;
      Contents := [];
    }

    /**
     * bbuf_put: a producer that finds no free slot would block in
     * `sem_decr(&slots)`, hence the precondition. The item joins the back of
     * the queue; only `data[writeIdx]` is written and the read cursor stays.
     */
    method Put(item: T)
      requires Valid() && slots.count > 0
      modifies this, slots, elements, lock, data
      ensures Valid()
      ensures Contents == old(Contents) + [item]
      ensures slots.count == old(slots.count) - 1 && elements.count == old(elements.count) + 1
      ensures readIdx == old(readIdx) && writeIdx == (old(writeIdx) + 1) % BoundedBufferLen
      ensures data[..] == old(data[..])[old(writeIdx) := item]
    {
      slots.Decr();
      lock.Decr();
      data[writeIdx] := item;
      writeIdx := (writeIdx + 1) % BoundedBufferLen;
      lock.Incr();
      elements.Incr();
      Contents := Contents + [item];
      forall i | 0 <= i < |Contents|
        ensures Contents[i] == data[(readIdx + i) % BoundedBufferLen]
      {
        if i < |Contents| - 1 {
          DistinctRingPositions(readIdx, i, |Contents| - 1);
        }
      }
    }

    /**
     * bbuf_get: a consumer that finds no element would block in
     * `sem_decr(&elements)`, hence the precondition. It returns and removes the
     * oldest item; no slot of `data` is written and the write cursor stays.
     */
    method Get() returns (item: T)
      requires Valid() && elements.count > 0
      modifies this, slots, elements, lock
      ensures Valid()
      ensures item == old(Contents)[0] && Contents == old(Contents)[1..]
      ensures slots.count == old(slots.count) + 1 && elements.count == old(elements.count) - 1
      ensures writeIdx == old(writeIdx) && readIdx == (old(readIdx) + 1) % BoundedBufferLen
      ensures data[..] == old(data[..])
    {
      elements.Decr();
      lock.Decr();
      item := data[readIdx];
      ghost var r := readIdx;
      readIdx := (readIdx + 1) % BoundedBufferLen;
      lock.Incr();
      slots.Incr();
      Contents := Contents[1..];
      forall i | 0 <= i < |Contents|
        ensures Contents[i] == data[(readIdx + i) % BoundedBufferLen]
      {
        assert Contents[i] == old(Contents)[i + 1];
        assert (r + (i + 1)) % BoundedBufferLen == (readIdx + i) % BoundedBufferLen;
      }
    }
  }

  /** Two queue positions less than a full ring apart occupy different slots. */
  lemma DistinctRingPositions(r: nat, i: nat, j: nat)
    requires i < j < BoundedBufferLen
    ensures (r + i) % BoundedBufferLen != (r + j) % BoundedBufferLen
  {
  }

  /**
   * A producer and a consumer taking turns on a fresh buffer: the producer
   * puts the next message while a slot is free and blocks on a full buffer,
   * at which point the consumer gets one. The consumer receives every message
   * in the order it was put, and with more messages than slots the producer
   * blocks at least once.
   */
  method ProducerConsumer<T(0)>(messages: seq<T>) returns (received: seq<T>, producerBlocked: bool)
    ensures received == messages
    ensures |messages| > BoundedBufferLen ==> producerBlocked
  {
    var buffer := new BoundedBuffer<T>();
    var next := 0;
    received := [];
    producerBlocked := false;
    while |received| < |messages|
      invariant buffer.Valid()
      invariant 0 <= next <= |messages|
      invariant received + buffer.Contents == messages[..next]
      invariant |received| + buffer.elements.count == next
      invariant |received| > 0 && next < |messages| ==> producerBlocked
      invariant next > BoundedBufferLen ==> producerBlocked
      decreases |messages| - next, |messages| - |received|
    {
      if next < |messages| && buffer.slots.count > 0 {
        buffer.Put(messages[next]);
        assert messages[..next + 1] == messages[..next] + [messages[next]];
        next := next + 1;
      } else {
        if next < |messages| {
          producerBlocked := true;
        }
        ghost var queued := buffer.Contents;
        var item := buffer.Get();
        assert queued == [item] + buffer.Contents;
        received := received + [item];
      }
    }
    assert messages[..next] == messages;
  }

  /**
   * The demonstration in main: the child puts "hello", "world", "from",
   * "the", "child", "process" into a buffer of three slots while the parent
   * gets; the parent receives all six in order and the child blocks once the
   * buffer is full.
   */
  method Demo() returns (received: seq<string>, producerBlocked: bool)
    ensures received == ["hello", "world", "from", "the", "child", "process"]
    ensures producerBlocked
  {
    received, producerBlocked := ProducerConsumer(["hello", "world", "from", "the", "child", "process"]);
  }
}
