/**
 The sample buffer of `src/buffer.rs`: a producer and a consumer joined by a
 bounded channel of chunks (`mpsc::sync_channel`), the consumer keeping a FIFO
 buffer of samples from which it serves fixed-size reads.
 */
module Buffer {
  import opened Chunks
  import opened Reading

  /** Number of chunks the channel holds before `write` starts dropping. */
  const QueueCapacity: nat := 1024

  /** What one `recv` on the channel yields: the front chunk, the error that
      the producer is gone and nothing is left, or (where the real `recv`
      would block) nothing yet. */
  datatype Received<T> = Chunk(samples: seq<T>) | Closed | Empty

  /** The bounded channel shared by the two ends: the chunks in flight, in
      order, and whether each end still exists. The ghost fields record every
      chunk ever offered, which of them were kept, and how many of the kept
      ones the receiver has taken. */
  class Channel<T> {
    var queue: seq<seq<T>>
    var senderAlive: bool
    var receiverAlive: bool
    const capacity: nat

    ghost var offered: seq<seq<T>>
    ghost var kept: seq<bool>
    ghost var accepted: seq<seq<T>>
    ghost var delivered: nat

    /** The queue never holds more than `capacity` chunks, and it is exactly
        the accepted chunks not yet delivered; the accepted chunks are the
        offered ones with the dropped ones left out, in offering order. */
    ghost predicate Valid()
      reads this
    {
      && |queue| <= capacity
      && |kept| == |offered|
      && accepted == Select(offered, kept)
      && delivered <= |accepted|
      && queue == accepted[delivered..]
    }

    /** `mpsc::sync_channel(capacity)`. A capacity of 0 (a rendezvous channel)
        is not modelled. */
    constructor (capacity: nat)
      requires capacity > 0
      ensures Valid()
      ensures this.capacity == capacity
      ensures queue == [] && senderAlive && receiverAlive
      ensures offered == [] && accepted == [] && delivered == 0
    {
      this.capacity := capacity;
      queue := [];
      senderAlive, receiverAlive := true, true;
      offered, kept, accepted, delivered := [], [], [], 0;
    }

    /** `SyncSender::try_send`: enqueue `chunk` at the back if there is room
        and the receiver exists; otherwise give it back untouched. Never waits. */
    method TrySend(chunk: seq<T>) returns (sent: bool)
      requires Valid() && senderAlive
      modifies this
      ensures Valid()
      ensures sent <==> old(|queue|) < capacity && receiverAlive
      ensures queue == if sent then old(queue) + [chunk] else old(queue)
      ensures offered == old(offered) + [chunk] && kept == old(kept) + [sent]
      ensures accepted == if sent then old(accepted) + [chunk] else old(accepted)
      ensures accepted[..delivered] == old(accepted[..delivered])
      ensures delivered == old(delivered)
      ensures senderAlive == old(senderAlive) && receiverAlive == old(receiverAlive)
    {
      sent := |queue| < capacity && receiverAlive;
      SelectSnoc(offered, kept, chunk, sent);
      offered, kept := offered + [chunk], kept + [sent];
      if sent {
        assert (accepted + [chunk])[delivered..] == accepted[delivered..] + [chunk];
        assert (accepted + [chunk])[..delivered] == accepted[..delivered];
        queue, accepted := queue + [chunk], accepted + [chunk];
      }
    }

    /** `Receiver::recv`: take the front chunk. Queued chunks are still
        delivered after the sender is gone; only an empty queue with no sender
        is an error. An empty queue with a live sender is where `recv` blocks;
        here it yields `Empty` and changes nothing. */
    method Recv() returns (r: Received<T>)
      requires Valid() && receiverAlive
      modifies this
      ensures Valid()
      ensures old(queue) != [] ==> r == Chunk(old(queue)[0]) && queue == old(queue)[1..]
      ensures old(queue) != [] ==> delivered == old(delivered) + 1 && r.samples == accepted[old(delivered)]
      ensures old(queue) == [] ==> r == (if senderAlive then Empty else Closed)
      ensures old(queue) == [] ==> queue == [] && delivered == old(delivered)
      ensures offered == old(offered) && kept == old(kept) && accepted == old(accepted)
      ensures senderAlive == old(senderAlive) && receiverAlive == old(receiverAlive)
    {
      if queue != [] {
        r := Chunk(queue[0]);
        queue := queue[1..];
        delivered := delivered + 1;
      } else if senderAlive {
        r := Empty;
      } else {
        r := Closed;
      }
    }

    /** Dropping the `SyncSender` (the producer) disconnects the channel. */
    method CloseSender()
      requires Valid()
      modifies this
      ensures Valid()
      ensures !senderAlive
      ensures queue == old(queue) && receiverAlive == old(receiverAlive)
      ensures offered == old(offered) && kept == old(kept) && accepted == old(accepted)
      ensures delivered == old(delivered)
    {
      senderAlive := false;
    }

    /** Dropping the `Receiver` (the consumer): later sends fail. */
    method CloseReceiver()
      requires Valid()
      modifies this
      ensures Valid()
      ensures !receiverAlive
      ensures queue == old(queue) && senderAlive == old(senderAlive)
      ensures offered == old(offered) && kept == old(kept) && accepted == old(accepted)
      ensures delivered == old(delivered)
    {
      receiverAlive := false;
    }
  }

  /** The producing end, held by the audio callback. */
  class Producer<T> {
    const channel: Channel<T>

    constructor (channel: Channel<T>)
      ensures this.channel == channel
    {
      this.channel := channel;
    }

    /** `Producer::write`: copy `data` into a new chunk and offer it to the
        channel. A full queue or a vanished consumer drops the chunk silently;
        either way the call returns normally. The caller's slice is only read,
        and only the back of the queue can grow. */
    method Write(data: array<T>)
      requires channel.Valid() && channel.senderAlive
      modifies channel
      ensures channel.Valid()
      ensures data[..] == old(data[..])
      ensures channel.queue == if old(|channel.queue|) < channel.capacity && channel.receiverAlive
                               then old(channel.queue) + [data[..]]
                               else old(channel.queue)
      ensures channel.queue[..old(|channel.queue|)] == old(channel.queue)
      ensures channel.offered == old(channel.offered) + [data[..]]
      ensures channel.kept == old(channel.kept) + [old(|channel.queue|) < channel.capacity && channel.receiverAlive]
      ensures channel.accepted == if old(|channel.queue|) < channel.capacity && channel.receiverAlive
                                  then old(channel.accepted) + [data[..]]
                                  else old(channel.accepted)
      ensures channel.accepted[..channel.delivered] == old(channel.accepted[..channel.delivered])
      ensures channel.delivered == old(channel.delivered)
      ensures channel.senderAlive && channel.receiverAlive == old(channel.receiverAlive)
    {
      var _ := channel.TrySend(data[..]);
    }

    /** Dropping the producer: the stream is torn down. */
    method Drop()
      requires channel.Valid()
      modifies channel
      ensures channel.Valid()
      ensures !channel.senderAlive
      ensures channel.queue == old(channel.queue) && channel.receiverAlive == old(channel.receiverAlive)
      ensures channel.offered == old(channel.offered) && channel.kept == old(channel.kept)
      ensures channel.accepted == old(channel.accepted) && channel.delivered == old(channel.delivered)
    {
      channel.CloseSender();
    }
  }

  /** Appending the next delivered chunk to the buffer keeps the consumer's
      account of the stream. */
  lemma ReceiveStep<T>(consumed: seq<T>, buffer: seq<T>, accepted: seq<seq<T>>, d: nat)
    requires d < |accepted| && consumed + buffer == Flatten(accepted[..d])
    ensures consumed + (buffer + accepted[d]) == Flatten(accepted[..d + 1])
  {
    FlattenPrefixStep(accepted, d);
  }

  /** The consuming end, owned by the detection worker: the receiver and the
      FIFO buffer of samples received but not yet read. The ghost field
      `consumed` records every sample handed out so far, in order. */
  class Consumer<T> {
    const channel: Channel<T>
    var buffer: seq<T>
    ghost var consumed: seq<T>

    /** The samples handed out, followed by the buffer, are exactly the
        samples of the chunks delivered so far, in the order they were sent. */
    ghost predicate Valid()
      reads this, channel
    {
      && channel.Valid()
      && consumed + buffer == Flatten(channel.accepted[..channel.delivered])
    }

    /** `Consumer::new`: an empty buffer over a receiver that has taken
        nothing yet. */
    constructor (channel: Channel<T>)
      requires channel.Valid() && channel.delivered == 0
      ensures Valid()
      ensures this.channel == channel && buffer == [] && consumed == []
    {
      this.channel := channel;
      buffer := [];
      consumed := [];
    }

    /** `Consumer::read(n)`: while the buffer is short of `n` samples, take the
        next chunk off the channel and append it; then hand out the first `n`
        samples and keep the rest. A `recv` error ends the read with
        `StreamEnded`, and a `recv` that would block ends it with
        `WouldBlock`; in both cases the samples pulled so far stay buffered. */
    method Read(n: nat) returns (r: ReadOutcome<T>)
      requires Valid() && channel.receiverAlive
      modifies this, channel
      ensures Valid()
      ensures var s := ReadWindow(old(buffer), old(channel.queue), old(channel.senderAlive), n);
        r == s.outcome && buffer == s.buffer && channel.queue == s.queue
      ensures consumed == old(consumed) + Returned(r)
      ensures channel.offered == old(channel.offered) && channel.kept == old(channel.kept)
      ensures channel.accepted == old(channel.accepted)
      ensures channel.senderAlive == old(channel.senderAlive) && channel.receiverAlive == old(channel.receiverAlive)
    {
      ghost var spec := ReadWindow(buffer, channel.queue, channel.senderAlive, n);
      while |buffer| < n
        invariant Valid() && channel.receiverAlive
        invariant ReadWindow(buffer, channel.queue, channel.senderAlive, n) == spec
        invariant consumed == old(consumed)
        invariant channel.offered == old(channel.offered) && channel.kept == old(channel.kept)
        invariant channel.accepted == old(channel.accepted)
        invariant channel.senderAlive == old(channel.senderAlive)
        decreases |channel.queue|
      {
        var got := channel.Recv();
        if got.Closed? {
          return StreamEnded;
        } else if got.Empty? {
          return WouldBlock;
        }
        ReceiveStep(consumed, buffer, channel.accepted, channel.delivered - 1);
        buffer := buffer + got.samples;
      }
      ReadFromBuffer(buffer, channel.queue, channel.senderAlive, n);
      r := Samples(buffer[..n]);
      assert buffer[..n] + buffer[n..] == buffer;
      consumed := consumed + buffer[..n];
      buffer := buffer[n..];
    }

    /** Dropping the consumer: the producer's later writes are dropped. */
    method Drop()
      requires Valid()
      modifies channel
      ensures Valid()
      ensures !channel.receiverAlive
      ensures channel.queue == old(channel.queue) && channel.senderAlive == old(channel.senderAlive)
      ensures channel.offered == old(channel.offered) && channel.kept == old(channel.kept)
      ensures channel.accepted == old(channel.accepted) && channel.delivered == old(channel.delivered)
      ensures buffer == old(buffer) && consumed == old(consumed)
    {
      channel.CloseReceiver();
    }
  }

  /** `buffer::new`: a channel of capacity `QueueCapacity` with its two ends,
      nothing queued and nothing buffered. */
  method New<T>() returns (producer: Producer<T>, consumer: Consumer<T>)
    ensures fresh(producer) && fresh(consumer) && fresh(consumer.channel)
    ensures producer.channel == consumer.channel
    ensures consumer.Valid()
    ensures consumer.channel.capacity == QueueCapacity
    ensures consumer.channel.queue == [] && consumer.buffer == []
    ensures consumer.channel.senderAlive && consumer.channel.receiverAlive
    ensures consumer.channel.offered == [] && consumer.consumed == []
  {
    var channel := new Channel(QueueCapacity);
    producer := new Producer(channel);
    consumer := new Consumer(channel);
  }

  /** The stream seen by the consumer is the stream the producer managed to
      send: every sample handed out, then the buffered ones, then those still
      queued, are the samples of the accepted chunks in sending order. */
  lemma StreamOrder<T>(consumer: Consumer<T>)
    requires consumer.Valid()
    ensures consumer.consumed + Pending(consumer.buffer, consumer.channel.queue)
            == Flatten(consumer.channel.accepted)
  {
    var ch := consumer.channel;
    var acc, d := ch.accepted, ch.delivered;
    assert acc == acc[..d] + acc[d..];
    FlattenAppend(acc[..d], acc[d..]);
    assert consumer.consumed + consumer.buffer == Flatten(acc[..d]);
    assert ch.queue == acc[d..];
  }

  /** When no write was dropped, the consumer sees every sample ever written,
      in the order written. */
  lemma StreamOrderWithoutDrops<T>(consumer: Consumer<T>)
    requires consumer.Valid()
    requires forall i :: 0 <= i < |consumer.channel.kept| ==> consumer.channel.kept[i]
    ensures consumer.consumed + Pending(consumer.buffer, consumer.channel.queue)
            == Flatten(consumer.channel.offered)
  {
    StreamOrder(consumer);
    SelectAll(consumer.channel.offered, consumer.channel.kept);
  }
}
