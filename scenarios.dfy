/**
 Clients of the sample buffer that drive it through typical situations:
 windows aligned with chunks, a stream that ends short of a window, writes
 after the consumer is gone, a window spanning chunks, and an in-order stream
 when nothing is dropped.
 */
module Scenarios {
  import opened Chunks
  import opened Reading
  import opened Buffer

  /** Three chunks, the first two non-empty (for instance 4096, 2048 and 100
      samples), then a read of the first chunk's length and a read of the
      second's: the first read returns exactly the first chunk, the second
      read exactly the second chunk, nothing stays buffered, and the third
      chunk is still waiting in the channel. */
  lemma ThreeChunks<T>(a: seq<T>, b: seq<T>, c: seq<T>, senderAlive: bool)
    requires a != [] && b != []
    ensures ReadWindow([], [a, b, c], senderAlive, |a|) == ReadState(Samples(a), [], [b, c])
    ensures ReadWindow([], [b, c], senderAlive, |b|) == ReadState(Samples(b), [], [c])
    ensures ReadEach([], [a, b, c], senderAlive, [|a|, |b|]) == Session(a + b, [], [c], false)
  {
    assert [a, b, c] == [a] + [b, c];
    ReadWholeChunk(a, [b, c], senderAlive);
    assert [b, c] == [b] + [c];
    ReadWholeChunk(b, [c], senderAlive);
    assert [|a|, |b|][1..] == [|b|] && [|b|][1..] == [];
    assert ReadEach([], [c], senderAlive, []) == Session([], [], [c], false);
    assert ReadEach([], [b, c], senderAlive, [|b|]) == Session(b + [], [], [c], false);
    assert b + [] == b;
  }

  /** A chunk shorter than `n` (for instance 500 samples and `n` = 1000), then the producer goes away: `read(n)` fails with
      stream-ended rather than returning a partial window, and the chunk's
      samples stay in the buffer. */
  method StreamEndsShort(a: array<int>, n: nat) returns (r: ReadOutcome<int>, buffered: seq<int>)
    requires a.Length < n
    ensures r == StreamEnded && buffered == a[..]
  {
    var producer, consumer := New<int>();
    producer.Write(a);
    producer.Drop();
    assert consumer.channel.queue == [a[..]];
    assert Pending([], [a[..]]) == a[..] by {
      assert Flatten([a[..]]) == a[..] + Flatten([]);
    }
    ReadOutcomeCases([], [a[..]], false, n);
    ReadFailureKeepsAll([], [a[..]], false, n);
    r := consumer.Read(n);
    buffered := consumer.buffer;
  }

  /** Two writes while the consumer is alive and the queue has room, then
      any read: the samples it returns, followed by everything still buffered
      or queued, are the two chunks' samples in the order written. */
  method NoDropsInOrder(a: array<int>, b: array<int>, n: nat) returns (r: ReadOutcome<int>, rest: seq<int>)
    ensures Returned(r) + rest == a[..] + b[..]
  {
    var producer, consumer := New<int>();
    producer.Write(a);
    producer.Write(b);
    assert consumer.channel.kept == [true, true];
    assert Flatten(consumer.channel.offered) == a[..] + b[..] by {
      assert consumer.channel.offered == [a[..], b[..]];
      assert Flatten([b[..]]) == b[..] + Flatten([]);
    }
    r := consumer.Read(n);
    StreamOrderWithoutDrops(consumer);
    rest := Pending(consumer.buffer, consumer.channel.queue);
  }

  /** Once the consumer is gone, a write returns normally and queues nothing. */
  method WriteAfterConsumerGone(a: array<int>) returns (queued: seq<seq<int>>)
    ensures queued == []
  {
    var producer, consumer := New<int>();
    consumer.Drop();
    producer.Write(a);
    queued := producer.channel.queue;
  }

  /** Chunks of three samples served in windows of five: the first window
      spans a chunk boundary and one sample of the second chunk is kept. */
  lemma WindowAcrossChunks()
    ensures ReadWindow([], [[1, 2, 3], [4, 5, 6], [7, 8, 9]], true, 5)
            == ReadState(Samples([1, 2, 3, 4, 5]), [6], [[7, 8, 9]])
    ensures ReadWindow([6], [[7, 8, 9]], true, 5) == ReadState(WouldBlock, [6, 7, 8, 9], [])
  {
    var q := [[1, 2, 3], [4, 5, 6], [7, 8, 9]];
    assert [] + q[0] == [1, 2, 3] && q[1..] == [[4, 5, 6], [7, 8, 9]];
    assert [1, 2, 3] + [4, 5, 6] == [1, 2, 3, 4, 5, 6];
    assert [1, 2, 3, 4, 5, 6][..5] == [1, 2, 3, 4, 5] && [1, 2, 3, 4, 5, 6][5..] == [6];
    assert ReadWindow([], q, true, 5) == ReadWindow([1, 2, 3, 4, 5, 6], [[7, 8, 9]], true, 5);
    assert [6] + [7, 8, 9] == [6, 7, 8, 9] && [[7, 8, 9]][1..] == [];
  }
}
