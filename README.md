# Sample buffer of display-pitch, modelled in Dafny

display-pitch captures audio, detects the dominant pitch and displays it. Its
streaming core is the sample buffer of `src/buffer.rs`: the audio callback holds a
`Producer`, the detection worker holds a `Consumer`, and the two are joined by a
bounded channel of chunks (`mpsc::sync_channel` with room for 1024 chunks).

- `Producer::write` copies the callback's slice into a new chunk and offers it with
  `try_send`. When the queue already holds 1024 chunks, or the consumer is gone,
  the chunk is dropped. `write` returns normally either way and never waits.
- `Consumer::read(n)` keeps a FIFO buffer of samples. While the buffer holds fewer
  than `n` samples, it takes whole chunks off the channel with `recv` and appends
  them. Then it splits the buffer at `n`: the first `n` samples are returned and
  the rest stays buffered for the next read. `recv` still delivers queued chunks
  after the producer is gone. It fails (`RecvError`) only when the queue is empty
  and the producer has been dropped. That error ends the read, and the samples
  pulled so far stay buffered.

The project has four modules:

- `Chunks` (chunks.dfy) defines `Flatten`, the samples of a sequence of chunks in
  order. It also defines `Select`, the chunks kept by a series of drop-or-keep
  decisions.
- `Reading` (reading.dfy) gives one read as a function of values, `ReadWindow`.
  It takes the buffer, the queued chunks, whether the producer is alive and `n`,
  and yields the outcome, the new buffer and the new queue. Every property of a
  read is proved about this function. It also gives `ReadEach`, a series of reads.
- `Buffer` (buffer.dfy) has the classes.
  - `Channel` holds the queue of chunks, the capacity and the liveness of both ends.
    It has ghost fields: every chunk offered, which ones were kept, and how many
    of those were delivered.
  - `Producer` and `Consumer` are the two ends. `Consumer` holds the sample buffer
    and a ghost record of every sample handed out.
  - `Consumer.Read` is the source's `while` loop. Its contract ties the outcome,
    the new buffer and the new queue to `ReadWindow`, and its invariants keep the
    link between what was handed out and what was sent.
- `Scenarios` (scenarios.dfy) works through typical situations: windows aligned
  with chunks, a stream that ends short of a window, a write after the consumer
  is gone, a window spanning chunks, and an in-order stream when nothing is dropped.

Blocking is modelled as a distinct outcome. When the buffer is short, the queue is
empty and the producer is alive, the real `recv` waits. Here `Recv` yields `Empty`
and `Read` returns `WouldBlock`, with the chunks pulled so far left in the buffer.
`Reading.ReadResumes` proves this is faithful: retrying the read after more chunks
arrive gives the same result as one read that saw those chunks all along.

Take three chunks of 4096, 2048 and 100 samples, read with windows of 4096 and
then 2048. Each read returns exactly one chunk. `read(2048)` stops as soon as the
second chunk is in (`src/buffer.rs:25-26`), so the 100-sample chunk is still in the
channel queue afterwards, not in the consumer's buffer (`Scenarios.ThreeChunks`).

## Model

| member | source | states |
|---|---|---|
| Buffer.New | src/buffer.rs:45-52 | produces a producer and a consumer sharing one fresh channel of capacity `QueueCapacity` (1024). Nothing is queued, buffered or handed out, and both ends are alive. |
| Buffer.Channel.constructor | src/buffer.rs:46 | a new bounded channel with the given capacity, an empty queue and both ends alive |
| Buffer.Consumer.constructor | src/buffer.rs:15-20 | a consumer over the receiver with an empty sample buffer, satisfying the consumer invariant |
| Buffer.Producer.constructor | src/buffer.rs:48 | a producer over the given channel |
| Buffer.Channel.TrySend | src/buffer.rs:41 | sends exactly when fewer than `capacity` chunks are queued and the receiver exists. A send appends the chunk at the back. Otherwise the queue is unchanged. The queue never exceeds capacity, and the chunks already queued or delivered are untouched. |
| Buffer.Channel.Recv | src/buffer.rs:26 | a non-empty queue yields its front chunk, even after the sender is gone. An empty queue yields `Closed` when the sender is gone and `Empty` (where `recv` blocks) when it is alive, and nothing changes. |
| Buffer.Channel.CloseSender | src/buffer.rs:36 | dropping the sender marks the channel disconnected and keeps the queued chunks |
| Buffer.Channel.CloseReceiver | src/buffer.rs:10 | dropping the receiver marks it gone, so later sends fail |
| Buffer.Producer.Write | src/buffer.rs:40-42 | the slice is unchanged. Its copy is appended as one chunk when the queue holds fewer than 1024 chunks and the consumer is alive; otherwise the queue is unchanged. The old queue is a prefix of the new one. The history records the offer, whether it was kept, and (only when kept) the accepted chunk. The write returns normally in every case. |
| Buffer.Producer.Drop | src/buffer.rs:35-37 | dropping the producer disconnects the channel; the queue, the receiver's liveness and the whole history (offered, kept, accepted, delivered) are unchanged |
| Buffer.Consumer.Drop | src/buffer.rs:9-12 | dropping the consumer marks the receiver gone; the queue, the sender's liveness, the buffer and the whole history are unchanged |
| Buffer.Consumer.Read | src/buffer.rs:24-32 | the outcome, the new buffer and the new queue are those of `ReadWindow` on the old state. The samples handed out grow by exactly the returned window. The consumer invariant (handed out ++ buffer == the samples of the delivered chunks) is kept. |
| Buffer.StreamOrder | src/buffer.rs:24-41 | what the consumer has handed out, then its buffer, then the queued chunks, are exactly the samples of every accepted chunk, in sending order |
| Buffer.StreamOrderWithoutDrops | src/buffer.rs:24-41 | when no write was dropped, that stream is the samples of every chunk ever written, in order |
| Chunks.SelectFromSource | src/buffer.rs:41 | dropping chunks never invents or duplicates one: the kept chunks are a sub-multiset of the offered ones |
| Chunks.SelectAll | src/buffer.rs:41 | with no drops, the kept chunks are all offered chunks |
| Reading.ReadOutcomeCases | src/buffer.rs:24-31 | a read returns a window exactly when at least `n` samples are pending (buffered plus queued). It fails with stream-ended exactly when fewer are pending and the producer is gone, and would block exactly when fewer are pending and the producer is alive. |
| Reading.ReadExactWindow | src/buffer.rs:29-31 | a successful read returns exactly `n` samples |
| Reading.ReadPullsPrefix | src/buffer.rs:25-30 | a read takes `k` whole chunks off the front, and the new queue is the old one minus exactly those. Returned ++ new buffer == old buffer ++ the samples of those `k` chunks. |
| Reading.ReadStopsEarly | src/buffer.rs:25-26 | before each chunk a read pulls, the buffer holds fewer than `n` samples, so it stops as soon as it reaches `n` |
| Reading.ReadFromBuffer | src/buffer.rs:25-30 | with `n` samples already buffered, a read pulls nothing. The queue is untouched, the first `n` are returned and the whole rest (possibly over `n`) is kept. |
| Reading.ReadWholeChunk | src/buffer.rs:25-31 | on an empty buffer, a read sized to the front chunk returns exactly that chunk and leaves the rest of the queue |
| Reading.ReadFailureKeepsAll | src/buffer.rs:25-26 | a read without a window has drained the queue into the buffer in order. It returned nothing, and the buffer is still short of `n`. |
| Reading.ReadConserves | src/buffer.rs:24-31 | returned ++ pending afterwards == pending before: no sample is lost, reordered or duplicated |
| Reading.ReadResumes | src/buffer.rs:25-26 | a read that would block, retried after more chunks arrive (and the producer may have left), behaves as one read over the whole queue |
| Reading.ReadEachReconstructs | src/buffer.rs:24-31 | back-to-back reads return the pending stream in order. When the window sizes sum to at most what is pending, all succeed and together return exactly that prefix. |
| Scenarios.ThreeChunks | src/buffer.rs:24-31 | for chunks a, b, c with a and b non-empty: a read of a's length on the empty buffer returns exactly a and leaves b, c queued; a following read of b's length returns exactly b and leaves c queued; the two reads in series return a ++ b with the buffer empty |
| Scenarios.StreamEndsShort | src/buffer.rs:24-42 | a chunk shorter than `n`, then the producer dropped: `read(n)` fails with stream-ended and the chunk stays buffered |
| Scenarios.NoDropsInOrder | src/buffer.rs:24-42 | two writes with room and a live consumer, then any read: the returned samples followed by everything still buffered or queued are the two chunks' samples in writing order |
| Scenarios.WriteAfterConsumerGone | src/buffer.rs:40-42 | after the consumer is dropped, a write returns normally and queues nothing |
| Scenarios.WindowAcrossChunks | src/buffer.rs:24-31 | chunks of three served in windows of five: the window spans a chunk boundary and the leftover sample is kept |

## Left out

- `src/main.rs` is not part of this model. That covers device and configuration
  negotiation, the GUI and its display formatting, and the detection worker loop.
  The worker is a loop around an opaque FFT pitch detector with floating-point
  conversions.
- Threads, `std::mem::forget` of the stream, and the real waiting and wake-up of
  `mpsc` are not modelled. The channel is a sequential queue with two liveness
  flags.
- Buffer.Consumer.Read: the blocking wait inside `recv` is not modelled. When the
  queue is empty and the producer is alive, the read returns `WouldBlock` instead
  of waiting. `Reading.ReadResumes` shows that retrying it is equivalent to waiting.
- Buffer.Channel.Recv: where the real `recv` blocks, it returns `Empty` and
  changes nothing.
- Buffer.Channel.constructor: a capacity of 0 is excluded. `sync_channel(0)` is a
  rendezvous channel with different semantics, and the source always passes 1024.
- `BUFFER_MIN_CAPACITY` (the buffer's pre-reserved capacity) is left out. It has
  no observable behaviour.
- Samples are of an arbitrary type `T`. The source's `T: Copy` bound and the
  copying of samples are value semantics here.
- `n` and queue lengths are unbounded naturals, so `usize` limits are not modelled.
- Dropping the receiver does not discard the chunks still queued. No one can
  observe them afterwards.
