/**
 What one `Consumer::read(n)` does to the consumer's sample buffer and to the
 queue of chunks waiting in the channel, written as a function of values, and
 the properties the read promises, proved about that function.
 */
module Reading {
  import opened Chunks

  /** The outcome of one read: a window of samples, the stream-ended error
      (`RecvError`: the queue is empty and the producer is gone), or the point
      where the blocking `recv` would wait for the producer. */
  datatype ReadOutcome<T> = Samples(window: seq<T>) | StreamEnded | WouldBlock

  /** The outcome of a read together with the buffer and queue it leaves. */
  datatype ReadState<T> = ReadState(outcome: ReadOutcome<T>, buffer: seq<T>, queue: seq<seq<T>>)

  /** The samples handed to the caller by an outcome. */
  function Returned<T>(o: ReadOutcome<T>): seq<T>
  {
    if o.Samples? then o.window else []
  }

  /** Every sample not yet handed out: the buffered ones, then the queued chunks in order. */
  function Pending<T>(buffer: seq<T>, queue: seq<seq<T>>): seq<T>
  {
    buffer + Flatten(queue)
  }

  /** `read(n)` on a consumer whose buffer is `buffer`, with `queue` waiting
      in the channel and the producer alive or not. */
  function ReadWindow<T>(buffer: seq<T>, queue: seq<seq<T>>, senderAlive: bool, n: nat): ReadState<T>
    decreases |queue|
  {
    if |buffer| >= n then ReadState(Samples(buffer[..n]), buffer[n..], queue)
    else if queue == [] then ReadState(if senderAlive then WouldBlock else StreamEnded, buffer, [])
    else ReadWindow(buffer + queue[0], queue[1..], senderAlive, n)
  }

  /** Moving the front chunk into the buffer leaves the pending samples unchanged. */
  lemma PendingStep<T>(buffer: seq<T>, queue: seq<seq<T>>)
    requires queue != []
    ensures Pending(buffer + queue[0], queue[1..]) == Pending(buffer, queue)
  {
  }

  /** Which outcome a read has depends only on how many samples are pending:
      a window exactly when at least `n` are, otherwise stream-ended when the
      producer is gone and a wait when it is not. */
  lemma {:induction false} ReadOutcomeCases<T>(buffer: seq<T>, queue: seq<seq<T>>, senderAlive: bool, n: nat)
    ensures var r := ReadWindow(buffer, queue, senderAlive, n);
      && (r.outcome.Samples? <==> |Pending(buffer, queue)| >= n)
      && (r.outcome.StreamEnded? <==> |Pending(buffer, queue)| < n && !senderAlive)
      && (r.outcome.WouldBlock? <==> |Pending(buffer, queue)| < n && senderAlive)
    decreases |queue|
  {
    if |buffer| < n && queue != [] {
      PendingStep(buffer, queue);
      ReadOutcomeCases(buffer + queue[0], queue[1..], senderAlive, n);
    }
  }

  /** A successful read returns exactly `n` samples. */
  lemma {:induction false} ReadExactWindow<T>(buffer: seq<T>, queue: seq<seq<T>>, senderAlive: bool, n: nat)
    ensures var r := ReadWindow(buffer, queue, senderAlive, n);
      r.outcome.Samples? ==> |r.outcome.window| == n
    decreases |queue|
  {
    if |buffer| < n && queue != [] {
      ReadExactWindow(buffer + queue[0], queue[1..], senderAlive, n);
    }
  }

  /** A read takes whole chunks off the front of the queue (`k` of them) and
      leaves the rest; the samples it returns, followed by the new buffer, are
      the old buffer followed by the samples of those chunks, in order. */
  lemma {:induction false} ReadPullsPrefix<T>(buffer: seq<T>, queue: seq<seq<T>>, senderAlive: bool, n: nat)
    ensures var r := ReadWindow(buffer, queue, senderAlive, n);
      var k := |queue| - |r.queue|;
      && |r.queue| <= |queue|
      && r.queue == queue[k..]
      && Returned(r.outcome) + r.buffer == buffer + Flatten(queue[..k])
    decreases |queue|
  {
    var r := ReadWindow(buffer, queue, senderAlive, n);
    if |buffer| >= n {
      assert queue[..0] == [];
      assert buffer[..n] + buffer[n..] == buffer;
    } else if queue == [] {
    } else {
      var rest := queue[1..];
      ReadPullsPrefix(buffer + queue[0], rest, senderAlive, n);
      var k := |queue| - |r.queue|;
      assert k == |rest| - |r.queue| + 1;
      assert rest[k - 1..] == queue[k..];
      FlattenPrefixHead(queue, k);
    }
  }

  /** A read stops pulling as soon as the buffer has `n` samples: before each
      chunk it pulled, the buffer was still short of `n`. */
  lemma {:induction false} ReadStopsEarly<T>(buffer: seq<T>, queue: seq<seq<T>>, senderAlive: bool, n: nat)
    ensures var r := ReadWindow(buffer, queue, senderAlive, n);
      forall j :: 0 <= j < |queue| - |r.queue| ==> |buffer + Flatten(queue[..j])| < n
    decreases |queue|
  {
    var r := ReadWindow(buffer, queue, senderAlive, n);
    if |buffer| < n && queue != [] {
      var rest := queue[1..];
      ReadStopsEarly(buffer + queue[0], rest, senderAlive, n);
      forall j | 0 <= j < |queue| - |r.queue|
        ensures |buffer + Flatten(queue[..j])| < n
      {
        if j == 0 {
          assert queue[..0] == [];
        } else {
          FlattenPrefixHead(queue, j);
          assert buffer + Flatten(queue[..j]) == buffer + queue[0] + Flatten(rest[..j - 1]);
        }
      }
    }
  }

  /** When the buffer already holds `n` samples, a read pulls no chunk: it
      returns the first `n` and keeps the rest, however long. */
  lemma ReadFromBuffer<T>(buffer: seq<T>, queue: seq<seq<T>>, senderAlive: bool, n: nat)
    requires |buffer| >= n
    ensures var r := ReadWindow(buffer, queue, senderAlive, n);
      && r.queue == queue
      && r.outcome == Samples(buffer[..n])
      && r.buffer == buffer[n..]
      && |r.buffer| == |buffer| - n
  {
  }

  /** On an empty buffer, a read sized to the front chunk returns exactly
      that chunk and leaves the rest of the queue alone. */
  lemma ReadWholeChunk<T>(chunk: seq<T>, rest: seq<seq<T>>, senderAlive: bool)
    requires chunk != []
    ensures ReadWindow([], [chunk] + rest, senderAlive, |chunk|) == ReadState(Samples(chunk), [], rest)
  {
    var q := [chunk] + rest;
    assert q[0] == chunk && q[1..] == rest;
    assert [] + chunk == chunk;
    assert chunk[..|chunk|] == chunk && chunk[|chunk|..] == [];
  }

  /** A read that returns no window has moved every queued chunk into the
      buffer, in order, and handed out nothing. */
  lemma {:induction false} ReadFailureKeepsAll<T>(buffer: seq<T>, queue: seq<seq<T>>, senderAlive: bool, n: nat)
    ensures var r := ReadWindow(buffer, queue, senderAlive, n);
      !r.outcome.Samples? ==> r.queue == [] && r.buffer == Pending(buffer, queue) && |r.buffer| < n
    decreases |queue|
  {
    if |buffer| < n && queue != [] {
      PendingStep(buffer, queue);
      ReadFailureKeepsAll(buffer + queue[0], queue[1..], senderAlive, n);
    }
  }

  /** A read conserves the stream: what it returns, followed by what is still
      pending afterwards, is exactly what was pending before. */
  lemma ReadConserves<T>(buffer: seq<T>, queue: seq<seq<T>>, senderAlive: bool, n: nat)
    ensures var r := ReadWindow(buffer, queue, senderAlive, n);
      Returned(r.outcome) + Pending(r.buffer, r.queue) == Pending(buffer, queue)
  {
    var r := ReadWindow(buffer, queue, senderAlive, n);
    ReadPullsPrefix(buffer, queue, senderAlive, n);
    var k := |queue| - |r.queue|;
    assert queue == queue[..k] + queue[k..];
    FlattenAppend(queue[..k], queue[k..]);
    calc {
      Returned(r.outcome) + Pending(r.buffer, r.queue);
      Returned(r.outcome) + r.buffer + Flatten(queue[k..]);
      buffer + Flatten(queue[..k]) + Flatten(queue[k..]);
      Pending(buffer, queue);
    }
  }

  /** Waiting is faithful to blocking: a read that would block, retried once
      more chunks have arrived (and the producer may have gone), behaves as if
      those chunks had been queued from the start. */
  lemma {:induction false} ReadResumes<T>(buffer: seq<T>, queue: seq<seq<T>>, senderAlive: bool, n: nat,
                                          later: seq<seq<T>>, senderAliveLater: bool)
    requires ReadWindow(buffer, queue, senderAlive, n).outcome.WouldBlock?
    ensures var r := ReadWindow(buffer, queue, senderAlive, n);
      ReadWindow(r.buffer, later, senderAliveLater, n) == ReadWindow(buffer, queue + later, senderAliveLater, n)
    decreases |queue|
  {
    if queue == [] {
      assert queue + later == later;
    } else {
      assert (queue + later)[0] == queue[0];
      assert (queue + later)[1..] == queue[1..] + later;
      ReadResumes(buffer + queue[0], queue[1..], senderAlive, n, later, senderAliveLater);
    }
  }

  /** The total of a list of window sizes. */
  function Sum(ns: seq<nat>): nat
    decreases |ns|
  {
    if ns == [] then 0 else ns[0] + Sum(ns[1..])
  }

  /** A series of reads, one per window size, stopping at the first that
      returns no window. */
  datatype Session<T> = Session(returned: seq<T>, buffer: seq<T>, queue: seq<seq<T>>, stopped: bool)

  function ReadEach<T>(buffer: seq<T>, queue: seq<seq<T>>, senderAlive: bool, ns: seq<nat>): Session<T>
    decreases |ns|
  {
    if ns == [] then Session([], buffer, queue, false)
    else
      var r := ReadWindow(buffer, queue, senderAlive, ns[0]);
      if r.outcome.Samples? then
        var s := ReadEach(r.buffer, r.queue, senderAlive, ns[1..]);
        Session(r.outcome.window + s.returned, s.buffer, s.queue, s.stopped)
      else
        Session([], r.buffer, r.queue, true)
  }

  /** Back-to-back reads hand out the stream in its original order: what they
      return, followed by what is left pending, is what was pending at the
      start; and when the window sizes add up to no more than what is pending,
      every read succeeds and together they return exactly that prefix. */
  lemma {:induction false} ReadEachReconstructs<T>(buffer: seq<T>, queue: seq<seq<T>>, senderAlive: bool, ns: seq<nat>)
    ensures var s := ReadEach(buffer, queue, senderAlive, ns);
      s.returned + Pending(s.buffer, s.queue) == Pending(buffer, queue)
    ensures var s := ReadEach(buffer, queue, senderAlive, ns);
      Sum(ns) <= |Pending(buffer, queue)| ==> !s.stopped && s.returned == Pending(buffer, queue)[..Sum(ns)]
    decreases |ns|
  {
    if ns != [] {
      var r := ReadWindow(buffer, queue, senderAlive, ns[0]);
      ReadConserves(buffer, queue, senderAlive, ns[0]);
      ReadOutcomeCases(buffer, queue, senderAlive, ns[0]);
      ReadExactWindow(buffer, queue, senderAlive, ns[0]);
      if r.outcome.Samples? {
        ReadEachReconstructs(r.buffer, r.queue, senderAlive, ns[1..]);
        var s := ReadEach(r.buffer, r.queue, senderAlive, ns[1..]);
        var p := Pending(buffer, queue);
        assert p == r.outcome.window + Pending(r.buffer, r.queue);
        if Sum(ns) <= |p| {
          assert |r.outcome.window| == ns[0];
          assert Sum(ns[1..]) <= |Pending(r.buffer, r.queue)|;
          assert p[..Sum(ns)] == r.outcome.window + Pending(r.buffer, r.queue)[..Sum(ns[1..])];
        }
      }
    }
  }
}
