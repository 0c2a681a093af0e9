/**
 * RpcSharedStream<T> (src/Stl.Rpc/Infrastructure/RpcSharedStream.cs): the
 * host side of a remote stream.  OnAck decides whether an acknowledgement is
 * queued, starts the worker, or answers with "missing"; the worker (OnRun)
 * is modelled one outer-loop pass at a time by RunRound, whose loops are
 * DrainAcks and SendWindow, each proved equal to its specification in
 * StreamFlow.
 */
module SharedStreams {
  import opened Wrappers
  import opened StreamFlow

  /** Guid as a number; `default(Guid)` is 0. */
  type Guid = nat
  const DefaultGuid: Guid := 0

  /** The worker's life cycle: WhenRunning == null, running, completed. */
  datatype Status = Idle | Running | Finished

  /** What OnAck does with an acknowledgement. */
  datatype AckAction =
    | HostMismatch      // a reset from another host: send missing, nothing else
    | SendMissing       // the worker cannot take the ack: send missing
    | StartAndEnqueue   // the first reset to 0 starts the worker
    | Enqueue

  /** The ack sentinel DisposeAsyncCore writes and the consumer sends when it is done. */
  const Sentinel: Ack := Ack(LongMaxValue, false)

  /** OnAck's decision (lines 62-83). */
  function DecideAck(streamHostId: Guid, status: Status, nextIndex: int, hostId: Guid): (a: AckAction)
    ensures a == HostMismatch <==> hostId != DefaultGuid && hostId != streamHostId
    ensures a == StartAndEnqueue <==> status == Idle && hostId == streamHostId != DefaultGuid && nextIndex == 0
    ensures a == Enqueue <==> status == Running && (hostId == DefaultGuid || hostId == streamHostId)
    ensures a == SendMissing <==>
      (hostId == DefaultGuid || hostId == streamHostId) && status != Running
      && !(status == Idle && hostId != DefaultGuid && nextIndex == 0)
  {
    var mustReset := hostId != DefaultGuid;
    if mustReset && streamHostId != hostId then HostMismatch
    else match status
      case Idle => if mustReset && nextIndex == 0 then StartAndEnqueue else SendMissing
      case Running => Enqueue
      case Finished => SendMissing
  }

  /** The ack-draining loop of lines 103-119. */
  method DrainAcks(index0: int, acks: seq<Ack>) returns (d: Drained)
    ensures d == Drain(index0, Ack(-1, false), acks)
  {
    var index := index0;
    var ack := Ack(-1, false);
    var i := 0;
    while i < |acks|
      invariant 0 <= i <= |acks|
      invariant Drain(index0, Ack(-1, false), acks) == Drain(index, ack, acks[i..])
    {
      assert acks[i..][0] == acks[i] && acks[i..][1..] == acks[i + 1..];
      ack := acks[i];
      if ack.nextIndex == LongMaxValue {
        return Drained(index, ack, acks[i + 1..], true);
      }
      if ack.mustReset || index < ack.nextIndex {
        index := ack.nextIndex;
      }
      i := i + 1;
    }
    return Drained(index, ack, [], false);
  }

  /** How the pull loop for one position ended. */
  datatype Fill<T> =
    | Filled(w: Worker<T>, race: Race)  // the position is buffered
    | PastEnd(w: Worker<T>)             // the sequence ended before the position
    | Interrupted(w: Worker<T>)         // a new ack arrived first

  /**
   * The pull loop of lines 140-176: pulls until the buffer reaches index,
   * giving up when the sequence has ended (the position is past its end) or
   * when an ack arrives before the producer yields.  Each outcome is where
   * SendLoop goes from w0: on to sending the buffered position, or to its
   * end.
   */
  method PullMissing<T>(p: Producer<T>, w0: Worker<T>, ghost maxIndex: int, race0: Race) returns (f: Fill<T>)
    requires w0.bufferStart <= w0.index < maxIndex
    ensures f.w.index == w0.index && f.w.bufferStart == w0.bufferStart
    ensures f.Filled? ==> f.w.index < Produced(f.w) && SendLoop(p, f.w, maxIndex, f.race) == SendLoop(p, w0, maxIndex, race0)
    ensures f.PastEnd? ==> SendLoop(p, w0, maxIndex, race0) == (f.w, [SendInvalidPosition(w0.index)])
    ensures f.Interrupted? ==> SendLoop(p, w0, maxIndex, race0) == (f.w, [])
  {
    var w, race := w0, race0;
    var missingCount := 1 + (w.index - w.bufferStart) - |w.buffer|;
    while missingCount > 0
      invariant w.index == w0.index && w.bufferStart == w0.bufferStart
      invariant missingCount == 1 + (w.index - w.bufferStart) - |w.buffer|
      invariant SendLoop(p, w, maxIndex, race) == SendLoop(p, w0, maxIndex, race0)
      decreases missingCount
    {
      if w.isEnumerationEnded {
        return PastEnd(w);
      }
      if race == AckAfterPulls(0) {
        return Interrupted(w);
      }
      var item := ItemAt(p, Produced(w));
      race := if race.AckAfterPulls? then AckAfterPulls(race.pulls - 1) else NoAck;
      w := w.(buffer := w.buffer + [item], isEnumerationEnded := w.isEnumerationEnded || item.Error?);
      missingCount := missingCount - 1;
    }
    return Filled(w, race);
  }

  /**
   * The send loop of lines 137-182: sends the buffered item at index and
   * moves on, until the window is full, an error item was sent, the
   * position is past the sequence's end, or an ack interrupts the pulls.
   */
  method SendWindow<T>(p: Producer<T>, w0: Worker<T>, maxIndex: int, race0: Race)
    returns (w: Worker<T>, sent: seq<Outgoing<T>>)
    requires w0.bufferStart <= w0.index
    ensures (w, sent) == SendLoop(p, w0, maxIndex, race0)
  {
    w, sent := w0, [];
    var race := race0;
    assert sent + SendLoop(p, w, maxIndex, race).1 == SendLoop(p, w, maxIndex, race).1;
    while w.index < maxIndex
      invariant w.bufferStart == w0.bufferStart <= w.index
      invariant var rest := SendLoop(p, w, maxIndex, race);
        SendLoop(p, w0, maxIndex, race0) == (rest.0, sent + rest.1)
      decreases maxIndex - w.index
    {
      var bufferIndex := w.index - w.bufferStart;
      var f := PullMissing(p, w, maxIndex, race);
      match f {
        case PastEnd(w1) =>
          w, sent := w1, sent + [SendInvalidPosition(w1.index)];
          return;
        case Interrupted(w1) =>
          w := w1;
          assert sent + [] == sent;
          return;
        case Filled(w1, raceLeft) =>
          var item := w1.buffer[bufferIndex];
          ghost var sentBefore := sent;
          w, sent, race := w1.(index := w1.index + 1), sent + [Send(w1.index, item)], raceLeft;
          if item.Error? {
            return;
          }
          SendLoopContinues(p, w1, maxIndex, raceLeft, sentBefore);
      }
    }
    assert SendLoop(p, w, maxIndex, race) == (w, []);
    assert sent + [] == sent;
  }

  class RpcSharedStream<T> {
    /** Stream.Id.HostId. */
    const hostId: Guid
    /** Stream.AckAdvance: how far past an acknowledged index the worker may send. */
    const ackAdvance: nat
    /** The local source the worker enumerates. */
    const producer: Producer<T>

    var status: Status
    /** The acks channel: written by OnAck and DisposeAsyncCore, read by the worker. */
    var acks: seq<Ack>
    var lastKeepAliveAt: int
    /** Whether the stream is still in Peer.SharedObjects. */
    var registered: bool
    /** Every message handed to the system call sender, in order. */
    var sent: seq<Outgoing<T>>
    /** OnRun's locals, which live across its awaits. */
    var worker: Worker<T>

    ghost predicate Valid()
      reads this
    {
      && Consistent(producer, worker)
      && AllFaithful(producer, sent)
      && (status == Idle ==> worker == InitialWorker())
      && (status == Finished ==> !registered)
    }

    constructor(hostId: Guid, ackAdvance: nat, producer: Producer<T>, now: int)
      ensures Valid()
      ensures this.hostId == hostId && this.ackAdvance == ackAdvance && this.producer == producer
      ensures status == Idle && acks == [] && lastKeepAliveAt == now && registered
      ensures sent == [] && worker == InitialWorker()
    {
      this.hostId := hostId;
      this.ackAdvance := ackAdvance;
      this.producer := producer;
      status := Idle;
      acks := [];
      lastKeepAliveAt := now;
      registered := true;
      sent := [];
      worker := InitialWorker();
    }

    /** KeepAlive (lines 34-35); the clock reading is a parameter. */
    method KeepAlive(now: int)
      modifies this
      ensures lastKeepAliveAt == now
      ensures status == old(status) && acks == old(acks) && registered == old(registered)
      ensures sent == old(sent) && worker == old(worker)
    {
      lastKeepAliveAt := now;
    }

    /**
     * OnAck (lines 62-83): a reset from a foreign host or an ack the worker
     * cannot take is answered with "missing"; the first reset to 0 starts
     * the worker; otherwise the ack is queued.
     */
    method OnAck(nextIndex: int, ackHostId: Guid, now: int) returns (action: AckAction)
      requires Valid()
      modifies this
      ensures Valid()
      ensures action == DecideAck(hostId, old(status), nextIndex, ackHostId)
      ensures sent == old(sent) + (if action in {HostMismatch, SendMissing} then [Disconnect] else [])
      ensures acks == old(acks) + (if action in {StartAndEnqueue, Enqueue} then [Ack(nextIndex, ackHostId != DefaultGuid)] else [])
      ensures status == (if action == StartAndEnqueue then Running else old(status))
      ensures lastKeepAliveAt == (if action == HostMismatch then old(lastKeepAliveAt) else now)
      ensures registered == old(registered) && worker == old(worker)
    {
      var mustReset := ackHostId != DefaultGuid;
      if mustReset && hostId != ackHostId {
        sent := sent + [Disconnect];
        return HostMismatch;
      }
      lastKeepAliveAt := now;
      if status == Idle {
        if mustReset && nextIndex == 0 {
          status := Running;
          action := StartAndEnqueue;
        } else {
          sent := sent + [Disconnect];
          return SendMissing;
        }
      } else if status == Finished {
        sent := sent + [Disconnect];
        return SendMissing;
      } else {
        action := Enqueue;
      }
      acks := acks + [Ack(nextIndex, mustReset)];
    }

    /**
     * One pass of OnRun's outer loop (lines 100-183): drain the queued acks,
     * trim the buffer, and send what the window allows.  Reading the
     * sentinel ends the worker, whose finally block disposes the stream.
     */
    method RunRound(race: Race)
      requires Valid() && status == Running
      modifies this
      ensures Valid()
      ensures var r := Round(producer, ackAdvance, old(worker), old(acks), race);
        && worker == r.w
        && sent == old(sent) + r.sent
        && acks == (if r.released then r.rest + [Sentinel] else [])
        && status == (if r.released then Finished else Running)
        && registered == (old(registered) && !r.released)
      ensures lastKeepAliveAt == old(lastKeepAliveAt)
    {
      ghost var r := Round(producer, ackAdvance, worker, acks, race);
      DrainReleasesOnSentinel(worker.index, Ack(-1, false), acks);
      var d := DrainAcks(worker.index, acks);
      assert r == Respond(producer, ackAdvance, worker, d, race);
      RespondIsFaithful(producer, ackAdvance, worker, d, race);
      worker := worker.(index := d.index);
      acks := d.rest;
      if d.released {
        assert r == RoundResult(worker, [], d.rest, true);
        Dispose();
        return;
      }
      if d.ack.nextIndex < 0 {
        assert r == RoundResult(worker, [], [], false);
        assert sent + [] == sent;
        return;
      }
      var bufferOffset := Clamp(d.ack.nextIndex - worker.bufferStart, 0, |worker.buffer|);
      worker := worker.(bufferStart := worker.bufferStart + bufferOffset, buffer := worker.buffer[bufferOffset..]);
      assert worker == Trim(old(worker).(index := d.index), d.ack.nextIndex);
      var maxIndex := d.ack.nextIndex + ackAdvance;
      if worker.index < worker.bufferStart {
        assert r == RoundResult(worker, [SendInvalidPosition(worker.index)], [], false);
        sent := sent + [SendInvalidPosition(worker.index)];
        return;
      }
      var w, s := SendWindow(producer, worker, maxIndex, race);
      assert (w, s) == SendLoop(producer, worker, maxIndex, race);
      assert r == RoundResult(w, s, d.rest, false) by {
        assert Trim(old(worker).(index := d.index), d.ack.nextIndex) == worker;
      }
      assert d.rest == [];
      worker := w;
      sent := sent + s;
    }

    /**
     * DisposeAsyncCore (lines 51-60): write the sentinel in case the worker
     * still runs, stop the worker, and unregister from the peer.
     */
    method Dispose()
      requires Valid()
      modifies this
      ensures Valid()
      ensures acks == old(acks) + [Sentinel]
      ensures status == (if old(status) == Running then Finished else old(status))
      ensures !registered
      ensures sent == old(sent) && worker == old(worker) && lastKeepAliveAt == old(lastKeepAliveAt)
    {
      acks := acks + [Sentinel];
      if status == Running {
        status := Finished;
      }
      registered := false;
    }
  }
}
