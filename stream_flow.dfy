/**
 * The flow-control algorithm of RpcSharedStream<T>.OnRun
 * (src/Stl.Rpc/Infrastructure/RpcSharedStream.cs) as pure functions.
 *
 * One call of Round is one pass of OnRun's outer loop, from the label
 * `nextAck` to the next `goto nextAck` (or to the `return` on the release
 * sentinel): drain the queued acks, trim the buffer, and send what the
 * window allows.  The worker's local variables (index, bufferStart, the ring
 * buffer, isEnumerationEnded) are the Worker record; the ring buffer is a
 * sequence whose element i sits at absolute position bufferStart + i.
 * The producer is a finite sequence of items followed by how it ended, and
 * the race between "the producer yielded" and "a new ack arrived" is the
 * explicit input Race.
 */
module StreamFlow {
  import opened Wrappers

  /** long.MaxValue: the next index by which the consumer releases the stream. */
  const LongMaxValue: int := 0x7FFF_FFFF_FFFF_FFFF

  /** The errors a buffered Result<T> can hold. NoError is the end-of-sequence marker. */
  datatype StreamError =
    | NoError
    | StreamNotFound
    | InvalidPosition
    | Thrown(exceptionId: nat)

  /** Stl's Result<T>: a produced value or a captured error. */
  datatype Result<T> = Value(value: T) | Error(error: StreamError)

  /** How the producer's enumeration stops after its items. */
  datatype Ending =
    | Completed               // MoveNextAsync returned false
    | Faulted(exceptionId: nat) // MoveNextAsync threw
    | CancelledByOwnToken     // threw OperationCanceledException for the stream's own token

  datatype Producer<T> = Producer(items: seq<T>, ending: Ending)

  /** One queued acknowledgement: (NextIndex, MustReset). */
  datatype Ack = Ack(nextIndex: int, mustReset: bool)

  /** A message the stream hands to the system call sender. */
  datatype Outgoing<T> =
    | Item(index: int, value: T)
    | End(index: int, error: Option<StreamError>)
    | Disconnect              // "send missing": the remote must forget this stream id

  /** The worker's state: OnRun's local variables. */
  datatype Worker<T> = Worker(index: int, bufferStart: nat, buffer: seq<Result<T>>, isEnumerationEnded: bool)

  /** Whether a new ack wins the race against the producer, and after how many pulls. */
  datatype Race = NoAck | AckAfterPulls(pulls: nat)

  function InitialWorker<T>(): Worker<T> {
    Worker(0, 0, [], false)
  }

  /** The result captured when the producer stops (lines 164-172 of the source). */
  function TerminalItem<T>(p: Producer<T>): (r: Result<T>)
    ensures r.Error?
    ensures r.error == NoError <==> p.ending == Completed
  {
    match p.ending
    case Completed => Error(NoError)
    case Faulted(e) => Error(Thrown(e))
    case CancelledByOwnToken => Error(StreamNotFound)
  }

  /** What the k-th pull from the producer (0-based) yields. */
  function ItemAt<T>(p: Producer<T>, k: nat): Result<T> {
    if k < |p.items| then Value(p.items[k]) else TerminalItem(p)
  }

  /** The number of pulls done so far: every pulled item went into the buffer. */
  function Produced<T>(w: Worker<T>): nat {
    w.bufferStart + |w.buffer|
  }

  /** Send(index, item): Item for a value, End otherwise; NoError travels as a null error. */
  function Send<T>(index: int, item: Result<T>): (m: Outgoing<T>)
    ensures !m.Disconnect? && m.index == index
    ensures m.Item? <==> item.Value?
    ensures m.End? ==> (m.error.None? <==> item.error == NoError)
  {
    match item
    case Value(v) => Item(index, v)
    case Error(e) => End(index, if e == NoError then None else Some(e))
  }

  /** SendInvalidPosition (lines 194-195): an End at index carrying InvalidPosition. */
  function SendInvalidPosition<T>(index: int): (m: Outgoing<T>)
    ensures m == End(index, Some(InvalidPosition))
  {
    Send(index, Error(InvalidPosition))
  }

  // ---------------------------------------------------------------------
  // 1. Draining the ack queue (lines 103-119)

  datatype Drained = Drained(index: int, ack: Ack, rest: seq<Ack>, released: bool)

  /**
   * Reads the queued acks in order, keeping the last one read in `ack`.
   * The sentinel stops the worker at once (`released`) and leaves the acks
   * behind it unread; any other ack moves `index` to its NextIndex when it
   * is a reset or ahead of `index`.
   */
  function Drain(index: int, ack: Ack, acks: seq<Ack>): Drained
    decreases |acks|
  {
    if acks == [] then Drained(index, ack, [], false)
    else if acks[0].nextIndex == LongMaxValue then Drained(index, acks[0], acks[1..], true)
    else
      var next := if acks[0].mustReset || index < acks[0].nextIndex then acks[0].nextIndex else index;
      Drain(next, acks[0], acks[1..])
  }

  // ---------------------------------------------------------------------
  // 2. Trimming the buffer (lines 122-124)

  function Clamp(x: int, lo: int, hi: int): (r: int)
    requires lo <= hi
    ensures lo <= r <= hi
    ensures lo <= x <= hi ==> r == x
    ensures x < lo ==> r == lo
    ensures hi < x ==> r == hi
  {
    if x < lo then lo else if x > hi then hi else x
  }

  /**
   * Drops the buffered items before nextIndex, as far as the buffer reaches:
   * bufferStart moves forward by exactly the number of items dropped.
   */
  function Trim<T>(w: Worker<T>, nextIndex: int): (r: Worker<T>)
    ensures r.index == w.index && r.isEnumerationEnded == w.isEnumerationEnded
    ensures w.bufferStart <= r.bufferStart <= Produced(w)
    ensures Produced(r) == Produced(w)
    ensures w.bufferStart <= nextIndex <= Produced(w) ==> r.bufferStart == nextIndex
    ensures w.bufferStart <= nextIndex ==> r.bufferStart <= nextIndex
    ensures nextIndex <= w.bufferStart ==> r == w
    ensures Produced(w) <= nextIndex ==> r.buffer == []
  {
    var bufferOffset := Clamp(nextIndex - w.bufferStart, 0, |w.buffer|);
    w.(bufferStart := w.bufferStart + bufferOffset, buffer := w.buffer[bufferOffset..])
  }

  /** Trimming keeps the buffer's tail: the items from the new bufferStart on, unchanged. */
  lemma TrimKeepsTail<T>(w: Worker<T>, nextIndex: int)
    ensures var r := Trim(w, nextIndex);
      r.buffer == w.buffer[r.bufferStart - w.bufferStart..]
  {
  }

  // ---------------------------------------------------------------------
  // 3. Pulling from the producer (lines 140-176) and sending (lines 134-182)

  /** The race after one more pull: an ack due after n pulls is now due after n - 1. */
  function AfterPull(race: Race): Race
    requires race != AckAfterPulls(0)
  {
    if race.AckAfterPulls? then AckAfterPulls(race.pulls - 1) else NoAck
  }

  /**
   * One pull: the producer's next item goes to the buffer's tail, and an
   * error item (the terminal one) marks the enumeration as ended.
   */
  function Pull<T>(p: Producer<T>, w: Worker<T>): (r: Worker<T>)
    ensures r.index == w.index && r.bufferStart == w.bufferStart
    ensures Produced(r) == Produced(w) + 1
  {
    var item := ItemAt(p, Produced(w));
    w.(buffer := w.buffer + [item], isEnumerationEnded := w.isEnumerationEnded || item.Error?)
  }

  /**
   * Sends positions index, index + 1, ... below maxIndex, each taken from the
   * buffer at index - bufferStart.  A position not buffered yet is pulled
   * for first, one item at a time; before each pull the loop gives up with
   * InvalidPosition when the enumeration has ended, or silently when a new
   * ack wins the race.  Sending an error item ends the loop.
   */
  function SendLoop<T>(p: Producer<T>, w: Worker<T>, maxIndex: int, race: Race): (r: (Worker<T>, seq<Outgoing<T>>))
    requires w.bufferStart <= w.index
    ensures r.0.bufferStart == w.bufferStart && Produced(w) <= Produced(r.0)
    ensures w.index <= r.0.index
    decreases maxIndex - w.index, w.index + 1 - Produced(w)
  {
    if w.index >= maxIndex then (w, [])
    else if w.index < Produced(w) then
      var item := w.buffer[w.index - w.bufferStart];
      var w2 := w.(index := w.index + 1);
      if item.Error? then (w2, [Send(w.index, item)])
      else
        var rest := SendLoop(p, w2, maxIndex, race);
        (rest.0, [Send(w.index, item)] + rest.1)
    else if w.isEnumerationEnded then (w, [SendInvalidPosition(w.index)])
    else if race == AckAfterPulls(0) then (w, [])
    else SendLoop(p, Pull(p, w), maxIndex, AfterPull(race))
  }

  // ---------------------------------------------------------------------
  // One pass of the outer loop

  datatype RoundResult<T> = RoundResult(w: Worker<T>, sent: seq<Outgoing<T>>, rest: seq<Ack>, released: bool)

  /**
   * What a pass does once the acks are drained (lines 118-182): nothing
   * without an ack or after the sentinel; otherwise trim, then either report
   * an index that fell before the buffer or run the send loop.
   */
  function Respond<T>(p: Producer<T>, ackAdvance: nat, w: Worker<T>, d: Drained, race: Race): RoundResult<T> {
    var w1 := w.(index := d.index);
    if d.released then RoundResult(w1, [], d.rest, true)
    else if d.ack.nextIndex < 0 then RoundResult(w1, [], d.rest, false)
    else
      var w2 := Trim(w1, d.ack.nextIndex);
      var maxIndex := d.ack.nextIndex + ackAdvance;
      if w2.index < w2.bufferStart then RoundResult(w2, [SendInvalidPosition(w2.index)], d.rest, false)
      else
        var r := SendLoop(p, w2, maxIndex, race);
        RoundResult(r.0, r.1, d.rest, false)
  }

  /** One pass of the outer loop, from the label nextAck to the next `goto nextAck`. */
  function Round<T>(p: Producer<T>, ackAdvance: nat, w: Worker<T>, acks: seq<Ack>, race: Race): RoundResult<T> {
    Respond(p, ackAdvance, w, Drain(w.index, Ack(-1, false), acks), race)
  }

  // =====================================================================
  // Invariants and their preservation

  /**
   * The buffer holds exactly what the producer yielded at its absolute
   * positions, nothing is pulled after the terminal item, and the
   * isEnumerationEnded flag says whether the terminal item was pulled.
   */
  ghost predicate Consistent<T>(p: Producer<T>, w: Worker<T>) {
    && Produced(w) <= |p.items| + 1
    && (w.isEnumerationEnded <==> Produced(w) > |p.items|)
    && w.buffer == Pulled(p, w.bufferStart, |w.buffer|)
  }

  /** The `count` items the producer yields from pull number `start` on. */
  function Pulled<T>(p: Producer<T>, start: nat, count: nat): (r: seq<Result<T>>)
    ensures |r| == count
  {
    seq(count, i requires 0 <= i < count => ItemAt(p, start + i))
  }

  lemma PulledSnoc<T>(p: Producer<T>, start: nat, count: nat)
    ensures Pulled(p, start, count + 1) == Pulled(p, start, count) + [ItemAt(p, start + count)]
  {
  }

  lemma PulledDrop<T>(p: Producer<T>, start: nat, count: nat, k: nat)
    requires k <= count
    ensures Pulled(p, start, count)[k..] == Pulled(p, start + k, count - k)
  {
  }

  /** The error an End at the sequence's end carries: none for a normal completion. */
  function EndError<T>(p: Producer<T>): Option<StreamError> {
    match p.ending
    case Completed => None
    case Faulted(e) => Some(Thrown(e))
    case CancelledByOwnToken => Some(StreamNotFound)
  }

  /** A message carries the producer's data for its position, or reports an invalid position. */
  ghost predicate Faithful<T>(p: Producer<T>, m: Outgoing<T>) {
    match m
    case Item(i, v) => 0 <= i < |p.items| && p.items[i] == v
    case End(i, e) => e == Some(InvalidPosition) || (i == |p.items| && e == EndError(p))
    case Disconnect => true
  }

  ghost predicate AllFaithful<T>(p: Producer<T>, ms: seq<Outgoing<T>>) {
    forall k :: 0 <= k < |ms| ==> Faithful(p, ms[k])
  }

  /** A pull keeps the buffer consistent: it appends exactly the producer's next item. */
  lemma PullConsistent<T>(p: Producer<T>, w: Worker<T>)
    requires Consistent(p, w) && !w.isEnumerationEnded
    ensures Consistent(p, Pull(p, w))
  {
    PulledSnoc(p, w.bufferStart, |w.buffer|);
  }

  lemma TrimConsistent<T>(p: Producer<T>, w: Worker<T>, nextIndex: int)
    requires Consistent(p, w)
    ensures Consistent(p, Trim(w, nextIndex))
  {
    var r := Trim(w, nextIndex);
    var k := r.bufferStart - w.bufferStart;
    PulledDrop(p, w.bufferStart, |w.buffer|, k);
    assert r.buffer == Pulled(p, r.bufferStart, |r.buffer|);
  }

  /** The send loop keeps the buffer consistent with the producer. */
  lemma {:induction false} SendLoopConsistent<T>(p: Producer<T>, w: Worker<T>, maxIndex: int, race: Race)
    requires Consistent(p, w) && w.bufferStart <= w.index
    ensures Consistent(p, SendLoop(p, w, maxIndex, race).0)
    decreases maxIndex - w.index, w.index + 1 - Produced(w)
  {
    if w.index < maxIndex {
      if w.index < Produced(w) {
        if w.buffer[w.index - w.bufferStart].Value? {
          SendLoopConsistent(p, w.(index := w.index + 1), maxIndex, race);
        }
      } else if !w.isEnumerationEnded && race != AckAfterPulls(0) {
        PullConsistent(p, w);
        SendLoopConsistent(p, Pull(p, w), maxIndex, AfterPull(race));
      }
    }
  }

  /**
   * Every message the send loop emits is faithful to a producer the buffer
   * is consistent with.
   */
  lemma {:induction false} SendLoopFaithful<T>(p: Producer<T>, w: Worker<T>, maxIndex: int, race: Race)
    requires Consistent(p, w) && w.bufferStart <= w.index
    ensures AllFaithful(p, SendLoop(p, w, maxIndex, race).1)
    decreases maxIndex - w.index, w.index + 1 - Produced(w)
  {
    if w.index < maxIndex {
      if w.index < Produced(w) {
        var item := w.buffer[w.index - w.bufferStart];
        SendItemFaithful(p, w, w.index - w.bufferStart);
        if item.Value? {
          var w2 := w.(index := w.index + 1);
          SendLoopFaithful(p, w2, maxIndex, race);
          AllFaithfulAppend(p, [Send(w.index, item)], SendLoop(p, w2, maxIndex, race).1);
        }
      } else if !w.isEnumerationEnded && race != AckAfterPulls(0) {
        PullConsistent(p, w);
        SendLoopFaithful(p, Pull(p, w), maxIndex, AfterPull(race));
      }
    }
  }

  lemma AllFaithfulAppend<T>(p: Producer<T>, a: seq<Outgoing<T>>, b: seq<Outgoing<T>>)
    requires AllFaithful(p, a) && AllFaithful(p, b)
    ensures AllFaithful(p, a + b)
  {
    forall k | 0 <= k < |a + b| ensures Faithful(p, (a + b)[k]) {
      if k < |a| { assert (a + b)[k] == a[k]; } else { assert (a + b)[k] == b[k - |a|]; }
    }
  }

  /**
   * The send loop seen from a caller that has already sent `done`: after
   * sending a buffered value it continues from the next position.
   */
  lemma SendLoopContinues<T>(p: Producer<T>, w: Worker<T>, maxIndex: int, race: Race, done: seq<Outgoing<T>>)
    requires w.bufferStart <= w.index < maxIndex && w.index < Produced(w)
    requires w.buffer[w.index - w.bufferStart].Value?
    ensures var item := w.buffer[w.index - w.bufferStart];
      var r := SendLoop(p, w, maxIndex, race);
      var rest := SendLoop(p, w.(index := w.index + 1), maxIndex, race);
      (r.0, done + r.1) == (rest.0, (done + [Send(w.index, item)]) + rest.1)
  {
    var item := w.buffer[w.index - w.bufferStart];
    var rest := SendLoop(p, w.(index := w.index + 1), maxIndex, race);
    assert done + ([Send(w.index, item)] + rest.1) == (done + [Send(w.index, item)]) + rest.1;
  }

  /** The item at index - bufferStart of a consistent buffer is sent faithfully. */
  lemma SendItemFaithful<T>(p: Producer<T>, w: Worker<T>, bufferIndex: int)
    requires Consistent(p, w) && 0 <= bufferIndex < |w.buffer|
    ensures Faithful(p, Send(w.bufferStart + bufferIndex, w.buffer[bufferIndex]))
  {
    assert w.buffer[bufferIndex] == ItemAt(p, w.bufferStart + bufferIndex);
  }

  /**
   * The Ends are exact: InvalidPosition is reported only past the terminal
   * item, and an End at the sequence's end carries how the producer ended.
   */
  ghost predicate ExactEnds<T>(p: Producer<T>, ms: seq<Outgoing<T>>) {
    forall k :: 0 <= k < |ms| && ms[k].End? ==>
      && (ms[k].error == Some(InvalidPosition) ==> |p.items| < ms[k].index)
      && (ms[k].index == |p.items| ==> ms[k].error == EndError(p))
  }

  lemma ExactEndsCons<T>(p: Producer<T>, m: Outgoing<T>, ms: seq<Outgoing<T>>)
    requires m.Item? && ExactEnds(p, ms)
    ensures ExactEnds(p, [m] + ms)
  {
    forall k | 0 < k < |[m] + ms| ensures ([m] + ms)[k] == ms[k - 1] { }
  }

  /**
   * The send loop reports InvalidPosition only for a position past the
   * terminal item, and the End it sends at the sequence's end is the
   * producer's own ending.
   */
  lemma {:induction false} SendLoopEndsExact<T>(p: Producer<T>, w: Worker<T>, maxIndex: int, race: Race)
    requires Consistent(p, w) && w.bufferStart <= w.index
    ensures ExactEnds(p, SendLoop(p, w, maxIndex, race).1)
    decreases maxIndex - w.index, w.index + 1 - Produced(w)
  {
    if w.index < maxIndex {
      if w.index < Produced(w) {
        var item := w.buffer[w.index - w.bufferStart];
        assert item == ItemAt(p, w.index);
        if item.Value? {
          var w2 := w.(index := w.index + 1);
          SendLoopEndsExact(p, w2, maxIndex, race);
          ExactEndsCons(p, Send(w.index, item), SendLoop(p, w2, maxIndex, race).1);
        } else {
          assert w.index == |p.items| && item == TerminalItem(p);
        }
      } else if !w.isEnumerationEnded && race != AckAfterPulls(0) {
        PullConsistent(p, w);
        SendLoopEndsExact(p, Pull(p, w), maxIndex, AfterPull(race));
      }
    }
  }

  // =====================================================================
  // Draining

  /**
   * The worker is released exactly when the batch holds the sentinel; a
   * batch without it is read completely, and the ack kept is its last one.
   */
  lemma {:induction false} DrainReleasesOnSentinel(index: int, ack: Ack, acks: seq<Ack>)
    ensures var d := Drain(index, ack, acks);
      && (d.released <==> exists i :: 0 <= i < |acks| && acks[i].nextIndex == LongMaxValue)
      && (d.released ==> d.ack.nextIndex == LongMaxValue)
      && (d.released ==> exists i :: FirstSentinelAt(acks, i) && d.ack == acks[i] && d.rest == acks[i + 1..])
      && (!d.released ==> d.rest == [] && d.ack == (if acks == [] then ack else acks[|acks| - 1]))
    decreases |acks|
  {
    if acks == [] {
    } else if acks[0].nextIndex == LongMaxValue {
      assert FirstSentinelAt(acks, 0);
    } else {
      var next := if acks[0].mustReset || index < acks[0].nextIndex then acks[0].nextIndex else index;
      var d := Drain(next, acks[0], acks[1..]);
      assert Drain(index, ack, acks) == d;
      DrainReleasesOnSentinel(next, acks[0], acks[1..]);
      if d.released {
        var k :| FirstSentinelAt(acks[1..], k) && d.ack == acks[1..][k] && d.rest == acks[1..][k + 1..];
        FirstSentinelShift(acks, k);
        assert acks[1..][k + 1..] == acks[k + 2..];
        assert acks[k + 1].nextIndex == LongMaxValue;
      } else {
        forall i | 0 <= i < |acks| ensures acks[i].nextIndex != LongMaxValue {
          if i > 0 { assert acks[i] == acks[1..][i - 1]; }
        }
        if |acks| > 1 { assert acks[1..][|acks| - 2] == acks[|acks| - 1]; }
      }
    }
  }

  /** Position i holds the first sentinel of the batch. */
  ghost predicate FirstSentinelAt(acks: seq<Ack>, i: int) {
    && 0 <= i < |acks| && acks[i].nextIndex == LongMaxValue
    && forall j :: 0 <= j < i ==> acks[j].nextIndex != LongMaxValue
  }

  lemma FirstSentinelShift(acks: seq<Ack>, k: int)
    requires acks != [] && acks[0].nextIndex != LongMaxValue && FirstSentinelAt(acks[1..], k)
    ensures FirstSentinelAt(acks, k + 1) && acks[k + 1] == acks[1..][k]
  {
    forall j | 0 <= j < k + 1 ensures acks[j].nextIndex != LongMaxValue {
      if j > 0 { assert acks[j] == acks[1..][j - 1]; }
    }
  }

  /**
   * Without resets, draining never moves index backward, and afterwards
   * index is at least every NextIndex read.
   */
  lemma {:induction false} DrainNeverBacksUpWithoutReset(index: int, ack: Ack, acks: seq<Ack>)
    requires forall i :: 0 <= i < |acks| ==> !acks[i].mustReset
    ensures var d := Drain(index, ack, acks);
      && index <= d.index
      && (!d.released ==> forall i :: 0 <= i < |acks| ==> acks[i].nextIndex <= d.index)
    decreases |acks|
  {
    if acks != [] && acks[0].nextIndex != LongMaxValue {
      var next := if acks[0].mustReset || index < acks[0].nextIndex then acks[0].nextIndex else index;
      DrainNeverBacksUpWithoutReset(next, acks[0], acks[1..]);
      var d := Drain(next, acks[0], acks[1..]);
      if !d.released {
        forall i | 0 <= i < |acks| ensures acks[i].nextIndex <= d.index {
          if i > 0 { assert acks[1..][i - 1] == acks[i]; }
        }
      }
    }
  }

  /** Draining only ever sets index to the NextIndex of an ack it read. */
  lemma {:induction false} DrainIndexComesFromAnAck(index: int, ack: Ack, acks: seq<Ack>)
    ensures var d := Drain(index, ack, acks);
      d.index == index || exists i :: 0 <= i < |acks| && acks[i].nextIndex == d.index
    decreases |acks|
  {
    if acks != [] && acks[0].nextIndex != LongMaxValue {
      var next := if acks[0].mustReset || index < acks[0].nextIndex then acks[0].nextIndex else index;
      DrainIndexComesFromAnAck(next, acks[0], acks[1..]);
      var d := Drain(next, acks[0], acks[1..]);
      if d.index != next {
        var i :| 0 <= i < |acks[1..]| && acks[1..][i].nextIndex == d.index;
        assert acks[i + 1].nextIndex == d.index;
      }
    }
  }

  /** A batch that ends with a reset (and holds no sentinel) leaves index exactly at that reset's NextIndex. */
  lemma {:induction false} DrainEndsAtLastReset(index: int, ack: Ack, acks: seq<Ack>)
    requires acks != [] && acks[|acks| - 1].mustReset
    requires forall i :: 0 <= i < |acks| ==> acks[i].nextIndex != LongMaxValue
    ensures Drain(index, ack, acks).index == acks[|acks| - 1].nextIndex
    decreases |acks|
  {
    var next := if acks[0].mustReset || index < acks[0].nextIndex then acks[0].nextIndex else index;
    if |acks| > 1 {
      assert acks[1..][|acks| - 2] == acks[|acks| - 1];
      forall i | 0 <= i < |acks[1..]| ensures acks[1..][i].nextIndex != LongMaxValue {
        assert acks[1..][i] == acks[i + 1];
      }
      DrainEndsAtLastReset(next, acks[0], acks[1..]);
    }
  }

  // =====================================================================
  // The send loop: order, window, termination

  /** Messages go to consecutive positions from `start` on. */
  ghost predicate Consecutive<T>(ms: seq<Outgoing<T>>, start: int) {
    forall k :: 0 <= k < |ms| ==> !ms[k].Disconnect? && ms[k].index == start + k
  }

  /** Every message but the last is an Item: nothing follows an End. */
  ghost predicate EndsOnlyLast<T>(ms: seq<Outgoing<T>>) {
    forall k :: 0 <= k < |ms| - 1 ==> ms[k].Item?
  }

  lemma ConsecutiveCons<T>(m: Outgoing<T>, ms: seq<Outgoing<T>>, start: int)
    requires !m.Disconnect? && m.index == start && Consecutive(ms, start + 1)
    ensures Consecutive([m] + ms, start)
  {
    forall k | 0 < k < |[m] + ms| ensures ([m] + ms)[k] == ms[k - 1] { }
  }

  lemma EndsOnlyLastCons<T>(m: Outgoing<T>, ms: seq<Outgoing<T>>)
    requires m.Item? && EndsOnlyLast(ms)
    ensures EndsOnlyLast([m] + ms)
  {
    forall k | 0 < k < |[m] + ms| ensures ([m] + ms)[k] == ms[k - 1] { }
  }

  /**
   * Sends go to consecutive positions starting at index, all below
   * maxIndex.
   */
  lemma {:induction false} SendLoopConsecutive<T>(p: Producer<T>, w: Worker<T>, maxIndex: int, race: Race)
    requires w.bufferStart <= w.index
    ensures var r := SendLoop(p, w, maxIndex, race);
      Consecutive(r.1, w.index) && (r.1 == [] || w.index + |r.1| <= maxIndex)
    decreases maxIndex - w.index, w.index + 1 - Produced(w)
  {
    if w.index < maxIndex {
      if w.index < Produced(w) {
        var item := w.buffer[w.index - w.bufferStart];
        if item.Value? {
          var w2 := w.(index := w.index + 1);
          SendLoopConsecutive(p, w2, maxIndex, race);
          ConsecutiveCons(Send(w.index, item), SendLoop(p, w2, maxIndex, race).1, w.index);
        }
      } else if !w.isEnumerationEnded && race != AckAfterPulls(0) {
        SendLoopConsecutive(p, Pull(p, w), maxIndex, AfterPull(race));
      }
    }
  }

  /** Only the last message of the send loop can be an End: sending a terminal item ends the loop. */
  lemma {:induction false} SendLoopOnlyLastIsEnd<T>(p: Producer<T>, w: Worker<T>, maxIndex: int, race: Race)
    requires w.bufferStart <= w.index
    ensures EndsOnlyLast(SendLoop(p, w, maxIndex, race).1)
    decreases maxIndex - w.index, w.index + 1 - Produced(w)
  {
    if w.index < maxIndex {
      if w.index < Produced(w) {
        var item := w.buffer[w.index - w.bufferStart];
        if item.Value? {
          var w2 := w.(index := w.index + 1);
          SendLoopOnlyLastIsEnd(p, w2, maxIndex, race);
          EndsOnlyLastCons(Send(w.index, item), SendLoop(p, w2, maxIndex, race).1);
        }
      } else if !w.isEnumerationEnded && race != AckAfterPulls(0) {
        SendLoopOnlyLastIsEnd(p, Pull(p, w), maxIndex, AfterPull(race));
      }
    }
  }

  /**
   * index ends at most one past each position sent, and exactly past the
   * last one when the loop did not stop on an End.
   */
  lemma {:induction false} SendLoopAdvancesIndex<T>(p: Producer<T>, w: Worker<T>, maxIndex: int, race: Race)
    requires w.bufferStart <= w.index
    ensures var r := SendLoop(p, w, maxIndex, race);
      w.index + |r.1| - 1 <= r.0.index <= w.index + |r.1|
    decreases maxIndex - w.index, w.index + 1 - Produced(w)
  {
    if w.index < maxIndex {
      if w.index < Produced(w) {
        if w.buffer[w.index - w.bufferStart].Value? {
          SendLoopAdvancesIndex(p, w.(index := w.index + 1), maxIndex, race);
        }
      } else if !w.isEnumerationEnded && race != AckAfterPulls(0) {
        SendLoopAdvancesIndex(p, Pull(p, w), maxIndex, AfterPull(race));
      }
    }
  }

  /** The last message is not an Item: the loop stopped on an End. */
  ghost predicate StoppedOnEnd<T>(ms: seq<Outgoing<T>>) {
    ms != [] && !ms[|ms| - 1].Item?
  }

  lemma StoppedOnEndCons<T>(m: Outgoing<T>, ms: seq<Outgoing<T>>)
    requires ms != []
    ensures StoppedOnEnd([m] + ms) == StoppedOnEnd(ms)
  {
    assert ([m] + ms)[|ms|] == ms[|ms| - 1];
  }

  /** When the loop did not stop on an End, index ends just past the last position sent. */
  lemma {:induction false} SendLoopIndexPastLastItem<T>(p: Producer<T>, w: Worker<T>, maxIndex: int, race: Race)
    requires w.bufferStart <= w.index
    ensures var r := SendLoop(p, w, maxIndex, race);
      !StoppedOnEnd(r.1) ==> r.0.index == w.index + |r.1|
    decreases maxIndex - w.index, w.index + 1 - Produced(w)
  {
    if w.index < maxIndex {
      if w.index < Produced(w) {
        var item := w.buffer[w.index - w.bufferStart];
        if item.Value? {
          var w2 := w.(index := w.index + 1);
          SendLoopIndexPastLastItem(p, w2, maxIndex, race);
          var rest := SendLoop(p, w2, maxIndex, race);
          if rest.1 != [] {
            StoppedOnEndCons(Send(w.index, item), rest.1);
          }
        }
      } else if !w.isEnumerationEnded && race != AckAfterPulls(0) {
        SendLoopIndexPastLastItem(p, Pull(p, w), maxIndex, AfterPull(race));
      }
    }
  }

  /**
   * Once the terminal item is buffered nothing more is pulled: the buffer
   * is the same after the loop, and the flag stays set.
   */
  lemma {:induction false} SendLoopPullsNothingAfterEnd<T>(p: Producer<T>, w: Worker<T>, maxIndex: int, race: Race)
    requires w.bufferStart <= w.index && w.isEnumerationEnded
    ensures var r := SendLoop(p, w, maxIndex, race);
      r.0.isEnumerationEnded && r.0.buffer == w.buffer
    decreases maxIndex - w.index
  {
    if w.index < maxIndex && w.index < Produced(w) && w.buffer[w.index - w.bufferStart].Value? {
      SendLoopPullsNothingAfterEnd(p, w.(index := w.index + 1), maxIndex, race);
    }
  }

  /**
   * The loop buffers no further than the window: the buffer ends up no
   * longer than it was, or than the distance from bufferStart to maxIndex.
   */
  lemma {:induction false} SendLoopBufferBound<T>(p: Producer<T>, w: Worker<T>, maxIndex: int, race: Race)
    requires w.bufferStart <= w.index
    ensures var r := SendLoop(p, w, maxIndex, race);
      |r.0.buffer| <= |w.buffer| || |r.0.buffer| <= maxIndex - w.bufferStart
    decreases maxIndex - w.index, w.index + 1 - Produced(w)
  {
    if w.index < maxIndex {
      if w.index < Produced(w) {
        if w.buffer[w.index - w.bufferStart].Value? {
          SendLoopBufferBound(p, w.(index := w.index + 1), maxIndex, race);
        }
      } else if !w.isEnumerationEnded && race != AckAfterPulls(0) {
        SendLoopBufferBound(p, Pull(p, w), maxIndex, AfterPull(race));
      }
    }
  }

  /** A position past the terminal item, inside the window, is answered with InvalidPosition alone. */
  lemma PastTerminalGetsInvalidPosition<T>(p: Producer<T>, w: Worker<T>, maxIndex: int, race: Race)
    requires w.isEnumerationEnded && w.bufferStart <= Produced(w) <= w.index < maxIndex
    ensures SendLoop(p, w, maxIndex, race) == (w, [SendInvalidPosition(w.index)])
  {
  }

  // =====================================================================
  // Properties of one pass, for any drained state

  /**
   * A pass keeps the buffer consistent with the producer and sends only
   * faithful messages: an Item at position i carries the producer's i-th
   * item, and an End is either the terminal result at the sequence's end or
   * an InvalidPosition report.
   */
  lemma RespondIsFaithful<T>(p: Producer<T>, ackAdvance: nat, w: Worker<T>, d: Drained, race: Race)
    requires Consistent(p, w)
    ensures var r := Respond(p, ackAdvance, w, d, race);
      Consistent(p, r.w) && AllFaithful(p, r.sent)
  {
    var r := Respond(p, ackAdvance, w, d, race);
    var w1 := w.(index := d.index);
    assert Consistent(p, w1);
    if d.released || d.ack.nextIndex < 0 {
      assert r.w == w1 && r.sent == [];
    } else {
      TrimConsistent(p, w1, d.ack.nextIndex);
      var w2 := Trim(w1, d.ack.nextIndex);
      if w2.bufferStart <= w2.index {
        var s := SendLoop(p, w2, d.ack.nextIndex + ackAdvance, race);
        assert r.w == s.0 && r.sent == s.1;
        SendLoopConsistent(p, w2, d.ack.nextIndex + ackAdvance, race);
        SendLoopFaithful(p, w2, d.ack.nextIndex + ackAdvance, race);
      } else {
        assert r.w == w2 && r.sent == [SendInvalidPosition(w2.index)];
      }
    }
  }

  /**
   * A pass reports InvalidPosition only for a position past the terminal
   * item or, alone, for a drained index that fell before the trimmed buffer;
   * in every other case its Ends are exact.
   */
  lemma RespondEndsExact<T>(p: Producer<T>, ackAdvance: nat, w: Worker<T>, d: Drained, race: Race)
    requires Consistent(p, w)
    ensures var r := Respond(p, ackAdvance, w, d, race);
      var beforeBuffer := !d.released && 0 <= d.ack.nextIndex && d.index < Trim(w.(index := d.index), d.ack.nextIndex).bufferStart;
      !beforeBuffer ==> ExactEnds(p, r.sent)
  {
    var r := Respond(p, ackAdvance, w, d, race);
    var w1 := w.(index := d.index);
    assert Consistent(p, w1);
    if d.released || d.ack.nextIndex < 0 {
      assert r.sent == [];
    } else {
      TrimConsistent(p, w1, d.ack.nextIndex);
      var w2 := Trim(w1, d.ack.nextIndex);
      if w2.bufferStart <= w2.index {
        var s := SendLoop(p, w2, d.ack.nextIndex + ackAdvance, race);
        assert r.sent == s.1;
        SendLoopEndsExact(p, w2, d.ack.nextIndex + ackAdvance, race);
      }
    }
  }

  /**
   * Sends within a pass go to consecutive positions starting at the drained
   * index; every Item lies inside the window NextIndex + AckAdvance; only the
   * last message can be an End.  When index fell behind the trimmed buffer,
   * the pass sends exactly one InvalidPosition at index.
   */
  lemma RespondSendsConsecutively<T>(p: Producer<T>, ackAdvance: nat, w: Worker<T>, d: Drained, race: Race)
    ensures var r := Respond(p, ackAdvance, w, d, race);
      && Consecutive(r.sent, d.index)
      && EndsOnlyLast(r.sent)
      && (forall k :: 0 <= k < |r.sent| && r.sent[k].Item? ==> r.sent[k].index < d.ack.nextIndex + ackAdvance)
      && (!d.released && 0 <= d.ack.nextIndex && d.index < Trim(w.(index := d.index), d.ack.nextIndex).bufferStart
          ==> r.sent == [SendInvalidPosition(d.index)])
  {
    var r := Respond(p, ackAdvance, w, d, race);
    var w1 := w.(index := d.index);
    if d.released || d.ack.nextIndex < 0 {
      assert r.sent == [];
    } else {
      var w2 := Trim(w1, d.ack.nextIndex);
      if w2.bufferStart <= w2.index {
        var s := SendLoop(p, w2, d.ack.nextIndex + ackAdvance, race);
        assert r.sent == s.1;
        SendLoopConsecutive(p, w2, d.ack.nextIndex + ackAdvance, race);
        SendLoopOnlyLastIsEnd(p, w2, d.ack.nextIndex + ackAdvance, race);
      } else {
        assert r.sent == [SendInvalidPosition(d.index)];
      }
    }
  }

  /**
   * Every Item a pass sends lies between the drained index and the index
   * the pass ends with, so the next pass starts past it.
   */
  lemma RespondItemsBetween<T>(p: Producer<T>, ackAdvance: nat, w: Worker<T>, d: Drained, race: Race)
    ensures var r := Respond(p, ackAdvance, w, d, race);
      && d.index <= r.w.index
      && forall k :: 0 <= k < |r.sent| && r.sent[k].Item? ==> d.index <= r.sent[k].index < r.w.index
  {
    var r := Respond(p, ackAdvance, w, d, race);
    RespondSendsConsecutively(p, ackAdvance, w, d, race);
    if !d.released && d.ack.nextIndex >= 0 {
      var w2 := Trim(w.(index := d.index), d.ack.nextIndex);
      if w2.bufferStart <= w2.index {
        var s := SendLoop(p, w2, d.ack.nextIndex + ackAdvance, race);
        assert r.sent == s.1 && r.w == s.0;
        SendLoopAdvancesIndex(p, w2, d.ack.nextIndex + ackAdvance, race);
        SendLoopIndexPastLastItem(p, w2, d.ack.nextIndex + ackAdvance, race);
      } else {
        assert r.w == w2;
      }
    }
  }

  /**
   * bufferStart never moves backward, and nothing pulled is forgotten: the
   * number of pulls never decreases.
   */
  lemma RespondMonotone<T>(p: Producer<T>, ackAdvance: nat, w: Worker<T>, d: Drained, race: Race)
    ensures var r := Respond(p, ackAdvance, w, d, race);
      w.bufferStart <= r.w.bufferStart && Produced(w) <= Produced(r.w)
  {
    var r := Respond(p, ackAdvance, w, d, race);
    var w1 := w.(index := d.index);
    if d.released || d.ack.nextIndex < 0 {
      assert r.w == w1;
    } else {
      var w2 := Trim(w1, d.ack.nextIndex);
      if w2.bufferStart <= w2.index {
        var s := SendLoop(p, w2, d.ack.nextIndex + ackAdvance, race);
        assert r.w == s.0;
      } else {
        assert r.w == w2;
      }
    }
  }

  /** Once the terminal item is buffered, a pass pulls nothing more from the producer. */
  lemma RespondPullsNothingAfterEnd<T>(p: Producer<T>, ackAdvance: nat, w: Worker<T>, d: Drained, race: Race)
    requires w.isEnumerationEnded
    ensures var r := Respond(p, ackAdvance, w, d, race);
      r.w.isEnumerationEnded && Produced(r.w) == Produced(w)
  {
    var r := Respond(p, ackAdvance, w, d, race);
    var w1 := w.(index := d.index);
    if d.released || d.ack.nextIndex < 0 {
      assert r.w == w1;
    } else {
      var w2 := Trim(w1, d.ack.nextIndex);
      if w2.bufferStart <= w2.index {
        var s := SendLoop(p, w2, d.ack.nextIndex + ackAdvance, race);
        assert r.w == s.0;
        SendLoopPullsNothingAfterEnd(p, w2, d.ack.nextIndex + ackAdvance, race);
      } else {
        assert r.w == w2;
      }
    }
  }

  /**
   * The buffer never holds more than AckAdvance + 1 items, provided the
   * acknowledged position does not run ahead of what was produced.
   */
  lemma RespondBufferBound<T>(p: Producer<T>, ackAdvance: nat, w: Worker<T>, d: Drained, race: Race)
    requires |w.buffer| <= ackAdvance + 1 && d.ack.nextIndex <= Produced(w)
    ensures |Respond(p, ackAdvance, w, d, race).w.buffer| <= ackAdvance + 1
  {
    var r := Respond(p, ackAdvance, w, d, race);
    var w1 := w.(index := d.index);
    if d.released || d.ack.nextIndex < 0 {
      assert r.w == w1;
    } else {
      var w2 := Trim(w1, d.ack.nextIndex);
      assert |w2.buffer| <= |w1.buffer|;
      if w2.bufferStart <= w2.index {
        var s := SendLoop(p, w2, d.ack.nextIndex + ackAdvance, race);
        assert r.w == s.0;
        SendLoopBufferBound(p, w2, d.ack.nextIndex + ackAdvance, race);
      } else {
        assert r.w == w2;
      }
    }
  }

  // =====================================================================
  // Properties of whole passes

  /**
   * The sentinel ends the worker with nothing sent, exactly when the batch
   * holds it; otherwise the whole batch is consumed.
   */
  lemma SentinelReleasesWithoutSending<T>(p: Producer<T>, ackAdvance: nat, w: Worker<T>, acks: seq<Ack>, race: Race)
    ensures var r := Round(p, ackAdvance, w, acks, race);
      && (r.released <==> exists i :: 0 <= i < |acks| && acks[i].nextIndex == LongMaxValue)
      && (r.released ==> r.sent == [] && r.w.buffer == w.buffer && r.w.bufferStart == w.bufferStart)
      && (!r.released ==> r.rest == [])
  {
    DrainReleasesOnSentinel(w.index, Ack(-1, false), acks);
  }

  /** Without resets a pass never moves index backward. */
  lemma RoundNeverBacksUp<T>(p: Producer<T>, ackAdvance: nat, w: Worker<T>, acks: seq<Ack>, race: Race)
    requires forall i :: 0 <= i < |acks| ==> !acks[i].mustReset
    ensures w.index <= Round(p, ackAdvance, w, acks, race).w.index
  {
    var d := Drain(w.index, Ack(-1, false), acks);
    DrainNeverBacksUpWithoutReset(w.index, Ack(-1, false), acks);
    RespondItemsBetween(p, ackAdvance, w, d, race);
  }

  /**
   * Without resets, an item is never sent twice: every Item of a pass lies
   * past every Item of the pass before it.
   */
  lemma NoItemResentWithoutReset<T>(p: Producer<T>, ackAdvance: nat, w: Worker<T>,
                                    acks1: seq<Ack>, race1: Race, acks2: seq<Ack>, race2: Race)
    requires forall i :: 0 <= i < |acks2| ==> !acks2[i].mustReset
    ensures var r1 := Round(p, ackAdvance, w, acks1, race1);
      var r2 := Round(p, ackAdvance, r1.w, acks2, race2);
      forall j, k :: 0 <= j < |r1.sent| && 0 <= k < |r2.sent| && r1.sent[j].Item? && r2.sent[k].Item?
        ==> r1.sent[j].index < r2.sent[k].index
  {
    var r1 := Round(p, ackAdvance, w, acks1, race1);
    var d1 := Drain(w.index, Ack(-1, false), acks1);
    var d2 := Drain(r1.w.index, Ack(-1, false), acks2);
    RespondItemsBetween(p, ackAdvance, w, d1, race1);
    RespondItemsBetween(p, ackAdvance, r1.w, d2, race2);
    DrainNeverBacksUpWithoutReset(r1.w.index, Ack(-1, false), acks2);
  }

  /**
   * Replaying an ack (n, false) after a pass that filled the window at n
   * sends nothing more and leaves index where it was.
   */
  lemma ReplayedAckSendsNothing<T>(p: Producer<T>, ackAdvance: nat, w: Worker<T>, n: int, race1: Race, race2: Race)
    requires n != LongMaxValue
    requires var r1 := Round(p, ackAdvance, w, [Ack(n, false)], race1);
      n + ackAdvance <= r1.w.index && r1.w.bufferStart <= r1.w.index
    ensures var r1 := Round(p, ackAdvance, w, [Ack(n, false)], race1);
      var r2 := Round(p, ackAdvance, r1.w, [Ack(n, false)], race2);
      r2.sent == [] && r2.w.index == r1.w.index && !r2.released
  {
    var r1 := Round(p, ackAdvance, w, [Ack(n, false)], race1);
    var d := Drain(r1.w.index, Ack(-1, false), [Ack(n, false)]);
    assert [Ack(n, false)][1..] == [];
    assert d == Drain(r1.w.index, Ack(n, false), []);
    if n >= 0 {
      var w2 := Trim(r1.w.(index := d.index), n);
      assert w2.bufferStart <= w2.index;
      assert SendLoop(p, w2, n + ackAdvance, race2) == (w2, []);
    }
  }

  // =====================================================================
  // A concrete trace

  /** The trace's producer: two items, then a normal completion. */
  function TwoItems(): Producer<int> {
    Producer([7, 8], Completed)
  }

  /** From the start, a window of 4 pulls and sends both items and the terminal End. */
  lemma TwoItemsFirstWindow()
    ensures SendLoop(TwoItems(), InitialWorker(), 4, NoAck)
      == (Worker(3, 0, [Value(7), Value(8), Error(NoError)], true), [Item(0, 7), Item(1, 8), End(2, None)])
  {
    var p := TwoItems();
    var w0: Worker<int> := InitialWorker();
    var w1 := Pull(p, w0);
    assert w1 == Worker(0, 0, [Value(7)], false);
    var w2 := Pull(p, w1.(index := 1));
    assert w2 == Worker(1, 0, [Value(7), Value(8)], false);
    var w3 := Pull(p, w2.(index := 2));
    assert w3 == Worker(2, 0, [Value(7), Value(8), Error(NoError)], true);
    assert SendLoop(p, w3, 4, NoAck) == (w3.(index := 3), [End(2, None)]);
    assert SendLoop(p, w2.(index := 2), 4, NoAck) == SendLoop(p, w3, 4, NoAck);
    assert [Item(1, 8)] + [End(2, None)] == [Item(1, 8), End(2, None)];
    assert SendLoop(p, w2, 4, NoAck) == (w3.(index := 3), [Item(1, 8), End(2, None)]);
    assert SendLoop(p, w1.(index := 1), 4, NoAck) == SendLoop(p, w2, 4, NoAck);
    assert [Item(0, 7)] + [Item(1, 8), End(2, None)] == [Item(0, 7), Item(1, 8), End(2, None)];
    assert SendLoop(p, w1, 4, NoAck) == (w3.(index := 3), [Item(0, 7), Item(1, 8), End(2, None)]);
  }

  /** The worker after the first window: past the terminal item, which is buffered. */
  function AfterFirstWindow(): Worker<int> {
    Worker(3, 0, [Value(7), Value(8), Error(NoError)], true)
  }

  /** The first reset to 0 sends both items and the End without error. */
  lemma FirstRoundSendsAll()
    ensures Round(TwoItems(), 4, InitialWorker(), [Ack(0, true)], NoAck)
      == RoundResult(AfterFirstWindow(), [Item(0, 7), Item(1, 8), End(2, None)], [], false)
  {
    var w0: Worker<int> := InitialWorker();
    var d := Drained(0, Ack(0, true), [], false);
    assert Drain(0, Ack(-1, false), [Ack(0, true)]) == d;
    assert Trim(w0, 0) == w0;
    var r := SendLoop(TwoItems(), w0, 4, NoAck);
    assert Respond(TwoItems(), 4, w0, d, NoAck) == RoundResult(r.0, r.1, [], false);
    TwoItemsFirstWindow();
  }

  /** After the first window, an ack for position 2 is answered with InvalidPosition at 3. */
  lemma SecondRoundReportsInvalidPosition()
    ensures Round(TwoItems(), 4, AfterFirstWindow(), [Ack(2, false)], NoAck).sent == [End(3, Some(InvalidPosition))]
  {
    var w3 := AfterFirstWindow();
    assert Drain(3, Ack(-1, false), [Ack(2, false)]) == Drained(3, Ack(2, false), [], false);
    var w4 := Trim(w3, 2);
    assert w4 == Worker(3, 2, [Error(NoError)], true);
    assert SendLoop(TwoItems(), w4, 6, NoAck) == (w4, [End(3, Some(InvalidPosition))]);
  }

  /**
   * Two items, AckAdvance 4: the first reset to 0 sends both items and the
   * End without error; an ack for position 2 that arrives afterwards is
   * answered with End(3, InvalidPosition), since index is already past the
   * terminal item.
   */
  lemma AckAfterEndReportsInvalidPosition()
    ensures var r1 := Round(TwoItems(), 4, InitialWorker(), [Ack(0, true)], NoAck);
      var r2 := Round(TwoItems(), 4, r1.w, [Ack(2, false)], NoAck);
      && r1.sent == [Item(0, 7), Item(1, 8), End(2, None)]
      && r2.sent == [End(3, Some(InvalidPosition))]
  {
    FirstRoundSendsAll();
    SecondRoundReportsInvalidPosition();
  }
}
