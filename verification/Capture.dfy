/**
  The capture queue (src/phala/capture.ts:119-211) as interleaved steps: `capture` is one step,
  a drain is one step per point where it waits. Any number of drains may run.
 */
module Capture {
  import opened Basics

  datatype Options = Options(maxQueue: nat, batchSize: nat, maxRetries: nat)

  /** Where a batch stands: a send is running, a retry is waiting for its timer, it is over, or the
      drain that held it died before it was counted. */
  datatype Fate = Sending | Waiting | Sent | Dropped | Lost

  /** What left the queue, in the order it left: an event evicted by overflow, or a batch taken
      by a drain with the number of sends started for it. */
  datatype Removal<T> = Evicted(event: T) | Batch(events: seq<T>, attempts: nat, fate: Fate)

  /** The fields of the object, with two histories: every event accepted, and everything removed. */
  datatype State<T> = State(
    queue: seq<T>, closed: bool,
    sent: int, dropped: int, failures: int, batches: int, highWater: int,
    accepted: seq<T>, removed: seq<Removal<T>>)

  datatype Event<T> =
    | Capture(event: T)
    | Take
    | SendOk(batch: nat)
    | SendFails(batch: nat)
    | Retry(batch: nat)
    | Close
    // a callback throws
    | CaptureTimerThrows(event: T)           // setTimer, once the event is queued
    | CaptureOnDropThrows(event: T)          // onDrop, for the event evicted by overflow
    | SendOkOnSentThrows(batch: nat)         // onSent, once the batch is counted as sent
    | SendOkDrainDies(batch: nat)            // onSent, and then the catch branch itself
    | SendFailsOnDropThrows(batch: nat)      // onDrop, once the batch is counted as dropped
    | SendFailsDrainDies(batch: nat)         // setTimer for the retry, or a rejection without a message

  function Initial<T>(): State<T> {
    State([], false, 0, 0, 0, 0, 0, [], [])
  }

  predicate IsBatch<T>(s: State<T>, i: nat, fate: Fate) {
    i < |s.removed| && s.removed[i].Batch? && s.removed[i].fate == fate
  }

  predicate Enabled<T>(o: Options, s: State<T>, e: Event<T>) {
    match e
    case Take => |s.queue| > 0
    case SendOk(i) => IsBatch(s, i, Sending)
    case SendFails(i) => IsBatch(s, i, Sending)
    case SendOkOnSentThrows(i) => IsBatch(s, i, Sending)
    case SendOkDrainDies(i) => IsBatch(s, i, Sending)
    case SendFailsOnDropThrows(i) => IsBatch(s, i, Sending) && s.removed[i].attempts > o.maxRetries
    case SendFailsDrainDies(i) => IsBatch(s, i, Sending)
    case CaptureTimerThrows(_) => !s.closed
    case Retry(i) => IsBatch(s, i, Waiting)
    case CaptureOnDropThrows(_) => !s.closed && |s.queue| >= o.maxQueue && |s.queue| > 0
    case _ => true
  }

  /** Overflow: the oldest event makes room. With nothing to evict the counter still moves. */
  function Overflow<T>(s: State<T>): State<T> {
    if s.queue == [] then s.(dropped := s.dropped + 1)
    else s.(queue := s.queue[1..], dropped := s.dropped + 1, removed := s.removed + [Evicted(s.queue[0])])
  }

  function Push<T>(s: State<T>, x: T): State<T> {
    var queue := s.queue + [x];
    s.(queue := queue, accepted := s.accepted + [x],
       highWater := if |queue| > s.highWater then |queue| else s.highWater)
  }

  /** A failed send is retried until the retries are used up, then the batch is dropped. */
  function Fail<T>(o: Options, s: State<T>, i: nat): State<T>
    requires IsBatch(s, i, Sending)
  {
    var b := s.removed[i];
    if b.attempts > o.maxRetries
    then s.(failures := s.failures + 1, dropped := s.dropped + |b.events|,
            removed := s.removed[i := b.(fate := Dropped)])
    else s.(failures := s.failures + 1, removed := s.removed[i := b.(fate := Waiting)])
  }

  function Accept<T>(o: Options, s: State<T>, x: T): State<T> {
    Push(if |s.queue| >= o.maxQueue then Overflow(s) else s, x)
  }

  function CountSent<T>(s: State<T>, i: nat): State<T>
    requires IsBatch(s, i, Sending)
  {
    s.(sent := s.sent + |s.removed[i].events|, batches := s.batches + 1)
  }

  function SetFate<T>(s: State<T>, i: nat, fate: Fate): State<T>
    requires i < |s.removed| && s.removed[i].Batch?
  {
    s.(removed := s.removed[i := s.removed[i].(fate := fate)])
  }

  function Step<T>(o: Options, s: State<T>, e: Event<T>): State<T>
    requires Enabled(o, s, e)
  {
    match e
    case Capture(x) => if s.closed then s else Accept(o, s, x)
    case Take =>
      var n := if o.batchSize < |s.queue| then o.batchSize else |s.queue|;
      s.(queue := s.queue[n..], removed := s.removed + [Batch(s.queue[..n], 1, Sending)])
    case SendOk(i) => SetFate(CountSent(s, i), i, Sent)
    case SendFails(i) => Fail(o, s, i)
    case Retry(i) =>
      var b := s.removed[i];
      s.(removed := s.removed[i := b.(attempts := b.attempts + 1, fate := Sending)])
    case Close => s.(closed := true)
    case CaptureTimerThrows(x) => Accept(o, s, x).(failures := s.failures + 1)
    case CaptureOnDropThrows(x) => Overflow(s).(failures := s.failures + 1, accepted := s.accepted + [x])
    case SendOkOnSentThrows(i) => Fail(o, CountSent(s, i), i)
    case SendOkDrainDies(i) => SetFate(CountSent(s, i).(failures := s.failures + 1), i, Sent)
    case SendFailsOnDropThrows(i) => Fail(o, s, i)
    case SendFailsDrainDies(i) => SetFate(s.(failures := s.failures + 1), i, Lost)
  }

  // ---------------------------------------------------------------- what is conserved

  function Events<T>(r: Removal<T>): seq<T> {
    match r case Evicted(x) => [x] case Batch(xs, _, _) => xs
  }

  function Flatten<T>(rs: seq<Removal<T>>): seq<T>
    decreases |rs|
  {
    if rs == [] then [] else Flatten(rs[..|rs| - 1]) + Events(rs[|rs| - 1])
  }

  datatype Class = InSent | InDropped | InHeld | InLost

  function ClassOf<T>(r: Removal<T>): Class {
    match r
    case Evicted(_) => InDropped
    case Batch(_, _, fate) =>
      match fate case Sent => InSent case Dropped => InDropped case Lost => InLost case _ => InHeld
  }

  function Share<T>(r: Removal<T>, c: Class): nat {
    if ClassOf(r) == c then |Events(r)| else 0
  }

  /** Events of one class among what was removed. */
  function Total<T>(rs: seq<Removal<T>>, c: Class): nat
    decreases |rs|
  {
    if rs == [] then 0
    else Total(rs[..|rs| - 1], c) + Share(rs[|rs| - 1], c)
  }

  lemma TotalSnoc<T>(rs: seq<Removal<T>>, r: Removal<T>, c: Class)
    ensures Total(rs + [r], c) == Total(rs, c) + Share(r, c)
    ensures Flatten(rs + [r]) == Flatten(rs) + Events(r)
  {
    assert (rs + [r])[..|rs|] == rs;
  }

  lemma {:induction false} UpdateBatch<T>(rs: seq<Removal<T>>, i: nat, r: Removal<T>, c: Class)
    requires i < |rs| && Events(r) == Events(rs[i])
    ensures Flatten(rs[i := r]) == Flatten(rs)
    ensures Total(rs[i := r], c) == Total(rs, c) - Share(rs[i], c) + Share(r, c)
    decreases |rs|
  {
    var last := |rs| - 1;
    if i < last {
      UpdateBatch(rs[..last], i, r, c);
      assert rs[i := r][..last] == rs[..last][i := r];
    } else {
      assert rs[i := r][..last] == rs[..last];
    }
  }

  lemma {:induction false} TotalsAddUp<T>(rs: seq<Removal<T>>)
    ensures |Flatten(rs)| == Total(rs, InSent) + Total(rs, InDropped) + Total(rs, InHeld) + Total(rs, InLost)
    decreases |rs|
  {
    if rs != [] {
      TotalsAddUp(rs[..|rs| - 1]);
    }
  }

  ghost predicate BatchesBounded<T>(o: Options, rs: seq<Removal<T>>) {
    forall i :: 0 <= i < |rs| && rs[i].Batch? ==>
      && |rs[i].events| <= o.batchSize
      && 1 <= rs[i].attempts <= o.maxRetries + 1
      && (rs[i].fate == Waiting ==> rs[i].attempts <= o.maxRetries)
      && (rs[i].fate == Dropped ==> rs[i].attempts == o.maxRetries + 1)
  }

  /** Overflow evicts only once the queue has been full. */
  ghost predicate EvictedWhenFull<T>(o: Options, s: State<T>) {
    (exists i :: 0 <= i < |s.removed| && s.removed[i].Evicted?) ==> s.highWater == o.maxQueue
  }

  ghost predicate Inv<T>(o: Options, s: State<T>) {
    && Flatten(s.removed) + s.queue == s.accepted
    && |s.queue| <= o.maxQueue && |s.queue| <= s.highWater <= o.maxQueue
    && s.sent == Total(s.removed, InSent) && s.dropped == Total(s.removed, InDropped) && Total(s.removed, InLost) == 0
    && BatchesBounded(o, s.removed) && EvictedWhenFull(o, s)
  }

  /** Not one of the three throws that upset the count; the other three are harmless. */
  predicate Calm<T>(e: Event<T>) {
    !e.CaptureOnDropThrows? && !e.SendOkOnSentThrows? && !e.SendFailsDrainDies?
  }

  lemma AppendRemoval<T>(s: State<T>, r: Removal<T>, rest: seq<T>)
    requires Flatten(s.removed) + s.queue == s.accepted && Events(r) + rest == s.queue
    ensures Flatten(s.removed + [r]) + rest == s.accepted
    ensures forall c :: Total(s.removed + [r], c) == Total(s.removed, c) + Share(r, c)
  {
    hide Flatten, Total;
    forall c
      ensures Total(s.removed + [r], c) == Total(s.removed, c) + Share(r, c)
    {
      TotalSnoc(s.removed, r, c);
    }
    TotalSnoc(s.removed, r, InSent);
    assert Flatten(s.removed) + Events(r) + rest == Flatten(s.removed) + (Events(r) + rest);
  }

  lemma ChangeFate<T>(rs: seq<Removal<T>>, i: nat, r: Removal<T>)
    requires i < |rs| && Events(r) == Events(rs[i])
    ensures Flatten(rs[i := r]) == Flatten(rs)
    ensures forall c :: Total(rs[i := r], c) == Total(rs, c) - Share(rs[i], c) + Share(r, c)
  {
    UpdateBatch(rs, i, r, InSent);
    UpdateBatch(rs, i, r, InDropped);
    UpdateBatch(rs, i, r, InHeld);
    UpdateBatch(rs, i, r, InLost);
  }

  lemma PushKeepsInv<T>(o: Options, s: State<T>, x: T)
    requires Inv(o, s) && |s.queue| < o.maxQueue
    ensures Inv(o, Push(s, x))
  {
    hide Flatten, Total, BatchesBounded;
    assert Flatten(s.removed) + (s.queue + [x]) == Flatten(s.removed) + s.queue + [x];
  }

  lemma OverflowKeepsInv<T>(o: Options, s: State<T>)
    requires Inv(o, s) && s.queue != [] && |s.queue| >= o.maxQueue
    ensures Inv(o, Overflow(s)) && |Overflow(s).queue| < o.maxQueue
  {
    hide Flatten, Total;
    assert s.queue == [s.queue[0]] + s.queue[1..];
    AppendRemoval(s, Evicted(s.queue[0]), s.queue[1..]);
  }

  lemma TakeKeepsInv<T>(o: Options, s: State<T>)
    requires Inv(o, s) && s.queue != []
    ensures Inv(o, Step(o, s, Take))
  {
    hide Flatten, Total;
    var n := if o.batchSize < |s.queue| then o.batchSize else |s.queue|;
    assert s.queue == s.queue[..n] + s.queue[n..];
    AppendRemoval(s, Batch(s.queue[..n], 1, Sending), s.queue[n..]);
  }

  lemma AcceptKeepsInv<T>(o: Options, s: State<T>, x: T)
    requires Inv(o, s) && o.maxQueue >= 1
    ensures Inv(o, Accept(o, s, x))
  {
    hide Inv;
    if |s.queue| >= o.maxQueue {
      OverflowKeepsInv(o, s);
      PushKeepsInv(o, Overflow(s), x);
    } else {
      PushKeepsInv(o, s, x);
    }
  }

  lemma SentKeepsInv<T>(o: Options, s: State<T>, i: nat)
    requires Inv(o, s) && IsBatch(s, i, Sending)
    ensures Inv(o, SetFate(CountSent(s, i), i, Sent))
  {
    hide Flatten, Total;
    ChangeFate(s.removed, i, s.removed[i].(fate := Sent));
  }

  lemma FailKeepsInv<T>(o: Options, s: State<T>, i: nat)
    requires Inv(o, s) && IsBatch(s, i, Sending)
    ensures Inv(o, Fail(o, s, i))
  {
    hide Flatten, Total;
    ChangeFate(s.removed, i, s.removed[i].(fate := Dropped));
    ChangeFate(s.removed, i, s.removed[i].(fate := Waiting));
  }

  lemma RetryKeepsInv<T>(o: Options, s: State<T>, i: nat)
    requires Inv(o, s) && IsBatch(s, i, Waiting)
    ensures Inv(o, Step(o, s, Retry(i)))
  {
    hide Flatten, Total;
    var b := s.removed[i];
    ChangeFate(s.removed, i, b.(attempts := b.attempts + 1, fate := Sending));
  }

  /** Failures are not part of the invariant. */
  lemma FailuresFree<T>(o: Options, s: State<T>, n: int)
    requires Inv(o, s)
    ensures Inv(o, s.(failures := n))
  {
  }

  lemma StepKeepsInv<T>(o: Options, s: State<T>, e: Event<T>)
    requires Inv(o, s) && Enabled(o, s, e) && Calm(e) && o.maxQueue >= 1
    ensures Inv(o, Step(o, s, e))
  {
    hide Inv, Accept, Fail;
    match e
    case Capture(x) => AcceptKeepsInv(o, s, x);
    case Take => TakeKeepsInv(o, s);
    case SendOk(i) => SentKeepsInv(o, s, i);
    case SendFails(i) => FailKeepsInv(o, s, i);
    case Retry(i) => RetryKeepsInv(o, s, i);
    case Close => CloseKeepsInv(o, s);
    case CaptureTimerThrows(x) =>
      AcceptKeepsInv(o, s, x);
      FailuresFree(o, Accept(o, s, x), s.failures + 1);
    case SendOkDrainDies(i) =>
      FailuresFree(o, s, s.failures + 1);
      SentKeepsInv(o, s.(failures := s.failures + 1), i);
      assert CountSent(s, i).(failures := s.failures + 1) == CountSent(s.(failures := s.failures + 1), i);
    case SendFailsOnDropThrows(i) => FailKeepsInv(o, s, i);
  }

  lemma CloseKeepsInv<T>(o: Options, s: State<T>)
    requires Inv(o, s)
    ensures Inv(o, s.(closed := true))
  {
  }

  // ---------------------------------------------------------------- runs

  predicate IsRun<T>(o: Options, s: State<T>, events: seq<Event<T>>)
    decreases |events|
  {
    events == [] || (Enabled(o, s, events[0]) && IsRun(o, Step(o, s, events[0]), events[1..]))
  }

  function RunFrom<T>(o: Options, s: State<T>, events: seq<Event<T>>): State<T>
    requires IsRun(o, s, events)
    decreases |events|
  {
    if events == [] then s else RunFrom(o, Step(o, s, events[0]), events[1..])
  }

  lemma {:induction false} RunKeepsInv<T>(o: Options, s: State<T>, events: seq<Event<T>>)
    requires Inv(o, s) && IsRun(o, s, events) && o.maxQueue >= 1
    requires forall e :: e in events ==> Calm(e)
    ensures Inv(o, RunFrom(o, s, events))
    decreases |events|
  {
    hide Inv;
    if events != [] {
      StepKeepsInv(o, s, events[0]);
      RunKeepsInv(o, Step(o, s, events[0]), events[1..]);
    }
  }

  /** Conservation over every run: what left the queue, in the order it left, followed by the queue
      is exactly what was accepted; each accepted event is sent, dropped, queued or held by one
      running drain; the queue is bounded, and nothing is evicted unless it has been full; no batch is tried
      more than maxRetries + 1 times, and none is given up sooner. */
  lemma Conservation<T>(o: Options, events: seq<Event<T>>)
    requires o.maxQueue >= 1 && IsRun(o, Initial(), events) && forall e :: e in events ==> Calm(e)
    ensures var s := RunFrom(o, Initial(), events);
      && Flatten(s.removed) + s.queue == s.accepted
      && |s.accepted| == s.sent + s.dropped + |s.queue| + Total(s.removed, InHeld)
      && |s.queue| <= o.maxQueue && s.highWater <= o.maxQueue
      && BatchesBounded(o, s.removed) && EvictedWhenFull(o, s)
  {
    RunKeepsInv(o, Initial(), events);
    TotalsAddUp(RunFrom(o, Initial(), events).removed);
  }

  /** In every continuation of a run, whatever throws: what left the queue keeps its place and its
      events, a batch that was sent, dropped or lost stays as it is, and a count of sends never goes back. */
  lemma {:induction false} FatesAreFinal<T>(o: Options, s: State<T>, events: seq<Event<T>>, i: nat)
    requires IsRun(o, s, events) && i < |s.removed|
    ensures var end := RunFrom(o, s, events);
      && i < |end.removed| && Events(end.removed[i]) == Events(s.removed[i])
      && (ClassOf(s.removed[i]) != InHeld ==> end.removed[i] == s.removed[i])
      && (s.removed[i].Batch? ==> end.removed[i].Batch? && end.removed[i].attempts >= s.removed[i].attempts)
    decreases |events|
  {
    hide Step, ClassOf;
    if events != [] {
      FateStep(o, s, events[0], i);
      FatesAreFinal(o, Step(o, s, events[0]), events[1..], i);
    }
  }

  lemma FateStep<T>(o: Options, s: State<T>, e: Event<T>, i: nat)
    requires Enabled(o, s, e) && i < |s.removed|
    ensures var s' := Step(o, s, e);
      && i < |s'.removed| && Events(s'.removed[i]) == Events(s.removed[i])
      && (ClassOf(s.removed[i]) != InHeld ==> s'.removed[i] == s.removed[i])
      && (s.removed[i].Batch? ==> s'.removed[i].Batch? && s'.removed[i].attempts >= s.removed[i].attempts)
  {
  }

  /** After `close`, in every continuation, nothing more is accepted: the events still to be settled
      only leave the queue. */
  lemma {:induction false} ClosedAcceptsNothing<T>(o: Options, s: State<T>, events: seq<Event<T>>)
    requires s.closed && IsRun(o, s, events)
    ensures var end := RunFrom(o, s, events);
      end.closed && end.accepted == s.accepted && |end.queue| <= |s.queue| &&
        end.queue == s.queue[|s.queue| - |end.queue|..]
    decreases |events|
  {
    if events != [] {
      var s1 := Step(o, s, events[0]);
      assert |s1.queue| <= |s.queue| && s1.queue == s.queue[|s.queue| - |s1.queue|..];
      ClosedAcceptsNothing(o, s1, events[1..]);
    }
  }

  /** From `close` on, in every continuation, nothing more is accepted. */
  lemma CloseIsForGood<T>(o: Options, s: State<T>, events: seq<Event<T>>)
    requires IsRun(o, s, [Event<T>.Close] + events)
    ensures var end := RunFrom(o, s, [Event<T>.Close] + events); end.closed && end.accepted == s.accepted
  {
    hide Step;
    var all := [Event<T>.Close] + events;
    assert all[0] == Close && all[1..] == events;
    CloseCloses(o, s);
    ClosedAcceptsNothing(o, Step(o, s, Close), events);
  }

  lemma CloseCloses<T>(o: Options, s: State<T>)
    ensures Step(o, s, Event<T>.Close) == s.(closed := true)
  {
  }

  // ---------------------------------------------------------------- what the counters count

  /** How many events of a run satisfy p. */
  function Count<T>(events: seq<Event<T>>, p: Event<T> -> bool): nat
    decreases |events|
  {
    if events == [] then 0 else (if p(events[0]) then 1 else 0) + Count(events[1..], p)
  }

  /** The longest the queue ever is. */
  function Peak<T>(o: Options, s: State<T>, events: seq<Event<T>>): nat
    requires IsRun(o, s, events)
    decreases |events|
  {
    if events == [] then |s.queue|
    else
      var later := Peak(o, Step(o, s, events[0]), events[1..]);
      if |s.queue| > later then |s.queue| else later
  }

  predicate Failing<T>(e: Event<T>) {
    || e.SendFails? || e.SendFailsOnDropThrows? || e.SendFailsDrainDies?
    || e.SendOkOnSentThrows? || e.SendOkDrainDies?
    || e.CaptureTimerThrows? || e.CaptureOnDropThrows?
  }

  predicate Delivering<T>(e: Event<T>) {
    e.SendOk? || e.SendOkOnSentThrows? || e.SendOkDrainDies?
  }

  /** Over every run, whatever throws: `failures` counts the sends that failed and the callbacks that threw,
      `batches` the sends that went through, and the high-water mark is the longest the queue has been. */
  lemma {:induction false} CountersMean<T>(o: Options, s: State<T>, events: seq<Event<T>>)
    requires IsRun(o, s, events) && s.highWater >= |s.queue|
    ensures var end := RunFrom(o, s, events);
      && end.failures == s.failures + Count(events, Failing)
      && end.batches == s.batches + Count(events, Delivering)
      && end.highWater == if Peak(o, s, events) > s.highWater then Peak(o, s, events) else s.highWater
    decreases |events|
  {
    if events != [] {
      var s1 := Step(o, s, events[0]);
      CountersStep(o, s, events[0]);
      hide Step, Enabled;
      CountersMean(o, s1, events[1..]);
    }
  }

  lemma CountersStep<T>(o: Options, s: State<T>, e: Event<T>)
    requires Enabled(o, s, e) && s.highWater >= |s.queue|
    ensures var s' := Step(o, s, e);
      && s'.failures == s.failures + (if Failing(e) then 1 else 0)
      && s'.batches == s.batches + (if Delivering(e) then 1 else 0)
      && s'.highWater == if |s'.queue| > s.highWater then |s'.queue| else s.highWater
  {
  }

  /** Over every run, whatever throws: a batch was sent once when it was taken and once for each retry. */
  lemma {:induction false} AttemptsCounted<T>(o: Options, s: State<T>, events: seq<Event<T>>, i: nat)
    requires IsRun(o, s, events) && i < |s.removed| && s.removed[i].Batch?
    ensures var end := RunFrom(o, s, events);
      && i < |end.removed| && end.removed[i].Batch?
      && end.removed[i].attempts == s.removed[i].attempts + Count(events, (e: Event<T>) => e == Retry(i))
    decreases |events|
  {
    if events != [] {
      AttemptsStep(o, s, events[0], i);
      hide Step, Enabled;
      AttemptsCounted(o, Step(o, s, events[0]), events[1..], i);
    }
  }

  lemma AttemptsStep<T>(o: Options, s: State<T>, e: Event<T>, i: nat)
    requires Enabled(o, s, e) && i < |s.removed| && s.removed[i].Batch?
    ensures var s' := Step(o, s, e);
      && i < |s'.removed| && s'.removed[i].Batch?
      && s'.removed[i].attempts == s.removed[i].attempts + if e == Retry(i) then 1 else 0
  {
  }

  // ---------------------------------------------------------------- where conservation ends

  /** Accepted events that no counter, queue or running drain accounts for; negative if some are
      accounted for twice. */
  function Gap<T>(s: State<T>): int {
    |s.accepted| - (s.sent + s.dropped + |s.queue| + Total(s.removed, InHeld))
  }

  /** What one step does to the gap. */
  function Shift<T>(o: Options, s: State<T>, e: Event<T>): int
    requires Enabled(o, s, e)
  {
    match e
    case Capture(_) => if !s.closed && o.maxQueue == 0 && s.queue == [] then -1 else 0
    case CaptureTimerThrows(_) => if o.maxQueue == 0 && s.queue == [] then -1 else 0
    case CaptureOnDropThrows(_) => 1
    case SendOkOnSentThrows(i) => -|s.removed[i].events|
    case SendFailsDrainDies(i) => |s.removed[i].events|
    case _ => 0
  }

  lemma AcceptShifts<T>(o: Options, s: State<T>, x: T)
    ensures Gap(Accept(o, s, x)) == Gap(s) + if o.maxQueue == 0 && s.queue == [] then -1 else 0
  {
    hide Total;
    OverflowHolds(s);
  }

  lemma OverflowHolds<T>(s: State<T>)
    ensures Total(Overflow(s).removed, InHeld) == Total(s.removed, InHeld)
  {
    if s.queue != [] {
      TotalSnoc(s.removed, Evicted(s.queue[0]), InHeld);
    }
  }

  lemma FateShifts<T>(s: State<T>, i: nat, r: Removal<T>)
    requires IsBatch(s, i, Sending) || IsBatch(s, i, Waiting)
    requires Events(r) == Events(s.removed[i])
    ensures Total(s.removed[i := r], InHeld)
         == Total(s.removed, InHeld) - if ClassOf(r) == InHeld then 0 else |s.removed[i].events|
  {
    UpdateBatch(s.removed, i, r, InHeld);
  }

  lemma FailShifts<T>(o: Options, s: State<T>, i: nat)
    requires IsBatch(s, i, Sending)
    ensures Gap(Fail(o, s, i)) == Gap(s)
  {
    hide Total;
    FateShifts(s, i, s.removed[i].(fate := Dropped));
    FateShifts(s, i, s.removed[i].(fate := Waiting));
  }

  lemma TakeShifts<T>(o: Options, s: State<T>)
    requires s.queue != []
    ensures Gap(Step(o, s, Take)) == Gap(s)
  {
    hide Total;
    var n := if o.batchSize < |s.queue| then o.batchSize else |s.queue|;
    TotalSnoc(s.removed, Batch(s.queue[..n], 1, Sending), InHeld);
  }

  /** A batch that is no longer held, and not counted by this. */
  lemma OverShifts<T>(s: State<T>, i: nat, fate: Fate)
    requires IsBatch(s, i, Sending) && (fate == Sent || fate == Lost)
    ensures Gap(SetFate(s, i, fate)) == Gap(s) + |s.removed[i].events|
  {
    hide Total;
    FateShifts(s, i, s.removed[i].(fate := fate));
  }

  /** Every step of every run, with any options and whatever throws, moves the gap by exactly its shift. */
  lemma StepShifts<T>(o: Options, s: State<T>, e: Event<T>)
    requires Enabled(o, s, e)
    ensures Gap(Step(o, s, e)) == Gap(s) + Shift(o, s, e)
  {
    hide Total, Accept, Fail, Overflow, SetFate;
    match e
    case Capture(x) => AcceptShifts(o, s, x);
    case CaptureTimerThrows(x) => AcceptShifts(o, s, x);
    case Take => TakeShifts(o, s);
    case SendOk(i) => OverShifts(CountSent(s, i), i, Sent);
    case SendOkDrainDies(i) => OverShifts(CountSent(s, i).(failures := s.failures + 1), i, Sent);
    case SendFails(i) => FailShifts(o, s, i);
    case SendFailsOnDropThrows(i) => FailShifts(o, s, i);
    case SendFailsDrainDies(i) => OverShifts(s.(failures := s.failures + 1), i, Lost);
    case SendOkOnSentThrows(i) => FailShifts(o, CountSent(s, i), i);
    case Retry(i) => FateShifts(s, i, s.removed[i].(attempts := s.removed[i].attempts + 1, fate := Sending));
    case Close =>
    case CaptureOnDropThrows(x) => OverflowShifts(s);
  }

  lemma OverflowShifts<T>(s: State<T>)
    requires s.queue != []
    ensures Gap(Overflow(s)) == Gap(s) && Overflow(s).accepted == s.accepted
  {
    hide Total;
    OverflowHolds(s);
  }

  /** Nothing is miscounted: before the first step and after each. */
  ghost predicate AlwaysBalanced<T>(o: Options, s: State<T>, events: seq<Event<T>>)
    requires IsRun(o, s, events)
    decreases |events|
  {
    Gap(s) == 0 && (events != [] ==> AlwaysBalanced(o, Step(o, s, events[0]), events[1..]))
  }

  /** No capture finds a queue without any room, no `onDrop` throws on overflow, and neither an
      `onSent` throws nor a drain dies on a batch that holds an event. */
  predicate NothingUpset<T>(o: Options, s: State<T>, events: seq<Event<T>>)
    requires IsRun(o, s, events)
    decreases |events|
  {
    events != [] ==>
      && (match events[0]
          case Capture(_) => s.closed || o.maxQueue > 0 || s.queue != []
          case CaptureTimerThrows(_) => o.maxQueue > 0 || s.queue != []
          case CaptureOnDropThrows(_) => false
          case SendOkOnSentThrows(i) => s.removed[i].events == []
          case SendFailsDrainDies(i) => s.removed[i].events == []
          case _ => true)
      && NothingUpset(o, Step(o, s, events[0]), events[1..])
  }

  /** The exact condition: all through a run accepted is sent plus dropped plus queued plus held, if
      and only if nothing of that kind happens; any other callback may throw at will. */
  lemma {:induction false} BalancedExact<T>(o: Options, s: State<T>, events: seq<Event<T>>)
    requires IsRun(o, s, events) && Gap(s) == 0
    ensures AlwaysBalanced(o, s, events) <==> NothingUpset(o, s, events)
    decreases |events|
  {
    hide Gap, Step;
    if events != [] {
      var s1 := Step(o, s, events[0]);
      StepShifts(o, s, events[0]);
      if Gap(s1) == 0 {
        BalancedExact(o, s1, events[1..]);
      } else {
        UnbalancedAtOnce(o, s1, events[1..]);
      }
    }
  }

  lemma UnbalancedAtOnce<T>(o: Options, s: State<T>, events: seq<Event<T>>)
    requires IsRun(o, s, events) && Gap(s) != 0
    ensures !AlwaysBalanced(o, s, events)
  {
  }

  /** With maxQueue 0 the first event already breaks both the count and the bound. */
  lemma NoRoomBreaks<T>(o: Options, x: T)
    requires o.maxQueue == 0
    ensures var s := Step(o, Initial(), Event<T>.Capture(x));
      |s.queue| > o.maxQueue && Gap(s) == -1
  {
  }

  /** When `onDrop` throws on overflow, the event being captured is lost and counted nowhere. */
  lemma OnDropThrowLoses<T>(o: Options, s: State<T>, x: T)
    requires o.maxQueue >= 1 && Inv(o, s) && Enabled(o, s, CaptureOnDropThrows(x))
    ensures var s' := Step(o, s, CaptureOnDropThrows(x));
      |s'.accepted| == s'.sent + s'.dropped + |s'.queue| + Total(s'.removed, InHeld) + 1
  {
    hide Inv, Step, Total;
    InvBalances(o, s);
    StepShifts(o, s, CaptureOnDropThrows(x));
  }

  /** When `onSent` throws, a batch that was sent is counted as sent and still held or dropped. */
  lemma OnSentThrowDoubles<T>(o: Options, s: State<T>, i: nat)
    requires Inv(o, s) && IsBatch(s, i, Sending)
    ensures var s' := Step(o, s, SendOkOnSentThrows(i));
      s'.sent + s'.dropped + |s'.queue| + Total(s'.removed, InHeld) == |s'.accepted| + |s.removed[i].events|
  {
    hide Inv, Step, Total;
    InvBalances(o, s);
    StepShifts(o, s, SendOkOnSentThrows(i));
  }

  /** When the timer for a retry throws, or a send rejects with no error object, the drain dies and
      its whole batch is counted nowhere, for good. */
  lemma TimerThrowLoses<T>(o: Options, s: State<T>, i: nat, rest: seq<Event<T>>)
    requires Inv(o, s) && IsBatch(s, i, Sending) && IsRun(o, Step(o, s, SendFailsDrainDies(i)), rest)
    ensures var s' := Step(o, s, SendFailsDrainDies(i)); var end := RunFrom(o, s', rest);
      && |s'.accepted| == s'.sent + s'.dropped + |s'.queue| + Total(s'.removed, InHeld) + |s.removed[i].events|
      && i < |end.removed| && end.removed[i] == s.removed[i].(fate := Lost)
  {
    hide Inv, Total, IsRun, RunFrom;
    InvBalances(o, s);
    StepShifts(o, s, SendFailsDrainDies(i));
    FatesAreFinal(o, Step(o, s, SendFailsDrainDies(i)), rest, i);
  }

  lemma InvBalances<T>(o: Options, s: State<T>)
    requires Inv(o, s)
    ensures Gap(s) == 0
  {
    hide Flatten, Total, BatchesBounded;
    TotalsAddUp(s.removed);
  }

  // ---------------------------------------------------------------- the object

  /** The step a call of `capture` is. */
  function CaptureStep<T>(o: Options, s: State<T>, x: T, onDropThrows: bool, timerThrows: bool): Event<T> {
    if s.closed then Capture(x)
    else if onDropThrows && |s.queue| >= o.maxQueue then CaptureOnDropThrows(x)
    else if timerThrows then CaptureTimerThrows(x)
    else Capture(x)
  }

  /** The step a failed send is. */
  function FailureStep<T>(o: Options, attempt: nat, noMessage: bool, throws: bool, batch: nat): Event<T> {
    if noMessage then SendFailsDrainDies(batch)
    else if !throws then SendFails(batch)
    else if attempt >= o.maxRetries then SendFailsOnDropThrows(batch)
    else SendFailsDrainDies(batch)
  }

  /** The fields, and one method per step between two waits. */
  class CaptureQueue<T> {
    const options: Options
    var queue: seq<T>
    var closed: bool
    var sent: int
    var dropped: int
    var failures: int
    var batches: int
    var highWater: int
    ghost var accepted: seq<T>
    ghost var removed: seq<Removal<T>>

    ghost function View(): State<T>
      reads this
    {
      State(queue, closed, sent, dropped, failures, batches, highWater, accepted, removed)
    }

    ghost predicate Valid()
      reads this
    {
      options.maxQueue >= 1 && Inv(options, View())
    }

    constructor (options: Options)
      requires options.maxQueue >= 1
      ensures Valid() && this.options == options && View() == Initial()
    {
      this.options := options;
      queue, closed := [], false;
      sent, dropped, failures, batches, highWater := 0, 0, 0, 0, 0;
      accepted, removed := [], [];
    }

    /** `onDropThrows` and `timerThrows` say what the callbacks would do if called. */
    method CaptureEvent(event: T, onDropThrows: bool, timerThrows: bool)
      requires Valid()
      modifies this
      ensures View() == Step(options, old(View()), CaptureStep(options, old(View()), event, onDropThrows, timerThrows))
      ensures Calm(CaptureStep(options, old(View()), event, onDropThrows, timerThrows)) ==> Valid()
      ensures old(closed) ==> View() == old(View())
      ensures !old(closed) ==> accepted == old(accepted) + [event]
      ensures !old(closed) && |old(queue)| < options.maxQueue ==>
        queue == old(queue) + [event] && dropped == old(dropped)
      ensures !old(closed) && |old(queue)| == options.maxQueue ==>
        && queue == old(queue)[1..] + (if onDropThrows then [] else [event])
        && dropped == old(dropped) + 1
    {
      hide Inv;
      ghost var step := CaptureStep(options, View(), event, onDropThrows, timerThrows);
      if Calm(step) {
        StepKeepsInv(options, View(), step);
      }
      if closed {
        return;
      }
      if |queue| >= options.maxQueue {
        if queue != [] {
          removed := removed + [Evicted(queue[0])];
          queue := queue[1..];
        }
        dropped := dropped + 1;
        if onDropThrows {
          accepted := accepted + [event];
          failures := failures + 1;
          return;
        }
      }
      queue := queue + [event];
      accepted := accepted + [event];
      if |queue| > highWater {
        highWater := |queue|;
      }
      if timerThrows {
        failures := failures + 1;
      }
    }

    /** From here on `capture` takes nothing; what is queued is still to be drained. */
    method CloseQueue()
      requires Valid()
      modifies this
      ensures Valid() && View() == Step(options, old(View()), Close) && closed
    {
      hide Inv;
      StepKeepsInv(options, View(), Close);
      closed := true;
    }

    /** The head of a drain's loop: take a batch; its number is the drain's place in the history. */
    method TakeBatch() returns (batch: seq<T>, ghost number: nat)
      requires Valid() && queue != []
      modifies this
      ensures Valid() && View() == Step(options, old(View()), Take)
      ensures number == |old(removed)| && removed[number] == Batch(batch, 1, Sending)
      ensures batch + queue == old(queue) && |batch| <= options.batchSize
      ensures |batch| == options.batchSize || queue == []
    {
      hide Inv;
      StepKeepsInv(options, View(), Take);
      var n := if options.batchSize < |queue| then options.batchSize else |queue|;
      batch := queue[..n];
      queue := queue[n..];
      number := |removed|;
      removed := removed + [Batch(batch, 1, Sending)];
    }

    method SendSucceeded(batch: seq<T>, ghost number: nat)
      requires Valid() && IsBatch(View(), number, Sending) && removed[number].events == batch
      modifies this
      ensures Valid() && View() == Step(options, old(View()), SendOk(number))
    {
      hide Inv;
      StepKeepsInv(options, View(), SendOk(number));
      sent := sent + |batch|;
      batches := batches + 1;
      removed := removed[number := removed[number].(fate := Sent)];
    }

    /** The catch branch; `attempt` is the drain's own counter, one behind the number of sends. The
        drain dies if the rejection has no message to read or the callback it then calls throws. */
    method SendFailed(batch: seq<T>, attempt: nat, noMessage: bool, throws: bool, ghost number: nat)
      returns (again: bool, dies: bool)
      requires Valid() && IsBatch(View(), number, Sending)
      requires removed[number].events == batch && removed[number].attempts == attempt + 1
      modifies this
      ensures View() == Step(options, old(View()), FailureStep(options, attempt, noMessage, throws, number))
      ensures Calm(FailureStep<T>(options, attempt, noMessage, throws, number)) ==> Valid()
      ensures again <==> attempt < options.maxRetries && !noMessage && !throws
      ensures dies <==> noMessage || throws
      ensures failures == old(failures) + 1 && (removed[number].fate == Waiting <==> again)
      ensures removed[number].fate == Dropped <==> attempt >= options.maxRetries && !noMessage
      ensures dropped == old(dropped) + if attempt >= options.maxRetries && !noMessage then |batch| else 0
    {
      hide Inv;
      ghost var step := FailureStep<T>(options, attempt, noMessage, throws, number);
      if Calm(step) {
        StepKeepsInv(options, View(), step);
      }
      again, dies := false, noMessage || throws;
      failures := failures + 1;
      if noMessage {
        removed := removed[number := removed[number].(fate := Lost)];
      } else if attempt >= options.maxRetries {
        dropped := dropped + |batch|;
        removed := removed[number := removed[number].(fate := Dropped)];
      } else {
        removed := removed[number := removed[number].(fate := if throws then Lost else Waiting)];
        again := !throws;
      }
    }
  }
}
