/**
 One measurement job: a PONG listener that collects samples, a finisher that publishes
 them once there are enough, and a retry timer that gives up after five attempts. They
 interleave freely over a shared sample vector and a terminal slot of capacity one.
 */
module Measurement {
  import opened Wrappers
  import opened Rounding
  import opened Wire
  import opened Payload
  import opened Regression

  const NUMBER_DATA_POINTS: nat := 20
  const NUMBER_MEASUREMENTS: nat := 5

  type Samples = seq<Point>

  /** Clock readings carried by one PONG, in nanoseconds; zero means absent. */
  datatype Reading = Reading(host: int, previousHost: int, ghostTime: int, previousGhost: int)

  /** Samples of one PONG: host midpoint against ghost offset, and the previous midpoint when known. */
  function PongSamples(r: Reading): (samples: Option<Samples>)
    ensures samples.Some? ==> |samples.value| <= 2
  {
    if r.ghostTime == 0 || r.previousHost == 0 then Some([])
    else if !InI64(Micros(r.host)) || !InI64(Micros(r.previousHost))
            || !InI64(Micros(r.ghostTime)) || !InI64(Micros(r.previousGhost)) then None
    else
      var host, previousHost := Micros(r.host), Micros(r.previousHost);
      var ghostTime, previousGhost := Micros(r.ghostTime), Micros(r.previousGhost);
      var sumHost := host + previousHost;
      var first := Point(sumHost as real * 0.5, (2 * ghostTime - sumHost) as real * 0.5);
      if previousGhost != 0 then
        Some([first, Point(previousHost as real, (ghostTime + previousGhost - 2 * previousHost) as real * 0.5)])
      else Some([first])
  }

  /**
   The samples in exact integers: nothing without a ghost time and a previous host time, a failure when a time does not
   fit 64 bits, and otherwise the midpoint of the last exchange and, when known, the point between the two answers.
   */
  lemma PongSamplesExactly(r: Reading)
    ensures var host, previousHost := Micros(r.host), Micros(r.previousHost);
            var ghostTime, previousGhost := Micros(r.ghostTime), Micros(r.previousGhost);
            var absent := r.ghostTime == 0 || r.previousHost == 0;
            var fits := InI64(host) && InI64(previousHost) && InI64(ghostTime) && InI64(previousGhost);
            && (PongSamples(r) == Some([]) <==> absent)
            && (PongSamples(r) == None <==> !absent && !fits)
            && (!absent && fits ==>
                  && PongSamples(r).Some? && |PongSamples(r).value| == (if previousGhost != 0 then 2 else 1)
                  && var first := PongSamples(r).value[0];
                     2.0 * first.x == (host + previousHost) as real
                     && 2.0 * first.y == (2 * ghostTime - (host + previousHost)) as real)
            && (!absent && fits && previousGhost != 0 ==>
                  var second := PongSamples(r).value[1];
                  second.x == previousHost as real
                  && 2.0 * second.y == (ghostTime + previousGhost - 2 * previousHost) as real)
  {
  }

  datatype XForm = XForm(slope: real, interceptMicros: int)

  function Larger(a: real, b: real): real {
    if a >= b then a else b
  }

  /** The transform chosen from forwarded samples; fewer than three would fall back to a median offset. */
  function ChooseTransform(data: Samples): XForm {
    if data == [] then XForm(0.0, 0)
    else
      var line :=
        if |data| >= 3 then
          var fit := LinearRegression(data);
          Line(1.0 + fit.slope, fit.intercept)
        else Line(1.0, if |data| == 1 then data[0].y else Larger(data[0].y, data[1].y));
      XForm(line.slope, Clamp(RoundHalfAway(line.intercept), I64_MIN, I64_MAX))
  }

  // ----- the job -----

  datatype Listener = Listening | Signalling | Stopped

  datatype Finisher = Waiting | Finishing | Holding(samples: Samples) | Notifying

  datatype Timer = Starting | Polling | GivingUp | Exited

  /** `published` remembers every attempt to fill the terminal slot, in order. */
  datatype Job = Job(
    data: Samples,
    listener: Listener,
    signals: nat,
    finisher: Finisher,
    success: bool,
    timer: Timer,
    started: nat,
    notified: bool,
    slot: Option<Samples>,
    received: Option<Samples>,
    closed: bool,
    forwarded: Option<Samples>,
    cancelled: bool,
    published: seq<Samples>)

  function Initial(): Job {
    Job([], Listening, 0, Waiting, false, Starting, 0, false, None, None, false, None, false, [])
  }

  datatype Event =
    | Pong(reading: Reading)   // the listener appends the samples of one PONG
    | ListenerEnds             // ingress retired or PONG channel closed
    | Signal                   // the listener wakes the finisher
    | FinisherWakes
    | FinisherTakes
    | FinisherPublishes
    | FinisherNotifies
    | InitialPing(sent: bool)
    | Retry(sent: bool)
    | GivesUp                  // attempts exhausted: samples are discarded
    | PublishesFailure
    | TimerStops               // the timer sees the finished notification
    | Receive                  // the consumer takes the terminal slot
    | Close
    | Forward(current: bool)   // the result is sent on while the ingress is still current
    | Cancel                   // disabled or ingress retired: the workers are aborted

  predicate Enabled(j: Job, e: Event) {
    !j.cancelled &&
    match e
    case Pong(_) => j.listener == Listening
    case ListenerEnds => j.listener == Listening
    case Signal => j.listener == Signalling && j.signals == 0
    case FinisherWakes => j.finisher == Waiting && j.signals > 0
    case FinisherTakes => j.finisher == Finishing
    case FinisherPublishes => j.finisher.Holding?
    case FinisherNotifies => j.finisher == Notifying
    case InitialPing(_) => j.timer == Starting
    case Retry(_) => j.timer == Polling && j.started < NUMBER_MEASUREMENTS
    case GivesUp => j.timer == Polling && j.started >= NUMBER_MEASUREMENTS
    case PublishesFailure => j.timer == GivingUp
    case TimerStops => j.timer == Polling && j.notified
    case Receive => j.timer == Exited && j.received == None && j.slot.Some?
    case Close => j.received.Some? && !j.closed
    case Forward(_) => j.closed && j.forwarded == None
    case Cancel => true
  }

  /** A full or closed slot drops the vector; a queued result is never replaced. */
  function Publish(j: Job, samples: Samples): Job {
    if j.slot == None && !j.closed then j.(slot := Some(samples), published := j.published + [samples])
    else j.(published := j.published + [samples])
  }

  predicate ByListener(e: Event) { e.Pong? || e.ListenerEnds? || e.Signal? }

  predicate ByFinisher(e: Event) { e.FinisherWakes? || e.FinisherTakes? || e.FinisherPublishes? || e.FinisherNotifies? }

  predicate ByTimer(e: Event) { e.InitialPing? || e.Retry? || e.GivesUp? || e.PublishesFailure? || e.TimerStops? }

  function ListenerStep(j: Job, e: Event): Job
    requires ByListener(e) && Enabled(j, e)
  {
    match e
    case Pong(reading) =>
      var samples := PongSamples(reading);
      if samples.None? then j
      else
        var data := j.data + samples.value;
        j.(data := data, listener := if |data| > NUMBER_DATA_POINTS then Signalling else Listening)
    case ListenerEnds => j.(listener := Stopped)
    case Signal => j.(listener := Stopped, signals := 1)
  }

  function FinisherStep(j: Job, e: Event): Job
    requires ByFinisher(e) && Enabled(j, e)
  {
    match e
    case FinisherWakes => j.(finisher := Finishing, signals := j.signals - 1, success := true)
    case FinisherTakes => j.(finisher := Holding(j.data), data := [])
    case FinisherPublishes => Publish(j, j.finisher.samples).(finisher := Notifying)
    case FinisherNotifies => j.(finisher := Waiting, notified := true)
  }

  function TimerStep(j: Job, e: Event): Job
    requires ByTimer(e) && Enabled(j, e)
  {
    match e
    case InitialPing(sent) =>
      if sent then j.(timer := Polling) else Publish(j, []).(timer := Polling, notified := true)
    case Retry(sent) =>
      if sent then j.(started := j.started + 1) else Publish(j, []).(timer := Exited)
    case GivesUp => j.(data := [], timer := GivingUp)
    case PublishesFailure => Publish(j, []).(timer := Exited)
    case TimerStops => j.(timer := Exited, notified := false)
  }

  /** The owner of the job: it takes, closes and forwards the terminal slot, or aborts the workers. */
  function OwnerStep(j: Job, e: Event): Job
    requires !ByListener(e) && !ByFinisher(e) && !ByTimer(e) && Enabled(j, e)
  {
    match e
    case Receive => j.(received := j.slot, slot := None)
    case Close => j.(closed := true)
    case Forward(current) => if current then j.(forwarded := j.received) else j.(cancelled := true)
    case Cancel => j.(cancelled := true)
  }

  function Step(j: Job, e: Event): Job
    requires Enabled(j, e)
  {
    if ByListener(e) then ListenerStep(j, e)
    else if ByFinisher(e) then FinisherStep(j, e)
    else if ByTimer(e) then TimerStep(j, e)
    else OwnerStep(j, e)
  }

  predicate ValidRun(j: Job, events: seq<Event>)
    decreases |events|
  {
    events == [] || (Enabled(j, events[0]) && ValidRun(Step(j, events[0]), events[1..]))
  }

  function Final(j: Job, events: seq<Event>): Job
    requires ValidRun(j, events)
    decreases |events|
  {
    if events == [] then j else Final(Step(j, events[0]), events[1..])
  }

  // ----- invariants -----

  /** Nothing, or just past the threshold: the previous total was at most 20 and one PONG adds at most two. */
  predicate Complete(samples: Samples) {
    samples == [] || 21 <= |samples| <= 22
  }

  predicate SampleInv(j: Job) {
    && (j.listener == Listening ==> |j.data| <= NUMBER_DATA_POINTS)
    && (j.signals > 0 || j.finisher != Waiting ==> j.listener == Stopped)
    && (j.listener == Signalling || j.signals > 0 || j.finisher == Finishing ==> Complete(j.data))
    && j.signals <= 1
    && (j.finisher.Holding? ==> Complete(j.finisher.samples))
    && (j.finisher != Waiting ==> j.success)
  }

  predicate HistoryInv(j: Job) {
    forall k :: 0 <= k < |j.published| ==> Complete(j.published[k]) && (j.published[k] != [] ==> j.success)
  }

  predicate SlotInv(j: Job) {
    && (j.published == [] ==> j.slot == None && j.received == None)
    && (j.received == None && j.published != [] ==> j.slot == Some(j.published[0]))
    && (j.received.Some? ==> j.received == Some(j.published[0]))
    && (j.closed ==> j.received.Some?)
    && (j.forwarded.Some? ==> j.forwarded == j.received)
    && (j.notified || j.timer == Exited || j.finisher == Notifying ==> j.published != [])
  }

  lemma SampleInvStep(j: Job, e: Event)
    requires SampleInv(j) && Enabled(j, e)
    ensures SampleInv(Step(j, e))
  {
    hide SampleInv, ListenerStep, FinisherStep, TimerStep, OwnerStep, Enabled;
    if ByListener(e) {
      SampleInvListener(j, e);
    } else if ByFinisher(e) {
      SampleInvFinisher(j, e);
    } else if ByTimer(e) {
      SampleInvTimer(j, e);
    } else {
      SampleInvOwner(j, e);
    }
  }

  lemma SampleInvListener(j: Job, e: Event)
    requires SampleInv(j) && ByListener(e) && Enabled(j, e)
    ensures SampleInv(ListenerStep(j, e))
  {
    hide PongSamples;
  }

  lemma SampleInvFinisher(j: Job, e: Event)
    requires SampleInv(j) && ByFinisher(e) && Enabled(j, e)
    ensures SampleInv(FinisherStep(j, e))
  {}

  lemma SampleInvTimer(j: Job, e: Event)
    requires SampleInv(j) && ByTimer(e) && Enabled(j, e)
    ensures SampleInv(TimerStep(j, e))
  {}

  lemma SampleInvOwner(j: Job, e: Event)
    requires SampleInv(j) && !ByListener(e) && !ByFinisher(e) && !ByTimer(e) && Enabled(j, e)
    ensures SampleInv(OwnerStep(j, e))
  {}

  lemma HistoryInvStep(j: Job, e: Event)
    requires SampleInv(j) && HistoryInv(j) && Enabled(j, e)
    ensures HistoryInv(Step(j, e))
  {
    hide HistoryInv, ListenerStep, FinisherStep, TimerStep, OwnerStep, Enabled, SampleInv;
    if ByListener(e) {
      HistoryInvListener(j, e);
    } else if ByFinisher(e) {
      HistoryInvFinisher(j, e);
    } else if ByTimer(e) {
      HistoryInvTimer(j, e);
    } else {
      HistoryInvOwner(j, e);
    }
  }

  lemma HistoryInvListener(j: Job, e: Event)
    requires SampleInv(j) && HistoryInv(j) && ByListener(e) && Enabled(j, e)
    ensures HistoryInv(ListenerStep(j, e))
  {
    hide PongSamples;
  }

  lemma HistoryInvFinisher(j: Job, e: Event)
    requires SampleInv(j) && HistoryInv(j) && ByFinisher(e) && Enabled(j, e)
    ensures HistoryInv(FinisherStep(j, e))
  {}

  lemma HistoryInvTimer(j: Job, e: Event)
    requires SampleInv(j) && HistoryInv(j) && ByTimer(e) && Enabled(j, e)
    ensures HistoryInv(TimerStep(j, e))
  {}

  lemma HistoryInvOwner(j: Job, e: Event)
    requires SampleInv(j) && HistoryInv(j) && !ByListener(e) && !ByFinisher(e) && !ByTimer(e) && Enabled(j, e)
    ensures HistoryInv(OwnerStep(j, e))
  {}

  lemma SlotInvStep(j: Job, e: Event)
    requires SlotInv(j) && Enabled(j, e)
    ensures SlotInv(Step(j, e))
  {
    hide SlotInv, ListenerStep, FinisherStep, TimerStep, OwnerStep, Enabled;
    if ByListener(e) {
      SlotInvListener(j, e);
    } else if ByFinisher(e) {
      SlotInvFinisher(j, e);
    } else if ByTimer(e) {
      SlotInvTimer(j, e);
    } else {
      SlotInvOwner(j, e);
    }
  }

  lemma SlotInvListener(j: Job, e: Event)
    requires SlotInv(j) && ByListener(e) && Enabled(j, e)
    ensures SlotInv(ListenerStep(j, e))
  {
    hide PongSamples;
  }

  lemma PublishKeepsSlot(j: Job, samples: Samples)
    requires SlotInv(j)
    ensures SlotInv(Publish(j, samples)) && Publish(j, samples).published != []
  {}

  lemma SlotInvFinisher(j: Job, e: Event)
    requires SlotInv(j) && ByFinisher(e) && Enabled(j, e)
    ensures SlotInv(FinisherStep(j, e))
  {
    hide Publish;
    if e.FinisherPublishes? {
      PublishKeepsSlot(j, j.finisher.samples);
    }
  }

  lemma SlotInvTimer(j: Job, e: Event)
    requires SlotInv(j) && ByTimer(e) && Enabled(j, e)
    ensures SlotInv(TimerStep(j, e))
  {
    hide Publish;
    PublishKeepsSlot(j, []);
    match e {
      case InitialPing(_) =>
      case Retry(_) =>
      case GivesUp =>
      case PublishesFailure =>
      case TimerStops =>
    }
  }

  lemma SlotInvOwner(j: Job, e: Event)
    requires SlotInv(j) && !ByListener(e) && !ByFinisher(e) && !ByTimer(e) && Enabled(j, e)
    ensures SlotInv(OwnerStep(j, e))
  {}

  lemma {:induction false} RunKeepsInvariants(j: Job, events: seq<Event>)
    requires ValidRun(j, events) && SampleInv(j) && HistoryInv(j) && SlotInv(j)
    ensures SampleInv(Final(j, events)) && HistoryInv(Final(j, events)) && SlotInv(Final(j, events))
    decreases |events|
  {
    if events != [] {
      SampleInvStep(j, events[0]);
      HistoryInvStep(j, events[0]);
      SlotInvStep(j, events[0]);
      RunKeepsInvariants(Step(j, events[0]), events[1..]);
    }
  }

  // ----- what every interleaving guarantees -----

  /** The forwarded vector is the first one published, and holds no sample, 21 or 22. */
  lemma ForwardedIsFirstAndComplete(events: seq<Event>)
    requires ValidRun(Initial(), events)
    ensures var j := Final(Initial(), events);
            j.forwarded.Some? ==>
              && j.published != [] && j.forwarded.value == j.published[0]
              && (j.forwarded.value == [] || 21 <= |j.forwarded.value| <= 22)
              && (j.forwarded.value != [] ==> j.success)
  {
    RunKeepsInvariants(Initial(), events);
  }

  /** When the timer is done the consumer never waits on an empty slot. */
  lemma SlotFilledWhenTimerExits(events: seq<Event>)
    requires ValidRun(Initial(), events)
    ensures var j := Final(Initial(), events);
            j.timer == Exited ==> j.slot.Some? || j.received.Some?
  {
    RunKeepsInvariants(Initial(), events);
  }

  /** A forwarded vector never changes again. */
  lemma {:induction false} ForwardedOnce(j: Job, events: seq<Event>)
    requires ValidRun(j, events) && j.forwarded.Some?
    ensures Final(j, events).forwarded == j.forwarded
    decreases |events|
  {
    hide Enabled, Publish, PongSamples;
    if events != [] {
      ForwardedStays(j, events[0]);
      hide Step;
      ForwardedOnce(Step(j, events[0]), events[1..]);
    }
  }

  lemma ForwardedStays(j: Job, e: Event)
    requires Enabled(j, e) && j.forwarded.Some?
    ensures Step(j, e).forwarded == j.forwarded
  {
    hide PongSamples;
  }

  /** A failure is the zero transform and all else is fitted: the small-sample fallback is unreachable. */
  lemma FallbackUnreachable(events: seq<Event>)
    requires ValidRun(Initial(), events)
    ensures var j := Final(Initial(), events);
            j.forwarded.Some? ==>
              var fit := LinearRegression(j.forwarded.value);
              ChooseTransform(j.forwarded.value)
                == if j.forwarded.value == [] then XForm(0.0, 0)
                   else XForm(1.0 + fit.slope, Clamp(RoundHalfAway(fit.intercept), I64_MIN, I64_MAX))
  {
    ForwardedIsFirstAndComplete(events);
  }

  // ----- samples are neither lost, repeated nor reordered -----

  /** The samples an event brings in. */
  function Arriving(e: Event): Samples {
    if e.Pong? && PongSamples(e.reading).Some? then PongSamples(e.reading).value else []
  }

  function Arrived(events: seq<Event>): Samples {
    if events == [] then [] else Arriving(events[0]) + Arrived(events[1..])
  }

  predicate Slice(part: Samples, all: Samples) {
    exists from: nat, to: nat :: from <= to <= |all| && part == all[from..to]
  }

  predicate Suffix(part: Samples, all: Samples) {
    |part| <= |all| && part == all[|all| - |part|..]
  }

  predicate SliceInv(j: Job, all: Samples) {
    && Suffix(j.data, all)
    && (j.finisher.Holding? ==> Slice(j.finisher.samples, all))
    && (forall k :: 0 <= k < |j.published| ==> Slice(j.published[k], all))
  }

  lemma SliceGrows(part: Samples, all: Samples, more: Samples)
    requires Slice(part, all)
    ensures Slice(part, all + more)
  {
    var from: nat, to: nat :| from <= to <= |all| && part == all[from..to];
    assert part == (all + more)[from..to];
  }

  lemma SuffixGrows(part: Samples, all: Samples, more: Samples)
    requires Suffix(part, all)
    ensures Suffix(part + more, all + more) && Suffix([], all) && Slice(part, all) && Slice([], all)
  {
    assert all[|all| - |part|..] == all[|all| - |part|..|all|];
    assert [] == all[0..0];
  }

  lemma GrownKeepsSlices(j: Job, all: Samples, more: Samples)
    requires SliceInv(j, all)
    ensures SliceInv(j.(data := j.data + more), all + more)
    ensures Suffix([], all + more) && Slice([], all + more) && Slice(j.data + more, all + more)
  {
    SuffixGrows(j.data, all, more);
    SuffixGrows(j.data + more, all + more, []);
    hide Slice, Suffix;
    if j.finisher.Holding? {
      SliceGrows(j.finisher.samples, all, more);
    }
    forall k | 0 <= k < |j.published| ensures Slice(j.published[k], all + more) {
      SliceGrows(j.published[k], all, more);
    }
  }

  lemma SliceInvStep(j: Job, e: Event, all: Samples)
    requires Enabled(j, e) && SliceInv(j, all)
    ensures SliceInv(Step(j, e), all + Arriving(e))
  {
    hide PongSamples, Slice, Suffix;
    var more := Arriving(e);
    GrownKeepsSlices(j, all, more);
    if more == [] {
      assert j.data + more == j.data;
    }
    match e {
      case Pong(_) =>
      case FinisherTakes =>
      case FinisherPublishes =>
      case InitialPing(_) =>
      case Retry(_) =>
      case GivesUp =>
      case PublishesFailure =>
      case _ =>
    }
  }

  lemma {:induction false} RunKeepsSlices(j: Job, events: seq<Event>, all: Samples)
    requires ValidRun(j, events) && SliceInv(j, all)
    ensures SliceInv(Final(j, events), all + Arrived(events))
    decreases |events|
  {
    hide Step, Enabled, SliceInv, Arriving;
    if events == [] {
      assert all + [] == all;
    } else {
      SliceInvStep(j, events[0], all);
      RunKeepsSlices(Step(j, events[0]), events[1..], all + Arriving(events[0]));
      assert all + Arriving(events[0]) + Arrived(events[1..]) == all + Arrived(events);
    }
  }

  /** A forwarded vector is a contiguous stretch of what the PONGs brought, in arrival order. */
  lemma ForwardedAsReceived(events: seq<Event>)
    requires ValidRun(Initial(), events)
    ensures var j := Final(Initial(), events);
            j.forwarded.Some? ==> Slice(j.forwarded.value, Arrived(events))
  {
    RunKeepsSlices(Initial(), events, []);
    RunKeepsInvariants(Initial(), events);
    assert [] + Arrived(events) == Arrived(events);
  }

  /** Samples collected before giving up, and not yet taken by the finisher, are never forwarded. */
  lemma DiscardedStaysDiscarded(j: Job, events: seq<Event>)
    requires SlotInv(j) && SampleInv(j) && HistoryInv(j) && j.published == [] && !j.finisher.Holding?
    requires Enabled(j, GivesUp) && ValidRun(Step(j, GivesUp), events)
    ensures var after := Final(Step(j, GivesUp), events);
            after.forwarded.Some? ==> Slice(after.forwarded.value, Arrived(events))
  {
    var j' := Step(j, GivesUp);
    SampleInvStep(j, GivesUp);
    HistoryInvStep(j, GivesUp);
    SlotInvStep(j, GivesUp);
    assert SliceInv(j', []);
    RunKeepsSlices(j', events, []);
    RunKeepsInvariants(j', events);
    assert [] + Arrived(events) == Arrived(events);
  }

  // ----- attempts -----

  /** Retry pings that went out. */
  function Retries(events: seq<Event>): nat {
    if events == [] then 0 else (if events[0] == Retry(true) then 1 else 0) + Retries(events[1..])
  }

  predicate TimerInv(j: Job) {
    j.started <= 5 && (j.timer == GivingUp ==> j.started == 5)
  }

  lemma TimerInvStep(j: Job, e: Event)
    requires TimerInv(j) && Enabled(j, e)
    ensures TimerInv(Step(j, e)) && Step(j, e).started == j.started + (if e == Retry(true) then 1 else 0)
  {
    hide PongSamples;
  }

  lemma {:induction false} RunCountsRetries(j: Job, events: seq<Event>)
    requires ValidRun(j, events) && TimerInv(j)
    ensures TimerInv(Final(j, events)) && Final(j, events).started == j.started + Retries(events)
    decreases |events|
  {
    hide Step, Enabled, TimerInv;
    if events != [] {
      TimerInvStep(j, events[0]);
      RunCountsRetries(Step(j, events[0]), events[1..]);
    }
  }

  /** At most five retries go out, and the timer gives up after exactly five. */
  lemma GivesUpAfterFive(events: seq<Event>)
    requires ValidRun(Initial(), events)
    ensures Retries(events) <= 5
    ensures Enabled(Final(Initial(), events), GivesUp) ==> Retries(events) == 5
  {
    RunCountsRetries(Initial(), events);
  }

  // ----- an exactly affine ghost clock -----

  /** The remote clock as a function of local microseconds. */
  function GhostClock(clock: Line, hostMicros: real): real {
    Height(clock, hostMicros)
  }

  /** The PONG was answered half way between ping and arrival, and so was the one before it. */
  predicate MidpointReading(r: Reading, clock: Line) {
    var host, previousHost := Micros(r.host), Micros(r.previousHost);
    var ghostTime, previousGhost := Micros(r.ghostTime), Micros(r.previousGhost);
    && ghostTime as real == GhostClock(clock, (host + previousHost) as real * 0.5)
    && (previousGhost != 0 ==>
          (ghostTime + previousGhost) as real * 0.5 == GhostClock(clock, previousHost as real))
  }

  /** Samples are offsets from host time, so they lie on the clock's line lowered by the identity. */
  function OffsetLine(clock: Line): Line {
    Line(clock.slope - 1.0, clock.intercept)
  }

  ghost predicate AllOnLine(samples: Samples, l: Line) {
    forall i :: 0 <= i < |samples| ==> OnLine(samples[i], l)
  }

  lemma SamplesOnLine(r: Reading, clock: Line)
    requires MidpointReading(r, clock) && PongSamples(r).Some?
    ensures AllOnLine(PongSamples(r).value, OffsetLine(clock))
  {
    var samples := PongSamples(r).value;
    forall i | 0 <= i < |samples| ensures OnLine(samples[i], OffsetLine(clock)) {
      LowerLine(clock, samples[i].x);
    }
  }

  lemma LowerLine(clock: Line, x: real)
    ensures Height(OffsetLine(clock), x) == Height(clock, x) - x
  {
    assert (clock.slope - 1.0) * x == clock.slope * x - x;
  }

  ghost predicate LineInv(j: Job, l: Line) {
    && AllOnLine(j.data, l)
    && (j.finisher.Holding? ==> AllOnLine(j.finisher.samples, l))
    && (forall k :: 0 <= k < |j.published| ==> AllOnLine(j.published[k], l))
  }

  lemma LineInvStep(j: Job, e: Event, clock: Line)
    requires Enabled(j, e) && LineInv(j, OffsetLine(clock))
    requires e.Pong? ==> MidpointReading(e.reading, clock)
    ensures LineInv(Step(j, e), OffsetLine(clock))
  {
    hide OnLine, OffsetLine, MidpointReading, PongSamples;
    match e {
      case Pong(r) =>
        if PongSamples(r).Some? {
          SamplesOnLine(r, clock);
        }
      case FinisherTakes =>
      case FinisherPublishes =>
      case InitialPing(_) =>
      case Retry(_) =>
      case GivesUp =>
      case PublishesFailure =>
      case _ =>
    }
  }

  lemma {:induction false} RunOnLine(j: Job, events: seq<Event>, clock: Line)
    requires ValidRun(j, events) && LineInv(j, OffsetLine(clock))
    requires forall i :: 0 <= i < |events| && events[i].Pong? ==> MidpointReading(events[i].reading, clock)
    ensures LineInv(Final(j, events), OffsetLine(clock))
    decreases |events|
  {
    if events != [] {
      LineInvStep(j, events[0], clock);
      RunOnLine(Step(j, events[0]), events[1..], clock);
    }
  }

  /**
   The job measures an exactly affine clock exactly, its slope and its intercept to the
   microsecond, if and only if two samples differ in host time or the clock runs at rate one.
   */
  lemma AffineClockRecovered(events: seq<Event>, clock: Line)
    requires ValidRun(Initial(), events)
    requires forall i :: 0 <= i < |events| && events[i].Pong? ==> MidpointReading(events[i].reading, clock)
    ensures var j := Final(Initial(), events);
            j.forwarded.Some? && j.forwarded.value != [] ==>
              (ChooseTransform(j.forwarded.value)
                 == XForm(clock.slope, Clamp(RoundHalfAway(clock.intercept), I64_MIN, I64_MAX))
               <==> !SameX(j.forwarded.value) || clock.slope == 1.0)
  {
    var j := Final(Initial(), events);
    RunOnLine(Initial(), events, clock);
    RunKeepsInvariants(Initial(), events);
    if j.forwarded.Some? && j.forwarded.value != [] {
      assert AllOnLine(j.published[0], OffsetLine(clock));
      FallbackUnreachable(events);
      hide ValidRun, Final, RoundHalfAway;
      RecoversLineExactlyWhen(j.forwarded.value, OffsetLine(clock));
      if SameX(j.forwarded.value) {
        LevelFit(j.forwarded.value, 0.0);
      }
    }
  }

  // ----- a run that loses the slope -----

  /** A clock at twice the host's rate, read again and again at the same host microsecond. */
  const DOUBLE_RATE: Line := Line(2.0, 0.0)
  const SAME_INSTANT: Reading := Reading(1000, 1000, 2000, 2000)

  function Copies(n: nat): Samples {
    seq(n, _ => Point(1.0, 1.0))
  }

  /** The job after k such PONGs. */
  function AfterPongs(k: nat): Job {
    Initial().(data := Copies(2 * k), listener := if 2 * k > NUMBER_DATA_POINTS then Signalling else Listening)
  }

  lemma SameInstantSamples()
    ensures PongSamples(SAME_INSTANT) == Some(Copies(2)) && MidpointReading(SAME_INSTANT, DOUBLE_RATE)
  {
    assert Micros(1000) == 1 && Micros(2000) == 2;
    assert Copies(2) == [Point(1.0, 1.0), Point(1.0, 1.0)];
  }

  lemma Prepend(j: Job, e: Event, rest: seq<Event>) returns (events: seq<Event>)
    requires Enabled(j, e) && ValidRun(Step(j, e), rest)
    ensures events == [e] + rest && ValidRun(j, events) && Final(j, events) == Final(Step(j, e), rest)
  {
    events := [e] + rest;
    assert events[1..] == rest;
  }

  lemma {:induction false} PongsReach(k: nat, tail: seq<Event>)
    requires k <= 11 && ValidRun(AfterPongs(11), tail)
    ensures ValidRun(AfterPongs(k), seq(11 - k, _ => Pong(SAME_INSTANT)) + tail)
    ensures Final(AfterPongs(k), seq(11 - k, _ => Pong(SAME_INSTANT)) + tail) == Final(AfterPongs(11), tail)
    decreases 11 - k
  {
    hide PongSamples, ValidRun, Final;
    var pongs := seq(11 - k, _ => Pong(SAME_INSTANT));
    if k == 11 {
      assert pongs + tail == tail;
    } else {
      var rest := seq(11 - (k + 1), _ => Pong(SAME_INSTANT));
      SameInstantSamples();
      assert Copies(2 * k) + Copies(2) == Copies(2 * (k + 1));
      PongsReach(k + 1, tail);
      var events := Prepend(AfterPongs(k), Pong(SAME_INSTANT), rest + tail);
      assert pongs + tail == events;
    }
  }

  /** The finisher publishes a complete vector and the owner forwards it. */
  lemma BringsHome(j: Job) returns (events: seq<Event>)
    requires j == AfterPongs(11)
    ensures ValidRun(j, events) && Final(j, events).forwarded == Some(j.data)
    ensures forall i :: 0 <= i < |events| ==> !events[i].Pong?
  {
    hide PongSamples, ValidRun, Final, Copies;
    var s1 := Step(j, Signal);
    events := FinisherDelivers(Step(s1, FinisherWakes));
    events := Prepend(s1, FinisherWakes, events);
    events := Prepend(j, Signal, events);
  }

  predicate Unanswered(j: Job) {
    !j.cancelled && j.received == None && !j.closed && j.forwarded == None
  }

  lemma FinisherDelivers(j: Job) returns (events: seq<Event>)
    requires Unanswered(j) && j.finisher == Finishing && j.timer == Starting && j.slot == None
    ensures ValidRun(j, events) && Final(j, events).forwarded == Some(j.data)
    ensures forall i :: 0 <= i < |events| ==> !events[i].Pong?
  {
    hide PongSamples, ValidRun, Final;
    var s1 := Step(j, FinisherTakes);
    var s2 := Step(s1, FinisherPublishes);
    events := TimerLetsGo(Step(s2, FinisherNotifies));
    events := Prepend(s2, FinisherNotifies, events);
    events := Prepend(s1, FinisherPublishes, events);
    events := Prepend(j, FinisherTakes, events);
  }

  lemma TimerLetsGo(j: Job) returns (events: seq<Event>)
    requires Unanswered(j) && j.timer == Starting && j.notified && j.slot.Some?
    ensures ValidRun(j, events) && Final(j, events).forwarded == j.slot
    ensures forall i :: 0 <= i < |events| ==> !events[i].Pong?
  {
    hide PongSamples, ValidRun, Final;
    var s1 := Step(j, InitialPing(true));
    events := OwnerForwards(Step(s1, TimerStops));
    events := Prepend(s1, TimerStops, events);
    events := Prepend(j, InitialPing(true), events);
  }

  lemma OwnerForwards(j: Job) returns (events: seq<Event>)
    requires Unanswered(j) && j.timer == Exited && j.slot.Some?
    ensures ValidRun(j, events) && Final(j, events).forwarded == j.slot
    ensures forall i :: 0 <= i < |events| ==> !events[i].Pong?
  {
    hide PongSamples, ValidRun, Final;
    var s1 := Step(j, Receive);
    var s2 := Step(s1, Close);
    events := NoEvents(Step(s2, Forward(true)));
    events := Prepend(s2, Forward(true), events);
    events := Prepend(s1, Close, events);
    events := Prepend(j, Receive, events);
  }

  lemma NoEvents(j: Job) returns (events: seq<Event>)
    ensures events == [] && ValidRun(j, events) && Final(j, events) == j
  {
    events := [];
  }

  /** Eleven PONGs at one host time: the forwarded samples share their abscissa and the measured rate is one. */
  lemma EqualInstantsLoseTheSlope() returns (events: seq<Event>)
    ensures ValidRun(Initial(), events)
    ensures forall i :: 0 <= i < |events| && events[i].Pong? ==> MidpointReading(events[i].reading, DOUBLE_RATE)
    ensures Final(Initial(), events).forwarded == Some(Copies(22)) && SameX(Copies(22))
    ensures ChooseTransform(Copies(22)).slope == 1.0 != DOUBLE_RATE.slope
  {
    hide ValidRun, Final;
    var tail := BringsHome(AfterPongs(11));
    var pongs := seq(11, _ => Pong(SAME_INSTANT));
    PongsReach(0, tail);
    events := pongs + tail;
    assert AfterPongs(0) == Initial() by {
      assert Copies(0) == [];
    }
    SameInstantSamples();
    LevelFit(Copies(22), 1.0);
  }
}
