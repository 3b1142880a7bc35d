/** What every run of the announcement pipeline keeps, whatever the interleaving. */
module PipelineSafety {
  import opened Wrappers
  import opened DiscoveryTypes
  import opened Pipeline
  import opened PipelineRoutes
  import Peers
  import Timeouts
  import Routes

  // ----- commits: never stale, never late -----

  /**
   * At its commit the item was the latest word of its node and its own deadline had not passed when it was
   * checked; the gateway and the observer read the clock no later than that check.
   */
  predicate TimelyAndLatest(before: seq<Entry>, d: Entry)
    requires d.Done?
  {
    var it := d.item;
    && LastSeen(before, it.state.node) == Some(OwnEntry(it))
    && it.expires == it.received + it.ttl * SECOND
    && it.received <= d.checked <= d.at
    && !Expired(it, d.checked)
    && (!d.stage.Delivery? ==> d.checked == d.at)
  }

  predicate CommitsOk(log: seq<Entry>) {
    forall i :: 0 <= i < |log| && log[i].Done? ==> TimelyAndLatest(log[..i], log[i])
  }

  lemma PushKeepsCommits(log: seq<Entry>, x: Entry)
    requires CommitsOk(log)
    requires x.Done? ==> TimelyAndLatest(log, x)
    ensures CommitsOk(log + [x])
  {
    var all := log + [x];
    forall i | 0 <= i < |all| && all[i].Done? ensures TimelyAndLatest(all[..i], all[i]) {
      if i < |log| {
        assert all[..i] == log[..i];
      } else {
        assert all[..i] == log;
      }
    }
  }

  lemma CommitIsTimely(s: System, d: Entry)
    requires d.Done? && Owners(s) && Queued(s, d.item) && Uncancelled(s, d.item)
    requires s.now <= d.checked <= d.at && !Expired(d.item, d.checked) && (!d.stage.Delivery? ==> d.checked == d.at)
    ensures TimelyAndLatest(s.log, d)
  {
    assert ItemOk(s, d.item);
  }

  lemma StepKeepsCommits(s: System, e: Event, s': System)
    requires Owners(s) && CommitsOk(s.log) && Step(s, e, s')
    ensures CommitsOk(s'.log)
  {
    hide Owners, CommitsOk, HintsStep, Owned, TimelyAndLatest;
    match e {
      case Datagram(_, _, _, _, _, _, _) =>
        PushKeepsCommits(s.log, s'.log[|s.log|]);
      case Deliver(i, checkAt, recordAt) =>
        if Delivers(s, e) {
          CommitIsTimely(s, Done(Delivery, s.handoff[i], checkAt, recordAt));
          PushKeepsCommits(s.log, s'.log[|s.log|]);
        }
      case Publish(at) =>
        if s'.log != s.log {
          CommitIsTimely(s, Done(Gateway, s.events[0], at, at));
          PushKeepsCommits(s.log, s'.log[|s.log|]);
        }
      case Apply(at) =>
        if s'.log != s.log {
          assert s.queue[0] in s.queue;
          CommitIsTimely(s, Done(Observer, s.queue[0].item, at, at));
          PushKeepsCommits(s.log, s'.log[|s.log|]);
        }
      case _ =>
    }
  }

  // ----- no orphaned peers -----

  predicate Departs(e: PeerEvent, node: NodeId) {
    e == PeerLeft(node) || e == PeerTimedOut(node)
  }

  /** The gateway still watches the node, or its departure waits in the queue from this position on. */
  predicate Covered(s: System, node: NodeId, from: nat) {
    || Timeouts.Lists(s.timeouts, node)
    || exists j :: from <= j < |s.queue| && Departs(s.queue[j], node)
  }

  predicate NoOrphans(s: System) {
    && (forall i :: 0 <= i < |s.peers| ==> Covered(s, s.peers[i].node, 0))
    && (forall i :: 0 <= i < |s.queue| && s.queue[i].Observed? ==> Covered(s, s.queue[i].item.state.node, i + 1))
  }

  /** The gateway stops watching a node only by reporting it gone, and watches what it reports observed. */
  lemma WatchedOrReported(ts: seq<Timeouts.Timeout>, op: Timeouts.Op, node: NodeId)
    requires Timeouts.Valid(ts)
    ensures var sent := Timeouts.Outcome(ts, op);
            && (Timeouts.Lists(ts, node) ==>
                  || Timeouts.Lists(Timeouts.Next(ts, op), node)
                  || sent == Some(Timeouts.PeerLeft(node)) || sent == Some(Timeouts.PeerTimedOut(node)))
            && (sent == Some(Timeouts.Observed(node)) ==> Timeouts.Lists(Timeouts.Next(ts, op), node))
  {
    Timeouts.StepKeepsValid(ts, op);
    Timeouts.DeadlinesLists(ts, node);
    Timeouts.DeadlinesLists(Timeouts.Next(ts, op), node);
  }

  /** A gateway step: the timeouts change and at most one event is appended. */
  lemma GatewayKeepsCovered(s: System, s': System, op: Timeouts.Op, items: seq<Item>, node: NodeId, from: nat)
    requires Timeouts.Valid(s.timeouts) && Covered(s, node, from) && from <= |s.queue|
    requires s'.timeouts == Timeouts.Next(s.timeouts, op)
    requires s'.queue == s.queue + Sent(Timeouts.Outcome(s.timeouts, op), items)
    ensures Covered(s', node, from)
  {
    hide Timeouts.Next, Timeouts.Outcome, Timeouts.Lists;
    WatchedOrReported(s.timeouts, op, node);
    if exists j :: from <= j < |s.queue| && Departs(s.queue[j], node) {
      var j :| from <= j < |s.queue| && Departs(s.queue[j], node);
      assert s'.queue[j] == s.queue[j];
    } else if !Timeouts.Lists(s'.timeouts, node) {
      assert Departs(s'.queue[|s.queue|], node);
    }
  }

  lemma GatewayKeepsNoOrphans(s: System, s': System, op: Timeouts.Op, items: seq<Item>)
    requires Timeouts.Valid(s.timeouts) && NoOrphans(s) && s'.peers == s.peers
    requires s'.timeouts == Timeouts.Next(s.timeouts, op)
    requires s'.queue == s.queue + Sent(Timeouts.Outcome(s.timeouts, op), items)
    requires op.Announce? ==> |items| == 1 && items[0].state.node == op.node
    ensures NoOrphans(s')
  {
    hide Timeouts.Next, Timeouts.Lists, Covered;
    forall i | 0 <= i < |s'.peers| ensures Covered(s', s'.peers[i].node, 0) {
      GatewayKeepsCovered(s, s', op, items, s.peers[i].node, 0);
    }
    forall i | 0 <= i < |s'.queue| && s'.queue[i].Observed? ensures Covered(s', s'.queue[i].item.state.node, i + 1) {
      if i < |s.queue| {
        assert s'.queue[i] == s.queue[i];
        GatewayKeepsCovered(s, s', op, items, s.queue[i].item.state.node, i + 1);
      } else {
        NewlyWatched(s, s', op, i + 1);
      }
    }
  }

  lemma NewlyWatched(s: System, s': System, op: Timeouts.Op, from: nat)
    requires Timeouts.Valid(s.timeouts) && s'.timeouts == Timeouts.Next(s.timeouts, op)
    requires op.Announce? && Timeouts.Outcome(s.timeouts, op) == Some(Timeouts.Observed(op.node))
    ensures Covered(s', op.node, from)
  {
    WatchedOrReported(s.timeouts, op, op.node);
  }

  /** Taking the head off the queue. */
  lemma PopKeepsCovered(s: System, s': System, node: NodeId, from: nat)
    requires s.queue != [] && s'.queue == s.queue[1..] && s'.timeouts == s.timeouts
    requires Covered(s, node, from + 1) || (from == 0 && Covered(s, node, 0) && !Departs(s.queue[0], node))
    ensures Covered(s', node, from)
  {
    if !Timeouts.Lists(s.timeouts, node) {
      var j :| from + 1 <= j < |s.queue| && Departs(s.queue[j], node);
      assert s'.queue[j - 1] == s.queue[j];
    }
  }

  lemma PopKeepsNoOrphans(s: System, s': System)
    requires NoOrphans(s) && s.queue != [] && s'.queue == s.queue[1..] && s'.timeouts == s.timeouts
    requires forall i :: 0 <= i < |s'.peers| ==>
               || (Covered(s, s'.peers[i].node, 0) && !Departs(s.queue[0], s'.peers[i].node))
               || Covered(s, s'.peers[i].node, 1)
    ensures NoOrphans(s')
  {
    hide Covered;
    forall i | 0 <= i < |s'.peers| ensures Covered(s', s'.peers[i].node, 0) {
      PopKeepsCovered(s, s', s'.peers[i].node, 0);
    }
    forall i | 0 <= i < |s'.queue| && s'.queue[i].Observed? ensures Covered(s', s'.queue[i].item.state.node, i + 1) {
      assert s'.queue[i] == s.queue[i + 1];
      PopKeepsCovered(s, s', s'.queue[i].item.state.node, i + 1);
    }
  }

  lemma ApplyKeepsNoOrphans(s: System, at: Instant)
    requires NoOrphans(s) && s.queue != [] && Peers.UniqueNodes(s.peers, s.self)
    ensures NoOrphans(AfterApply(s, at))
  {
    hide Covered, Current, Peers.UniqueNodes, Peers.Upserted, Peers.Without;
    var s' := AfterApply(s, at);
    forall i | 0 <= i < |s'.peers|
      ensures var n := s'.peers[i].node;
              (Covered(s, n, 0) && !Departs(s.queue[0], n)) || Covered(s, n, 1)
    {
      match s.queue[0] {
        case PeerLeft(n) => Peers.WithoutShrinks(s.peers, n);
        case PeerTimedOut(n) => Peers.WithoutShrinks(s.peers, n);
        case Observed(it) =>
          Peers.WithoutShrinks(s.peers, it.state.node);
          if it.state.node != s.self {
            Peers.UpsertFacts(s.peers, it.state, s.self);
          }
      }
    }
    PopKeepsNoOrphans(s, s');
  }

  lemma StepKeepsNoOrphans(s: System, e: Event, s': System)
    requires NoOrphans(s) && Timeouts.Valid(s.timeouts) && Peers.UniqueNodes(s.peers, s.self) && Step(s, e, s')
    ensures NoOrphans(s')
  {
    hide Covered, Current, HintsStep, Owned, Timeouts.Next, Timeouts.Valid, Peers.UniqueNodes;
    match e {
      case Publish(at) =>
        var it := s.events[0];
        if s'.log != s.log {
          GatewayKeepsNoOrphans(s, s', Timeouts.Announce(it.state.node, it.ttl, it.expires, at), [it]);
        } else {
          SameQueueNoOrphans(s, s');
        }
      case Byebye(n) => GatewayKeepsNoOrphans(s, s', Timeouts.Byebye(n), []);
      case Prune(at) => GatewayKeepsNoOrphans(s, s', Timeouts.Prune(at), []);
      case Apply(at) => ApplyKeepsNoOrphans(s, at);
      case DropObserved => PopKeepsNoOrphans(s, s');
      case _ => SameQueueNoOrphans(s, s');
    }
  }

  lemma SameQueueNoOrphans(s: System, s': System)
    requires NoOrphans(s) && s'.queue == s.queue && s'.timeouts == s.timeouts && s'.peers == s.peers
    ensures NoOrphans(s')
  {
    forall node, from: nat | Covered(s, node, from) ensures Covered(s', node, from) {}
  }

  // ----- gateway timeouts and listed peers come from commits -----

  /** The timeout comes from an announcement the gateway committed, at its own deadline or three silent seconds. */
  ghost predicate TimeoutBacked(log: seq<Entry>, node: NodeId, time: Instant) {
    exists it, at :: Done(Gateway, it, at, at) in log && it.state.node == node && it.ttl > 0
                     && time <= it.received + it.ttl * 1_000_000_000 && time <= at + 3_000_000_000
                     && (time == it.received + it.ttl * 1_000_000_000 || time == at + 3_000_000_000)
  }

  ghost predicate PeerBacked(log: seq<Entry>, p: Peers.PeerState) {
    exists it, at :: Done(Observer, it, at, at) in log && it.state == p && it.ttl > 0
  }

  ghost predicate Backed(s: System) {
    && (forall n :: n in Timeouts.Deadlines(s.timeouts) ==> TimeoutBacked(s.log, n, Timeouts.Deadlines(s.timeouts)[n]))
    && (forall p :: p in s.peers ==> PeerBacked(s.log, p))
  }

  lemma LogGrows(s: System, e: Event, s': System)
    requires Step(s, e, s')
    ensures |s.log| <= |s'.log| && s'.log[..|s.log|] == s.log
    ensures forall x :: x in s.log ==> x in s'.log
  {
    hide HintsStep, Owned, Current, Timeouts.Next, Timeouts.Outcome;
  }

  lemma GatewayStep(s: System, e: Event, s': System, n: NodeId)
    requires Owners(s) && Timeouts.Valid(s.timeouts) && Step(s, e, s') && n in Timeouts.Deadlines(s'.timeouts)
    ensures var d, d' := Timeouts.Deadlines(s.timeouts), Timeouts.Deadlines(s'.timeouts);
            || (n in d && d[n] == d'[n])
            || TimeoutBacked(s'.log, n, d'[n])
    ensures Timeouts.Valid(s'.timeouts)
  {
    hide HintsStep, Owned, Timeouts.Next, Timeouts.Valid;
    match e {
      case Publish(at) =>
        var it := s.events[0];
        var op := Timeouts.Announce(it.state.node, it.ttl, it.expires, at);
        Timeouts.StepKeepsValid(s.timeouts, op);
        if s'.log != s.log {
          assert s'.log[|s.log|] == Done(Gateway, it, at, at);
          assert ItemOk(s, it);
        }
      case Byebye(m) => Timeouts.StepKeepsValid(s.timeouts, Timeouts.Byebye(m));
      case Prune(at) => Timeouts.StepKeepsValid(s.timeouts, Timeouts.Prune(at));
      case _ =>
    }
  }

  lemma ObserverStep(s: System, e: Event, s': System, p: Peers.PeerState)
    requires Peers.UniqueNodes(s.peers, s.self) && Step(s, e, s')
    ensures Peers.UniqueNodes(s'.peers, s'.self) && s'.self == s.self
    ensures p in s'.peers ==> p in s.peers || PeerBacked(s'.log, p)
  {
    hide HintsStep, Owned, Current, Timeouts.Next, Timeouts.Outcome, Peers.UniqueNodes, Peers.Upserted, Peers.Without;
    if e.Apply? {
      match s.queue[0] {
        case PeerLeft(n) =>
          Peers.UniqueStep(s.peers, s.self, Peers.Remove(n));
          Peers.WithoutShrinks(s.peers, n);
        case PeerTimedOut(n) =>
          Peers.UniqueStep(s.peers, s.self, Peers.Remove(n));
          Peers.WithoutShrinks(s.peers, n);
        case Observed(it) => ObservedStep(s, it, e.at, s', p);
      }
    }
  }

  lemma ObservedStep(s: System, it: Item, at: Instant, s': System, p: Peers.PeerState)
    requires Peers.UniqueNodes(s.peers, s.self)
    requires s.queue != [] && s.queue[0] == Observed(it) && s' == AfterApply(s, at)
    ensures Peers.UniqueNodes(s'.peers, s'.self)
    ensures p in s'.peers ==> p in s.peers || PeerBacked(s'.log, p)
  {
    hide Current, Peers.UniqueNodes, Peers.Upserted, Peers.Without;
    Peers.UniqueStep(s.peers, s.self, Peers.Remove(it.state.node));
    Peers.UniqueStep(s.peers, s.self, Peers.Apply(it.state, false));
    Peers.WithoutShrinks(s.peers, it.state.node);
    if it.state.node != s.self {
      Peers.UpsertFacts(s.peers, it.state, s.self);
    }
    if s'.log != s.log {
      assert s'.log[|s.log|] == Done(Observer, it, at, at);
    }
  }

  lemma StepKeepsBacked(s: System, e: Event, s': System)
    requires Owners(s) && Timeouts.Valid(s.timeouts) && Peers.UniqueNodes(s.peers, s.self)
    requires Backed(s) && Step(s, e, s')
    ensures Backed(s')
  {
    LogGrows(s, e, s');
    hide Step, Owners, Timeouts.Valid, Timeouts.Deadlines, Peers.UniqueNodes;
    forall n | n in Timeouts.Deadlines(s'.timeouts)
      ensures TimeoutBacked(s'.log, n, Timeouts.Deadlines(s'.timeouts)[n])
    {
      GatewayStep(s, e, s', n);
    }
    forall p | p in s'.peers ensures PeerBacked(s'.log, p) {
      ObserverStep(s, e, s', p);
    }
  }

  // ----- every reachable state -----

  ghost predicate Inv(s: System) {
    && Owners(s) && CommitsOk(s.log)
    && Timeouts.Valid(s.timeouts) && Peers.UniqueNodes(s.peers, s.self) && NoOrphans(s) && Backed(s)
    && TimesOk(s) && HintsOk(s)
  }

  lemma StepKeepsInv(s: System, e: Event, s': System)
    requires Inv(s) && Step(s, e, s')
    ensures Inv(s')
  {
    StepKeepsOwners(s, e, s');
    StepKeepsCommits(s, e, s');
    StepKeepsNoOrphans(s, e, s');
    StepKeepsBacked(s, e, s');
    TimesStep(s, e, s');
    StepKeepsHints(s, e, s');
    ValidStep(s, e, s');
    ObserverStep(s, e, s', Peers.PeerState(0, 0, 0, 0, None, None));
  }

  lemma ValidStep(s: System, e: Event, s': System)
    requires Timeouts.Valid(s.timeouts) && Step(s, e, s')
    ensures Timeouts.Valid(s'.timeouts)
  {
    hide HintsStep, Owned, Current, Timeouts.Next, Timeouts.Valid;
    match e {
      case Publish(at) =>
        var it := s.events[0];
        Timeouts.StepKeepsValid(s.timeouts, Timeouts.Announce(it.state.node, it.ttl, it.expires, at));
      case Byebye(n) => Timeouts.StepKeepsValid(s.timeouts, Timeouts.Byebye(n));
      case Prune(at) => Timeouts.StepKeepsValid(s.timeouts, Timeouts.Prune(at));
      case _ =>
    }
  }

  lemma {:induction false} RunKeepsInv(states: seq<System>, events: seq<Event>, i: nat)
    requires IsRun(states, events) && i < |states|
    ensures Inv(states[i])
  {
    if i > 0 {
      RunKeepsInv(states, events, i - 1);
      assert Step(states[i - 1], events[i - 1], states[i - 1 + 1]);
      StepKeepsInv(states[i - 1], events[i - 1], states[i]);
    }
  }

  // ----- the theorems -----

  /** Among all queued work of a node at most one revision is live, and it is the one the index holds. */
  lemma OneLiveRevisionPerNode(states: seq<System>, events: seq<Event>, i: nat, a: Item, b: Item)
    requires IsRun(states, events) && i < |states|
    requires Queued(states[i], a) && Uncancelled(states[i], a)
    requires Queued(states[i], b) && Uncancelled(states[i], b) && a.state.node == b.state.node
    ensures a.rev == b.rev
    ensures a.state.node in states[i].index.pending && states[i].index.pending[a.state.node] == a.rev
  {
    RunKeepsInv(states, events, i);
  }

  /**
   * Whatever is delivered, published or applied is the latest datagram parsed for its node, even if later ones
   * were dropped for want of room. Its deadline is the one it arrived with; every stage checks it in time, and
   * the gateway and the observer take effect before it.
   */
  lemma CommitsAreLatestAndTimely(states: seq<System>, events: seq<Event>, i: nat, k: nat)
    requires IsRun(states, events) && i < |states|
    requires k < |states[i].log| && states[i].log[k].Done?
    ensures var log := states[i].log;
            var it := log[k].item;
            && it.expires == it.received + it.ttl * SECOND
            && it.received <= log[k].checked <= log[k].at
            && (it.ttl > 0 ==> log[k].checked < it.expires)
            && (it.ttl > 0 && !log[k].stage.Delivery? ==> log[k].at < it.expires)
            && exists j :: 0 <= j < k && log[j] == OwnEntry(it)
                           && forall m :: j < m < k && log[m].Seen? ==> log[m].node != it.state.node
  {
    RunKeepsInv(states, events, i);
    var log := states[i].log;
    var it := log[k].item;
    assert TimelyAndLatest(log[..k], log[k]);
    var j := LastSeenIsSeen(log[..k], it.state.node);
    assert forall m :: 0 <= m < k ==> log[..k][m] == log[m];
  }

  // ----- late deliveries -----

  /** The deadline passes between a delivery's check and its last reading of the clock. */
  predicate LateDelivery(s: System, e: Event) {
    && e.Deliver? && Enabled(s, e) && Delivers(s, e)
    && s.handoff[e.i].ttl > 0 && e.checkAt < s.handoff[e.i].expires <= e.recordAt
  }

  /** No hint left carries this deadline or an earlier one. */
  ghost predicate AllExpireAfter(hints: Routes.RouteMap, t: Instant) {
    forall k :: k in hints ==> hints[k].expires > t
  }

  /** A delivered announcement has outlived itself in the events exactly when its delivery was late. */
  lemma LateExactlyWhen(s: System, e: Event, s': System)
    requires Step(s, e, s') && e.Deliver? && Delivers(s, e)
    ensures var it := s.handoff[e.i];
            && s'.events == s.events + [it]
            && s'.log == s.log + [Done(Delivery, it, e.checkAt, e.recordAt)]
            && (Expired(it, s'.now) <==> LateDelivery(s, e))
  {
    hide HintsStep, Current;
  }

  /** A late delivery leaves no hint behind: its key is gone, and so is everything that expired with it. */
  lemma LateLeavesNoHint(s: System, e: Event, s': System)
    requires Inv(s) && Step(s, e, s') && LateDelivery(s, e)
    ensures var it := s.handoff[e.i];
            && AllExpireAfter(s'.hints, it.expires)
            && (forall k :: k in s'.hints && k.node == it.state.node ==>
                  it.state.measurementEndpoint.Some? && k.endpoint != it.state.measurementEndpoint.value)
  {
    var it := s.handoff[e.i];
    RecordingIsLatest(s, e, s');
    assert Routes.Recorded(s.hints, RecordOf(it), false, e.recordAt, s.leases, s'.hints) && it.lease in s.leases;
    assert HintsOk(s);
    hide Step, Inv, Owners, HintsStep, Delivers, Routes.Recorded, Routes.Bounded, HintBacked;
    forall k | k in s.hints && k.node == it.state.node ensures s.hints[k].observed <= it.received {
      assert HintTimely(s.log, k.node, s.hints[k].observed);
    }
    Routes.LateRecordDrops(s.hints, RecordOf(it), e.recordAt, s.leases, s'.hints);
  }

  lemma {:induction false} NowNeverRunsBack(states: seq<System>, events: seq<Event>, i: nat, j: nat)
    requires IsRun(states, events) && i <= j < |states|
    ensures states[i].now <= states[j].now
    decreases j - i
  {
    if i < j {
      NowNeverRunsBack(states, events, i, j - 1);
      assert Step(states[j - 1], events[j - 1], states[j - 1 + 1]);
      StepAppends(states[j - 1], events[j - 1], states[j]);
    }
  }

  /** Publishing or applying an announcement past its deadline only takes it off its queue. */
  lemma ExpiredIsInert(s: System, e: Event, s': System)
    requires Step(s, e, s')
    ensures e.Publish? && Expired(s.events[0], s.now) ==> s' == s.(now := e.at, events := s.events[1..])
    ensures e.Apply? && s.queue[0].Observed? && Expired(s.queue[0].item, s.now) ==>
              s' == s.(now := e.at, queue := s.queue[1..])
    ensures e.Deliver? && Expired(s.handoff[e.i], s.now) ==> !Delivers(s, e)
  {
    hide Timeouts.Next;
  }

  /** A late delivery is harmless: no hint of it is left, and no later step of it changes anything. */
  lemma LateDeliveryIsHarmless(states: seq<System>, events: seq<Event>, d: nat, j: nat)
    requires IsRun(states, events) && d < j < |events| && LateDelivery(states[d], events[d])
    ensures var it := states[d].handoff[events[d].i];
            var s, e, s' := states[j], events[j], states[j + 1];
            && AllExpireAfter(states[d + 1].hints, it.expires)
            && (e.Publish? && s.events[0] == it ==> s' == s.(now := e.at, events := s.events[1..]))
            && (e.Apply? && s.queue[0] == Observed(it) ==> s' == s.(now := e.at, queue := s.queue[1..]))
            && (e.Deliver? && s.handoff[e.i] == it ==> !Delivers(s, e))
  {
    var it := states[d].handoff[events[d].i];
    RunKeepsInv(states, events, d);
    assert Step(states[d], events[d], states[d + 1]);
    assert Step(states[j], events[j], states[j + 1]);
    hide Inv, Step;
    LateLeavesNoHint(states[d], events[d], states[d + 1]);
    LateExactlyWhen(states[d], events[d], states[d + 1]);
    NowNeverRunsBack(states, events, d + 1, j);
    ExpiredIsInert(states[j], events[j], states[j + 1]);
  }

  /** Once a withdrawal is parsed, nothing announced before it takes effect at any stage. */
  lemma WithdrawalIsFinal(states: seq<System>, events: seq<Event>, i: nat, w: nat, k: nat)
    requires IsRun(states, events) && i < |states|
    requires w < k < |states[i].log| && states[i].log[w].Seen? && states[i].log[w].ttl == 0
    requires states[i].log[k].Done? && states[i].log[k].item.ttl > 0
    requires states[i].log[k].item.state.node == states[i].log[w].node
    ensures exists j :: w < j < k && states[i].log[j] == OwnEntry(states[i].log[k].item)
  {
    CommitsAreLatestAndTimely(states, events, i, k);
  }

  /** No peer is orphaned, nor will one be by what is still queued. */
  lemma NoPeerIsOrphaned(states: seq<System>, events: seq<Event>, i: nat)
    requires IsRun(states, events) && i < |states|
    ensures NoOrphans(states[i])
  {
    RunKeepsInv(states, events, i);
  }

  /** Timeouts and listed peers trace back to commits; no stage renews a lifetime. */
  lemma LifetimesAreNeverRenewed(states: seq<System>, events: seq<Event>, i: nat)
    requires IsRun(states, events) && i < |states|
    ensures Timeouts.Valid(states[i].timeouts) && Peers.UniqueNodes(states[i].peers, states[i].self)
    ensures Backed(states[i])
  {
    RunKeepsInv(states, events, i);
  }

  /** The cache is bounded, and no hint is older than its node's latest withdrawal, whatever is still queued. */
  lemma RoutesStayFresh(states: seq<System>, events: seq<Event>, i: nat)
    requires IsRun(states, events) && i < |states|
    ensures Routes.Bounded(states[i].hints)
    ensures forall k :: k in states[i].hints ==>
              && HintBacked(states[i].log, k.node, states[i].hints[k])
              && HintTimely(states[i].log, k.node, states[i].hints[k].observed)
  {
    RunKeepsInv(states, events, i);
  }

  /** A key that stays never goes back in time, and only a delivery adds one: a full handoff never does. */
  lemma RoutesNeverGoBack(states: seq<System>, events: seq<Event>, i: nat)
    requires IsRun(states, events) && i < |events|
    ensures Routes.NeverBack(states[i].hints, states[i + 1].hints)
    ensures !events[i].Deliver? ==> states[i + 1].hints.Keys <= states[i].hints.Keys
  {
    RunKeepsInv(states, events, i);
    StepNeverGoesBack(states[i], events[i], states[i + 1]);
  }

  /** Nothing takes effect at any stage unless the registration it came in through still stands. */
  lemma CommitsHoldTheirLease(states: seq<System>, events: seq<Event>, i: nat)
    requires IsRun(states, events) && i < |events| && |states[i].log| < |states[i + 1].log|
    requires states[i + 1].log[|states[i].log|].Done?
    ensures states[i + 1].log[|states[i].log|].item.lease in states[i].leases
  {
    LeaseOfCommit(states[i], events[i], states[i + 1]);
  }

  lemma LeaseOfCommit(s: System, e: Event, s': System)
    requires Step(s, e, s') && |s.log| < |s'.log| && s'.log[|s.log|].Done?
    ensures s'.log[|s.log|].item.lease in s.leases
  {
    hide HintsStep, Owned, Timeouts.Next;
  }

  /** Parsing a withdrawal clears every hint of its node, at once and whatever is queued, and no other hint. */
  lemma WithdrawalClearsNode(states: seq<System>, events: seq<Event>, i: nat, k: Routes.Key)
    requires IsRun(states, events) && i < |events| && events[i].Datagram? && events[i].ttl == 0
    ensures k in states[i + 1].hints <==> k in states[i].hints && k.node != events[i].state.node
    ensures k in states[i + 1].hints ==> states[i + 1].hints[k] == states[i].hints[k]
  {
    RunKeepsInv(states, events, i);
    var s, e, s' := states[i], events[i], states[i + 1];
    assert Step(s, e, s');
    HintCases(s, e, s');
    TimesAt(s, e.state.node);
    if k in s.hints {
      assert HintTimely(s.log, k.node, s.hints[k].observed);
    }
  }

  /**
   * A live announcement delivered under a current lease is forwarded, and its route is then in the cache with the
   * announcement's own deadline exactly when the delivery was in time.
   */
  lemma DeliveryRecordsRoute(s: System, e: Event, s': System)
    requires Inv(s) && Step(s, e, s') && e.Deliver?
    requires var it := s.handoff[e.i];
             && it.lease in s.leases && Uncancelled(s, it) && it.ttl > 0 && e.checkAt < it.expires
             && it.state.measurementEndpoint.Some?
    ensures var it := s.handoff[e.i];
            var key := Routes.Key(it.state.node, it.state.measurementEndpoint.value);
            && s'.events == s.events + [it]
            && (key in s'.hints <==> e.recordAt < it.expires)
            && (key in s'.hints ==> s'.hints[key] == Routes.Hint(it.expires, it.received, it.lease))
  {
    assert Recording(s, e) == Some(s.handoff[e.i]);
    RecordedKey(s, e, s');
  }

  /** Parsing an announcement refreshes a route already in the cache, even when the announcement finds no room. */
  lemma ParsingRefreshesRoute(s: System, e: Event, s': System)
    requires Inv(s) && Step(s, e, s') && e.Datagram? && e.ttl > 0 && e.lease in s.leases
    requires e.state.measurementEndpoint.Some? && e.recordAt < e.received + e.ttl * 1_000_000_000
    ensures var key := Routes.Key(e.state.node, e.state.measurementEndpoint.value);
            && (key in s'.hints <==>
                  key in s.hints && s.hints[key].expires > e.recordAt && s.hints[key].route in s.leases)
            && (key in s'.hints ==>
                  s'.hints[key] == Routes.Hint(e.received + e.ttl * 1_000_000_000, e.received, e.lease))
  {
    assert Recording(s, e) == Some(NewItem(s, e));
    RecordedKey(s, e, s');
  }

  /** No hint at the key is newer than what is recorded, so the record decides. */
  lemma RecordedKey(s: System, e: Event, s': System)
    requires Inv(s) && Step(s, e, s') && Recording(s, e).Some?
    requires var it := Recording(s, e).value; it.state.measurementEndpoint.Some? && it.lease in s.leases
    ensures var it := Recording(s, e).value;
            var key := Routes.Key(it.state.node, it.state.measurementEndpoint.value);
            if it.expires <= e.recordAt || (e.Datagram? && !Routes.LiveAt(s.hints, key, e.recordAt, s.leases))
            then key !in s'.hints
            else key in s'.hints && s'.hints[key] == Routes.Hint(it.expires, it.received, it.lease)
  {
    var it := Recording(s, e).value;
    RecordingIsLatest(s, e, s');
    assert Routes.Recorded(s.hints, RecordOf(it), e.Datagram?, e.recordAt, s.leases, s'.hints);
    assert HintsOk(s);
    var key := Routes.Key(it.state.node, it.state.measurementEndpoint.value);
    hide Step, Inv, Owners, HintsStep, Routes.Recorded, Routes.Bounded, HintBacked;
    assert key in s.hints ==> HintTimely(s.log, key.node, s.hints[key].observed);
    Routes.RecordTakesEffect(s.hints, RecordOf(it), e.Datagram?, e.recordAt, s.leases, s'.hints);
  }
}
