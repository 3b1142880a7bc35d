/**
 * The discovery announcement pipeline as a step system. A datagram is observed atomically under the revision
 * index and the route cache, then waits in a handoff, is delivered to the gateway, published to the observer's
 * queue and applied to the peer list. Every stage rechecks the announcement's revision, lease and deadline.
 */
module Pipeline {
  import opened Wrappers
  import opened DiscoveryTypes
  import Peers
  import Timeouts
  import Routes

  /** An announcement in flight; `ttl` 0 is a withdrawal. */
  datatype Item = Item(
    rev: Routes.RevisionId,
    state: Peers.PeerState,
    ttl: nat,
    received: Instant,
    expires: Instant,
    lease: Lease)

  datatype PeerEvent = Observed(item: Item) | PeerLeft(node: NodeId) | PeerTimedOut(node: NodeId)

  datatype Stage = Delivery | Gateway | Observer

  /**
   * The history: datagrams parsed, with the revision they were given, and commits at each stage. A commit keeps
   * the instant its deadline was checked and the last instant read before it took effect.
   */
  datatype Entry =
    | Seen(node: NodeId, received: Instant, ttl: nat, rev: Option<Routes.RevisionId>)
    | Done(stage: Stage, item: Item, checked: Instant, at: Instant)

  datatype System = System(
    self: NodeId,
    now: Instant,
    index: Routes.Index,
    hints: Routes.RouteMap,
    leases: set<Lease>,
    handoff: seq<Item>,
    events: seq<Item>,
    timeouts: seq<Timeouts.Timeout>,
    queue: seq<PeerEvent>,
    peers: seq<Peers.PeerState>,
    log: seq<Entry>)

  /** Instants inside a step are read in order and never run back. */
  datatype Event =
    | Datagram(state: Peers.PeerState, ttl: nat, lease: Lease, slotFree: bool,
               received: Instant, admitAt: Instant, recordAt: Instant)
    | Deliver(i: nat, checkAt: Instant, recordAt: Instant)
    | DropHandoff(i: nat)
    | Publish(at: Instant)
    | DropEvent
    | Byebye(node: NodeId)
    | Prune(at: Instant)
    | Apply(at: Instant)
    | DropObserved
    | Sweep(at: Instant)
    | ChangeLeases(leases: set<Lease>)

  // ----- steps -----

  function Owned(s: System): set<Routes.RevisionId> {
    (set it | it in s.handoff :: it.rev) + (set it | it in s.events :: it.rev)
    + (set e | e in s.queue && e.Observed? :: e.item.rev)
  }

  predicate Uncancelled(s: System, it: Item) {
    it.rev < |s.index.revisions| && !s.index.revisions[it.rev].cancelled
  }

  /** The revision has not been superseded and the ingress registration still stands. */
  predicate Current(s: System, it: Item) {
    it.lease in s.leases && Uncancelled(s, it)
  }

  predicate Expired(it: Item, at: Instant) {
    it.ttl > 0 && it.expires <= at
  }

  predicate Enabled(s: System, e: Event) {
    match e
    case Datagram(_, _, _, _, received, admitAt, recordAt) => s.now <= received <= admitAt <= recordAt
    case Deliver(i, checkAt, recordAt) => i < |s.handoff| && s.now <= checkAt <= recordAt
    case DropHandoff(i) => i < |s.handoff|
    case Publish(at) => s.events != [] && s.now <= at
    case DropEvent => s.events != []
    case Byebye(_) => true
    case Prune(at) => s.now <= at
    case Apply(at) => s.queue != [] && s.now <= at
    case DropObserved => s.queue != [] && s.queue[0].Observed?
    case Sweep(at) => s.now <= at
    case ChangeLeases(_) => true
  }

  /** There is room, and an announcement has not already outlived itself. */
  predicate Admitted(e: Event)
    requires e.Datagram?
  {
    e.slotFree && (e.ttl == 0 || e.received + e.ttl * SECOND > e.admitAt)
  }

  function NewItem(s: System, e: Event): Item
    requires e.Datagram?
  {
    Item(|s.index.revisions|, e.state, e.ttl, e.received, e.received + e.ttl * SECOND, e.lease)
  }

  function Dequeued<T>(q: seq<T>, i: nat): seq<T>
    requires i < |q|
  {
    q[..i] + q[i + 1..]
  }

  /** The part of the queue event the gateway decides; an announcement carries its item along. */
  function Sent(outcome: Option<Timeouts.Event>, items: seq<Item>): seq<PeerEvent> {
    match outcome
    case None => []
    case Some(Observed(_)) => if items == [] then [] else [Observed(items[0])]
    case Some(PeerLeft(n)) => [PeerLeft(n)]
    case Some(PeerTimedOut(n)) => [PeerTimedOut(n)]
  }

  function AfterDatagram(s: System, e: Event, hints: Routes.RouteMap): System
    requires e.Datagram? && Routes.WellFormed(s.index)
  {
    var admitted := Admitted(e);
    var kept := admitted && !Routes.Refused(s.index, Owned(s), e.state.node, e.received);
    s.(now := e.recordAt,
       index := Routes.Observed(s.index, Owned(s), e.state.node, e.received, admitted),
       hints := hints,
       handoff := if kept then s.handoff + [NewItem(s, e)] else s.handoff,
       log := s.log + [Seen(e.state.node, e.received, e.ttl, if kept then Some(|s.index.revisions|) else None)])
  }

  predicate Delivers(s: System, e: Event)
    requires e.Deliver? && Enabled(s, e)
  {
    Current(s, s.handoff[e.i]) && !Expired(s.handoff[e.i], e.checkAt)
  }

  function AfterDeliver(s: System, e: Event, hints: Routes.RouteMap): System
    requires e.Deliver? && Enabled(s, e)
  {
    var it := s.handoff[e.i];
    var s1 := s.(now := e.recordAt, handoff := Dequeued(s.handoff, e.i));
    if Delivers(s, e) then
      s1.(hints := hints,
          events := s.events + [it],
          log := s.log + [Done(Delivery, it, e.checkAt, e.recordAt)])
    else s1
  }

  function AfterPublish(s: System, at: Instant): System
    requires s.events != []
  {
    var it := s.events[0];
    var op := Timeouts.Announce(it.state.node, it.ttl, it.expires, at);
    var s1 := s.(now := at, events := s.events[1..]);
    if Current(s, it) && Timeouts.Outcome(s.timeouts, op).Some? then
      s1.(timeouts := Timeouts.Next(s.timeouts, op),
          queue := s.queue + Sent(Timeouts.Outcome(s.timeouts, op), [it]),
          log := s.log + [Done(Gateway, it, at, at)])
    else s1
  }

  /** A departure the gateway decides by itself. */
  function AfterDeparture(s: System, op: Timeouts.Op): System {
    s.(timeouts := Timeouts.Next(s.timeouts, op), queue := s.queue + Sent(Timeouts.Outcome(s.timeouts, op), []))
  }

  function AfterApply(s: System, at: Instant): System
    requires s.queue != []
  {
    var s1 := s.(now := at, queue := s.queue[1..]);
    match s.queue[0]
    case PeerLeft(n) => s1.(peers := Peers.After(s.peers, s.self, Peers.Remove(n)))
    case PeerTimedOut(n) => s1.(peers := Peers.After(s.peers, s.self, Peers.Remove(n)))
    case Observed(it) =>
      if Current(s, it) && !Expired(it, at) then
        var op := if it.ttl == 0 then Peers.Remove(it.state.node) else Peers.Apply(it.state, false);
        s1.(peers := Peers.After(s.peers, s.self, op),
            log := s.log + [Done(Observer, it, at, at)])
      else s1
  }

  function Next(s: System, e: Event, hints: Routes.RouteMap): System
    requires Routes.WellFormed(s.index) && Enabled(s, e)
  {
    match e
    case Datagram(_, _, _, _, _, _, _) => AfterDatagram(s, e, hints)
    case Deliver(_, _, _) => AfterDeliver(s, e, hints)
    case DropHandoff(i) => s.(handoff := Dequeued(s.handoff, i))
    case Publish(at) => AfterPublish(s, at)
    case DropEvent => s.(events := s.events[1..])
    case Byebye(n) => AfterDeparture(s, Timeouts.Byebye(n))
    case Prune(at) => AfterDeparture(s, Timeouts.Prune(at)).(now := at)
    case Apply(at) => AfterApply(s, at)
    case DropObserved => s.(queue := s.queue[1..])
    case Sweep(at) => s.(now := at, hints := hints)
    case ChangeLeases(leases) => s.(leases := leases)
  }

  function RecordOf(it: Item): Routes.Record {
    Routes.Record(it.state.node, it.state.measurementEndpoint, it.received, it.expires, it.lease)
  }

  /** What a step may leave in the route cache. */
  ghost predicate HintsStep(s: System, e: Event, hints: Routes.RouteMap)
    requires Enabled(s, e)
  {
    match e
    case Datagram(state, ttl, _, _, received, _, recordAt) =>
      if ttl == 0 then hints == Routes.Withdrawn(s.hints, state.node, received)
      else Routes.Recorded(s.hints, RecordOf(NewItem(s, e)), true, recordAt, s.leases, hints)
    case Deliver(i, _, recordAt) =>
      var it := s.handoff[i];
      if !Delivers(s, e) then hints == s.hints
      else if it.ttl == 0 then hints == Routes.Withdrawn(s.hints, it.state.node, it.received)
      else Routes.Recorded(s.hints, RecordOf(it), false, recordAt, s.leases, hints)
    case Sweep(at) => hints == Routes.Swept(s.hints, at, s.leases)
    case _ => hints == s.hints
  }

  ghost predicate Step(s: System, e: Event, s': System) {
    && Routes.WellFormed(s.index) && Enabled(s, e)
    && HintsStep(s, e, s'.hints)
    && s' == Next(s, e, s'.hints)
  }

  predicate Init(s: System) {
    && s.index == Routes.Index(map[], []) && s.hints == map[]
    && s.handoff == [] && s.events == [] && s.timeouts == [] && s.queue == [] && s.peers == [] && s.log == []
  }

  ghost predicate IsRun(states: seq<System>, events: seq<Event>) {
    && |states| == |events| + 1
    && Init(states[0])
    && forall i :: 0 <= i < |events| ==> Step(states[i], events[i], states[i + 1])
  }

  // ----- history -----

  /** The latest datagram parsed for a node, admitted or not. */
  function LastSeen(log: seq<Entry>, node: NodeId): (last: Option<Entry>)
    ensures last.Some? ==> last.value.Seen? && last.value.node == node
  {
    if log == [] then None
    else
      var e := log[|log| - 1];
      if e.Seen? && e.node == node then Some(e) else LastSeen(log[..|log| - 1], node)
  }

  /** When the latest withdrawal of a node was received. */
  function LastWithdrawal(log: seq<Entry>, node: NodeId): Option<Instant> {
    if log == [] then None
    else
      var e := log[|log| - 1];
      if e.Seen? && e.node == node && e.ttl == 0 then Some(e.received) else LastWithdrawal(log[..|log| - 1], node)
  }

  lemma PushEntry(log: seq<Entry>, e: Entry, node: NodeId)
    ensures LastSeen(log + [e], node) == if e.Seen? && e.node == node then Some(e) else LastSeen(log, node)
    ensures LastWithdrawal(log + [e], node)
         == if e.Seen? && e.node == node && e.ttl == 0 then Some(e.received) else LastWithdrawal(log, node)
  {
    assert (log + [e])[..|log|] == log;
  }

  lemma {:induction false} LastSeenIsSeen(log: seq<Entry>, node: NodeId) returns (j: nat)
    requires LastSeen(log, node).Some?
    ensures j < |log| && log[j].Seen? && log[j].node == node && LastSeen(log, node) == Some(log[j])
    ensures forall k :: j < k < |log| && log[k].Seen? ==> log[k].node != node
  {
    var last := |log| - 1;
    if log[last].Seen? && log[last].node == node {
      j := last;
    } else {
      j := LastSeenIsSeen(log[..last], node);
      assert log[..last][j] == log[j];
    }
  }

  // ----- revisions: at most one live announcement per node, and it is the latest -----

  predicate Queued(s: System, it: Item) {
    it in s.handoff || it in s.events || Observed(it) in s.queue
  }

  function OwnEntry(it: Item): Entry {
    Seen(it.state.node, it.received, it.ttl, Some(it.rev))
  }

  /** The item's revision and deadline are its own, and it is live only while it is the latest of its node. */
  predicate ItemOk(s: System, it: Item) {
    && it.rev < |s.index.revisions|
    && s.index.revisions[it.rev].node == it.state.node
    && s.index.revisions[it.rev].received == it.received
    && it.expires == it.received + it.ttl * SECOND
    && it.received <= s.now
    && (Uncancelled(s, it) ==>
          && it.state.node in s.index.pending && s.index.pending[it.state.node] == it.rev
          && LastSeen(s.log, it.state.node) == Some(OwnEntry(it)))
  }

  ghost predicate Owners(s: System) {
    Routes.WellFormed(s.index) && forall it :: Queued(s, it) ==> ItemOk(s, it)
  }

  lemma OwnedIsQueued(s: System, rev: Routes.RevisionId) returns (it: Item)
    requires rev in Owned(s)
    ensures Queued(s, it) && it.rev == rev
  {
    if rev in (set it | it in s.handoff :: it.rev) {
      it :| it in s.handoff && it.rev == rev;
    } else if rev in (set it | it in s.events :: it.rev) {
      it :| it in s.events && it.rev == rev;
    } else {
      var e :| e in s.queue && e.Observed? && e.item.rev == rev;
      it := e.item;
    }
  }

  lemma QueuedIsOwned(s: System, it: Item)
    requires Queued(s, it)
    ensures it.rev in Owned(s)
  {
    if Observed(it) in s.queue {
      assert Observed(it).item.rev in (set e | e in s.queue && e.Observed? :: e.item.rev);
    }
  }

  /** With serialised receive times the index never refuses an observation as older than what it holds. */
  lemma NeverRefused(s: System, node: NodeId, received: Instant)
    requires Owners(s) && s.now <= received
    ensures !Routes.Refused(s.index, Owned(s), node, received)
  {
    hide Owned, Queued;
    if Routes.Refused(s.index, Owned(s), node, received) {
      var it := OwnedIsQueued(s, s.index.pending[node]);
      assert false;
    }
  }

  /** Steps that only move items along, or drop them. */
  lemma MovesKeepOwners(s: System, s': System)
    requires Owners(s) && s'.index == s.index && s.now <= s'.now
    requires forall it :: Queued(s', it) ==> Queued(s, it)
    requires || s'.log == s.log
             || (|s'.log| == |s.log| + 1 && s'.log == s.log + [s'.log[|s.log|]] && s'.log[|s.log|].Done?)
    ensures Owners(s')
  {
    hide Queued;
    forall it | Queued(s', it) ensures ItemOk(s', it) {
      assert ItemOk(s, it);
      if s'.log != s.log {
        PushEntry(s.log, s'.log[|s.log|], it.state.node);
      }
    }
  }

  lemma DatagramKeepsOwners(s: System, e: Event, hints: Routes.RouteMap)
    requires Owners(s) && e.Datagram? && Enabled(s, e)
    ensures Owners(AfterDatagram(s, e, hints))
  {
    var s' := AfterDatagram(s, e, hints);
    NeverRefused(s, e.state.node, e.received);
    Routes.ObservedWellFormed(s.index, Owned(s), e.state.node, e.received, Admitted(e));
    forall it | Queued(s', it) ensures ItemOk(s', it) {
      PushEntry(s.log, s'.log[|s.log|], it.state.node);
      if Queued(s, it) {
        QueuedIsOwned(s, it);
        OlderItem(s, e, hints, it);
      } else {
        assert it == NewItem(s, e) && Admitted(e);
      }
    }
  }

  lemma OlderItem(s: System, e: Event, hints: Routes.RouteMap, it: Item)
    requires Owners(s) && e.Datagram? && Enabled(s, e)
    requires Queued(s, it) && it.rev in Owned(s)
    requires !Routes.Refused(s.index, Owned(s), e.state.node, e.received)
    ensures ItemOk(AfterDatagram(s, e, hints), it)
  {
    hide Owned, Queued;
    var s' := AfterDatagram(s, e, hints);
    assert ItemOk(s, it);
    PushEntry(s.log, s'.log[|s.log|], it.state.node);
  }

  lemma StepKeepsOwners(s: System, e: Event, s': System)
    requires Owners(s) && Step(s, e, s')
    ensures Owners(s')
  {
    hide Owners, HintsStep;
    match e {
      case Datagram(_, _, _, _, _, _, _) => DatagramKeepsOwners(s, e, s'.hints);
      case Deliver(_, _, _) => MovesKeepOwners(s, s');
      case DropHandoff(_) => MovesKeepOwners(s, s');
      case Publish(_) => MovesKeepOwners(s, s');
      case DropEvent => MovesKeepOwners(s, s');
      case Byebye(_) => MovesKeepOwners(s, s');
      case Prune(_) => MovesKeepOwners(s, s');
      case Apply(_) => MovesKeepOwners(s, s');
      case DropObserved => MovesKeepOwners(s, s');
      case Sweep(_) => MovesKeepOwners(s, s');
      case ChangeLeases(_) => MovesKeepOwners(s, s');
    }
  }

  // ----- what an observation does, in terms of the datagram alone -----

  /** A datagram is queued, under a fresh live revision, exactly when there is room and its lifetime has not passed. */
  lemma QueuedExactlyWhen(s: System, e: Event, s': System)
    requires Owners(s) && Step(s, e, s') && e.Datagram?
    ensures if e.slotFree && (e.ttl == 0 || e.admitAt < e.received + e.ttl * 1_000_000_000) then
              && |s'.handoff| == |s.handoff| + 1 && s'.handoff[..|s.handoff|] == s.handoff
              && var it := s'.handoff[|s.handoff|];
                 && it.state == e.state && it.ttl == e.ttl && it.received == e.received && it.lease == e.lease
                 && it.expires == e.received + e.ttl * 1_000_000_000
                 && it.rev == |s.index.revisions| && Uncancelled(s', it)
            else s'.handoff == s.handoff
  {
    hide Owned, HintsStep;
    NeverRefused(s, e.state.node, e.received);
  }

  /** Other nodes keep their live announcements, and the node's own are superseded. */
  lemma OnlyTheNodeIsSuperseded(s: System, e: Event, s': System, it: Item)
    requires Owners(s) && Step(s, e, s') && e.Datagram? && Queued(s, it)
    ensures Uncancelled(s', it) <==> Uncancelled(s, it) && it.state.node != e.state.node
  {
    QueuedIsOwned(s, it);
    NeverRefused(s, e.state.node, e.received);
    hide Owned, HintsStep, Queued;
    assert ItemOk(s, it);
  }

  /** The index holds only revisions of queued work: dropped traffic leaves nothing behind. */
  lemma IndexHoldsOnlyQueuedWork(s: System, e: Event, s': System, node: NodeId)
    requires Owners(s) && Step(s, e, s') && e.Datagram? && node in s'.index.pending
    ensures exists it :: Queued(s', it) && it.rev == s'.index.pending[node]
  {
    NeverRefused(s, e.state.node, e.received);
    if node == e.state.node {
      assert NewItem(s, e) in s'.handoff;
      assert Queued(s', NewItem(s, e));
    } else {
      var it := OwnedIsQueued(s, s'.index.pending[node]);
      assert Queued(s', it);
    }
  }
}
