/** The checks refuse only what is stale: a prompt announcement or withdrawal gets through every stage. */
module PipelineProgress {
  import opened Wrappers
  import opened DiscoveryTypes
  import opened Pipeline
  import opened PipelineSafety
  import Peers
  import Timeouts
  import Routes

  lemma InvParts(s: System)
    requires Inv(s)
    ensures Routes.WellFormed(s.index) && Timeouts.Valid(s.timeouts) && Peers.UniqueNodes(s.peers, s.self)
  {}

  /** A datagram admitted into the handoff is delivered to an empty event queue, however long recording takes. */
  lemma Delivered(s: System, e: Event, t: Instant, u: Instant) returns (s1: System, s2: System, it: Item)
    requires Inv(s) && Enabled(s, e) && e.Datagram? && Admitted(e) && e.lease in s.leases && s.events == []
    requires e.recordAt <= t <= u && (e.ttl > 0 ==> t < e.received + e.ttl * SECOND)
    ensures it == NewItem(s, e)
    ensures Step(s, e, s1) && Step(s1, Deliver(|s.handoff|, t, u), s2) && Inv(s2)
    ensures s2 == s1.(now := u, hints := s2.hints, handoff := s.handoff, events := [it], log := s2.log)
    ensures s1.timeouts == s.timeouts && s1.queue == s.queue && s1.peers == s.peers
    ensures s1.self == s.self && s1.leases == s.leases
    ensures |s1.handoff| == |s.handoff| + 1 && s1.handoff[|s.handoff|] == it
    ensures Delivers(s1, Deliver(|s.handoff|, t, u)) && Current(s2, it)
  {
    it := NewItem(s, e);
    NeverRefused(s, e.state.node, e.received);
    var h1 := Routes.Withdrawn(s.hints, e.state.node, e.received);
    if e.ttl > 0 {
      h1 := Routes.RecordExists(s.hints, RecordOf(it), true, e.recordAt, s.leases);
    }
    s1 := AfterDatagram(s, e, h1);
    StepKeepsInv(s, e, s1);
    hide Inv, Owned, Routes.Recorded, Routes.Withdrawn;
    var d := Deliver(|s.handoff|, t, u);
    assert s1.handoff == s.handoff + [it];
    assert Delivers(s1, d);
    var h2 := Routes.Withdrawn(s1.hints, e.state.node, e.received);
    if e.ttl > 0 {
      h2 := Routes.RecordExists(s1.hints, RecordOf(it), false, u, s.leases);
    }
    s2 := AfterDeliver(s1, d, h2);
    StepKeepsInv(s1, d, s2);
    assert s2.handoff == s.handoff;
  }

  /** From every reachable state without events, a prompt announcement can still be delivered late. */
  lemma DeliveryCanBeLate(s: System, e: Event, t: Instant, u: Instant) returns (s1: System, s2: System, it: Item)
    requires Inv(s) && Enabled(s, e) && e.Datagram? && e.slotFree && e.lease in s.leases && s.events == []
    requires e.ttl > 0 && e.recordAt <= t < e.received + e.ttl * SECOND <= u
    ensures Step(s, e, s1) && Step(s1, Deliver(|s.handoff|, t, u), s2)
    ensures LateDelivery(s1, Deliver(|s.handoff|, t, u))
    ensures s2.events == [it] && it.expires <= s2.now
  {
    s1, s2, it := Delivered(s, e, t, u);
    hide Inv, Step;
  }

  /** The gateway publishes the head of its events when it has an outcome for it. */
  lemma Published(s: System, it: Item, t: Instant, sent: PeerEvent) returns (s': System)
    requires Inv(s) && s.events == [it] && s.queue == [] && Current(s, it) && s.now == t
    requires var outcome := Timeouts.Outcome(s.timeouts, Timeouts.Announce(it.state.node, it.ttl, it.expires, t));
             outcome.Some? && Sent(outcome, [it]) == [sent]
    ensures Step(s, Publish(t), s') && Inv(s')
    ensures s'.timeouts == Timeouts.Next(s.timeouts, Timeouts.Announce(it.state.node, it.ttl, it.expires, t))
    ensures s'.queue == [sent] && s'.peers == s.peers && s'.self == s.self && s'.now == t && Current(s', it)
  {
    hide Timeouts.Next;
    InvParts(s);
    s' := AfterPublish(s, t);
    StepKeepsInv(s, Publish(t), s');
  }

  /** With room and time, an announcement from a current lease ends in the peer list, watched by the gateway. */
  lemma PromptAnnouncementIsListed(s: System, e: Event, t: Instant)
      returns (s1: System, s2: System, s3: System, s4: System)
    requires Inv(s) && s.events == [] && s.queue == []
    requires Enabled(s, e) && e.Datagram? && e.slotFree && e.lease in s.leases
    requires e.ttl > 0 && e.recordAt <= t < e.received + e.ttl * SECOND && e.state.node != s.self
    ensures Step(s, e, s1) && Step(s1, Deliver(|s.handoff|, t, t), s2)
    ensures Step(s2, Publish(t), s3) && Step(s3, Apply(t), s4)
    ensures e.state in s4.peers
    ensures e.state.node in Timeouts.Deadlines(s4.timeouts)
    ensures var deadline, time := e.received + e.ttl * 1_000_000_000, Timeouts.Deadlines(s4.timeouts)[e.state.node];
            time == if deadline <= t + 3_000_000_000 then deadline else t + 3_000_000_000
  {
    InvParts(s);
    hide Step, Inv, Current;
    var it;
    s1, s2, it := Delivered(s, e, t, t);
    s3 := Published(s2, it, t, Observed(it));
    s4 := Listed(s3, it, t);
    hide Timeouts.Valid, Timeouts.Next;
    Timeouts.StepKeepsValid(s.timeouts, Timeouts.Announce(e.state.node, e.ttl, it.expires, t));
  }

  lemma Listed(s: System, it: Item, t: Instant) returns (s': System)
    requires Inv(s) && s.queue == [Observed(it)] && Current(s, it) && s.now == t
    requires it.ttl > 0 && t < it.expires && it.state.node != s.self
    ensures Step(s, Apply(t), s') && it.state in s'.peers && s'.timeouts == s.timeouts
  {
    InvParts(s);
    hide Inv;
    s' := AfterApply(s, t);
    Peers.UpsertFacts(s.peers, it.state, s.self);
  }

  /** With room, a withdrawal of a watched peer removes it from the gateway and from the list. */
  lemma PromptWithdrawalIsApplied(s: System, e: Event, t: Instant)
      returns (s1: System, s2: System, s3: System, s4: System)
    requires Inv(s) && s.events == [] && s.queue == []
    requires Enabled(s, e) && e.Datagram? && e.slotFree && e.lease in s.leases
    requires e.ttl == 0 && e.recordAt <= t && Timeouts.Lists(s.timeouts, e.state.node)
    ensures Step(s, e, s1) && Step(s1, Deliver(|s.handoff|, t, t), s2)
    ensures Step(s2, Publish(t), s3) && Step(s3, Apply(t), s4)
    ensures !Peers.Has(s4.peers, e.state.node) && !Timeouts.Lists(s4.timeouts, e.state.node)
  {
    InvParts(s);
    hide Step, Inv, Current;
    var it;
    s1, s2, it := Delivered(s, e, t, t);
    s3 := Published(s2, it, t, PeerLeft(e.state.node));
    s4 := Unlisted(s3, e.state.node, t);
    hide Timeouts.Valid, Timeouts.Next, Timeouts.Lists;
    Timeouts.StepKeepsValid(s.timeouts, Timeouts.Announce(e.state.node, 0, it.expires, t));
    Timeouts.DeadlinesLists(s4.timeouts, e.state.node);
  }

  lemma Unlisted(s: System, node: NodeId, t: Instant) returns (s': System)
    requires Inv(s) && s.queue == [PeerLeft(node)] && s.now == t
    ensures Step(s, Apply(t), s') && !Peers.Has(s'.peers, node) && s'.timeouts == s.timeouts
  {
    InvParts(s);
    hide Inv;
    s' := AfterApply(s, t);
    Peers.WithoutShrinks(s.peers, node);
  }

  /** A byebye takes a watched peer off at once and queues its departure; of others it says nothing. */
  lemma ByebyeIsReported(s: System, node: NodeId) returns (s': System)
    requires Inv(s)
    ensures Step(s, Byebye(node), s')
    ensures var d := Timeouts.Deadlines(s.timeouts);
            if node in d then
              && Timeouts.Deadlines(s'.timeouts) == d - {node}
              && s' == s.(timeouts := s'.timeouts, queue := s.queue + [PeerLeft(node)])
            else Timeouts.Deadlines(s'.timeouts) == d && s' == s.(timeouts := s'.timeouts)
  {
    InvParts(s);
    hide Inv, Timeouts.Next, Timeouts.Outcome;
    s' := AfterDeparture(s, Timeouts.Byebye(node));
    Timeouts.StepKeepsValid(s.timeouts, Timeouts.Byebye(node));
    Timeouts.OutcomeIsJustified(s.timeouts, Timeouts.Byebye(node));
    assert s.queue + [] == s.queue;
  }

  /** Pruning takes off the peer whose time comes first, if it has come, and queues its departure. */
  lemma PruningIsReported(s: System, at: Instant) returns (s': System, gone: NodeId)
    requires Inv(s) && s.now <= at
    ensures Step(s, Prune(at), s')
    ensures var d := Timeouts.Deadlines(s.timeouts);
            if forall n :: n in d ==> d[n] > at then
              Timeouts.Deadlines(s'.timeouts) == d && s' == s.(now := at, timeouts := s'.timeouts)
            else
              && gone in d && d[gone] <= at && (forall n :: n in d ==> d[gone] <= d[n])
              && Timeouts.Deadlines(s'.timeouts) == d - {gone}
              && s' == s.(now := at, timeouts := s'.timeouts, queue := s.queue + [PeerTimedOut(gone)])
  {
    InvParts(s);
    s' := PruneStep(s, at);
    hide Inv, Step, Timeouts.Next, Timeouts.Outcome, Timeouts.Deadlines, Timeouts.Valid;
    Timeouts.PruneEffect(s.timeouts, at);
    var sent := Timeouts.Outcome(s.timeouts, Timeouts.Prune(at));
    gone := if sent.Some? then sent.value.node else 0;
    assert s.queue + [] == s.queue;
  }

  lemma PruneStep(s: System, at: Instant) returns (s': System)
    requires Inv(s) && s.now <= at
    ensures Step(s, Prune(at), s')
    ensures s' == s.(now := at, timeouts := Timeouts.Next(s.timeouts, Timeouts.Prune(at)),
                     queue := s.queue + Sent(Timeouts.Outcome(s.timeouts, Timeouts.Prune(at)), []))
  {
    InvParts(s);
    hide Inv, Timeouts.Next, Timeouts.Outcome, Sent;
    s' := AfterDeparture(s, Timeouts.Prune(at)).(now := at);
  }
}
