/** Route hints in every run of the announcement pipeline. */
module PipelineRoutes {
  import opened Wrappers
  import opened DiscoveryTypes
  import opened Pipeline
  import Routes

  /** The hint comes from a parsed announcement of its node, with that announcement's own deadline. */
  ghost predicate HintBacked(log: seq<Entry>, node: NodeId, h: Routes.Hint) {
    exists ttl: nat, rev ::
      Seen(node, h.observed, ttl, rev) in log && ttl > 0 && h.expires == h.observed + ttl * SECOND
  }

  /** No newer than the latest datagram of its node, no older than its latest withdrawal. */
  predicate HintTimely(log: seq<Entry>, node: NodeId, observed: Instant) {
    && LastSeen(log, node).Some? && observed <= LastSeen(log, node).value.received
    && (LastWithdrawal(log, node).Some? ==> LastWithdrawal(log, node).value <= observed)
  }

  predicate NodeTimes(s: System, node: NodeId) {
    && (LastSeen(s.log, node).Some? ==> LastSeen(s.log, node).value.received <= s.now)
    && (LastWithdrawal(s.log, node).Some? ==>
          LastSeen(s.log, node).Some? && LastWithdrawal(s.log, node).value <= LastSeen(s.log, node).value.received)
  }

  ghost predicate TimesOk(s: System) {
    forall node :: NodeTimes(s, node)
  }

  ghost predicate HintsOk(s: System) {
    && Routes.Bounded(s.hints)
    && (forall k :: k in s.hints ==> HintTimely(s.log, k.node, s.hints[k].observed))
    && (forall k :: k in s.hints ==> HintBacked(s.log, k.node, s.hints[k]))
  }

  /** The latest entry a step adds to the history, if any. */
  predicate Appends(log: seq<Entry>, log': seq<Entry>) {
    log' == log || (|log'| == |log| + 1 && log' == log + [log'[|log|]])
  }

  predicate SeenIsNow(s: System, s': System) {
    |s'.log| == |s.log| + 1 && s'.log[|s.log|].Seen? ==> s.now <= s'.log[|s.log|].received <= s'.now
  }

  lemma StepAppends(s: System, e: Event, s': System)
    requires Step(s, e, s')
    ensures Appends(s.log, s'.log) && SeenIsNow(s, s') && s.now <= s'.now
    ensures s'.log != s.log && s'.log[|s.log|].Seen? ==> e.Datagram?
    ensures e.Datagram? ==>
              && s'.log != s.log && s'.log[|s.log|].Seen? && s'.log[|s.log|].node == e.state.node
              && s'.log[|s.log|].received == e.received && s'.log[|s.log|].ttl == e.ttl
  {
    hide HintsStep, Owned, Current;
  }

  lemma TimesStep(s: System, e: Event, s': System)
    requires TimesOk(s) && Step(s, e, s')
    ensures TimesOk(s')
  {
    StepAppends(s, e, s');
    hide Step;
    forall node ensures NodeTimes(s', node) {
      assert NodeTimes(s, node);
      if s'.log != s.log {
        PushEntry(s.log, s'.log[|s.log|], node);
      }
    }
  }

  /** The announcement a step may record in the cache. */
  function Recording(s: System, e: Event): Option<Item>
    requires Enabled(s, e)
  {
    match e
    case Datagram(_, ttl, _, _, _, _, _) => if ttl > 0 then Some(NewItem(s, e)) else None
    case Deliver(i, _, _) => if Delivers(s, e) && s.handoff[i].ttl > 0 then Some(s.handoff[i]) else None
    case _ => None
  }

  predicate FromItem(it: Item, k: Routes.Key, h: Routes.Hint) {
    k.node == it.state.node && h.observed == it.received && h.expires == it.expires
  }

  /** Every hint after a step was there before or is the one recorded; only a delivery can add a key. */
  lemma HintCases(s: System, e: Event, s': System)
    requires Routes.Bounded(s.hints) && Step(s, e, s')
    ensures Routes.Bounded(s'.hints)
    ensures forall k :: k in s'.hints ==>
              || (k in s.hints && s'.hints[k] == s.hints[k])
              || (Recording(s, e).Some? && FromItem(Recording(s, e).value, k, s'.hints[k]))
    ensures !e.Deliver? ==> s'.hints.Keys <= s.hints.Keys
    ensures e.Datagram? && e.ttl == 0 ==> s'.hints == Routes.Withdrawn(s.hints, e.state.node, e.received)
  {
    hide Routes.Bounded, Routes.RecordedIn, Owned, Current, Routes.NeverBack, Next;
    match e {
      case Datagram(_, ttl, _, _, _, _, recordAt) =>
        if ttl > 0 {
          Routes.RecordKeeps(s.hints, RecordOf(NewItem(s, e)), true, recordAt, s.leases, s'.hints);
        } else {
          Routes.BoundedShrinks(s.hints, s'.hints);
        }
      case Deliver(i, _, recordAt) =>
        if Recording(s, e).Some? {
          Routes.RecordKeeps(s.hints, RecordOf(s.handoff[i]), false, recordAt, s.leases, s'.hints);
        } else {
          Routes.BoundedShrinks(s.hints, s'.hints);
        }
      case _ => Routes.BoundedShrinks(s.hints, s'.hints);
    }
  }

  /** What is recorded is the latest word of its node, and no withdrawal is later. */
  lemma RecordingIsLatest(s: System, e: Event, s': System)
    requires Owners(s) && TimesOk(s) && Step(s, e, s') && Recording(s, e).Some?
    ensures var it := Recording(s, e).value;
            && HintTimely(s'.log, it.state.node, it.received)
            && it.ttl > 0 && it.expires == it.received + it.ttl * SECOND
            && (exists rev :: Seen(it.state.node, it.received, it.ttl, rev) in s'.log)
            && (LastSeen(s.log, it.state.node).Some? ==> LastSeen(s.log, it.state.node).value.received <= it.received)
  {
    hide HintsStep, Owned, TimesOk, Routes.Observed, Routes.Refused;
    var it := Recording(s, e).value;
    var node := it.state.node;
    TimesAt(s, node);
    StepAppends(s, e, s');
    PushEntry(s.log, s'.log[|s.log|], node);
    match e {
      case Datagram(_, _, _, _, _, _, _) =>
        assert s'.log[|s.log|] == Seen(node, it.received, it.ttl, s'.log[|s.log|].rev);
      case Deliver(i, _, _) =>
        assert Queued(s, it);
        assert ItemOk(s, it);
        var j := LastSeenIsSeen(s.log, node);
        assert s'.log[j] == OwnEntry(it);
    }
  }

  lemma TimesAt(s: System, node: NodeId)
    requires TimesOk(s)
    ensures NodeTimes(s, node)
  {}

  lemma StepKeepsHints(s: System, e: Event, s': System)
    requires Owners(s) && TimesOk(s) && HintsOk(s) && Step(s, e, s')
    ensures HintsOk(s')
  {
    HintCases(s, e, s');
    if Recording(s, e).Some? {
      RecordingIsLatest(s, e, s');
    }
    StepAppends(s, e, s');
    hide Step, Owners, TimesOk, HintsOk, Routes.Bounded, Recording, HintTimely, HintBacked;
    forall k | k in s'.hints
      ensures HintTimely(s'.log, k.node, s'.hints[k].observed) && HintBacked(s'.log, k.node, s'.hints[k])
    {
      if k in s.hints && s'.hints[k] == s.hints[k] {
        OldHintStays(s, e, s', k);
      } else {
        NewHintBacked(s'.log, Recording(s, e).value, k, s'.hints[k]);
      }
    }
    assert HintsOk(s') by {
      Gather(s');
    }
  }

  lemma NewHintBacked(log: seq<Entry>, it: Item, k: Routes.Key, h: Routes.Hint)
    requires FromItem(it, k, h) && it.ttl > 0 && it.expires == it.received + it.ttl * SECOND
    requires exists rev :: Seen(it.state.node, it.received, it.ttl, rev) in log
    ensures HintBacked(log, k.node, h)
  {}

  lemma Gather(s: System)
    requires Routes.Bounded(s.hints)
    requires forall k :: k in s.hints ==> HintTimely(s.log, k.node, s.hints[k].observed)
    requires forall k :: k in s.hints ==> HintBacked(s.log, k.node, s.hints[k])
    ensures HintsOk(s)
  {}

  lemma OldHintStays(s: System, e: Event, s': System, k: Routes.Key)
    requires TimesOk(s) && HintsOk(s) && Step(s, e, s')
    requires k in s.hints && k in s'.hints && s'.hints[k] == s.hints[k]
    requires e.Datagram? && e.ttl == 0 ==> s'.hints == Routes.Withdrawn(s.hints, e.state.node, e.received)
    ensures HintTimely(s'.log, k.node, s'.hints[k].observed) && HintBacked(s'.log, k.node, s'.hints[k])
  {
    StepAppends(s, e, s');
    TimesAt(s, k.node);
    hide Step, TimesOk, Routes.Bounded;
    var ttl: nat, rev :| Seen(k.node, s.hints[k].observed, ttl, rev) in s.log && ttl > 0
                         && s.hints[k].expires == s.hints[k].observed + ttl * SECOND;
    assert Seen(k.node, s.hints[k].observed, ttl, rev) in s'.log;
    if s'.log != s.log {
      PushEntry(s.log, s'.log[|s.log|], k.node);
    }
  }

  /** A key that stays never goes back in time, and parsing a datagram never adds one. */
  lemma StepNeverGoesBack(s: System, e: Event, s': System)
    requires Owners(s) && TimesOk(s) && HintsOk(s) && Step(s, e, s')
    ensures Routes.NeverBack(s.hints, s'.hints)
    ensures !e.Deliver? ==> s'.hints.Keys <= s.hints.Keys
  {
    HintCases(s, e, s');
    if Recording(s, e).Some? {
      RecordingIsLatest(s, e, s');
    }
    hide Step, Owners, TimesOk, Routes.Bounded, Recording, HintBacked;
    forall k | k in s.hints && k in s'.hints ensures s.hints[k].observed <= s'.hints[k].observed {
      assert HintTimely(s.log, k.node, s.hints[k].observed);
    }
  }
}
