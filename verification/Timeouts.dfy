/** The gateway's peer timeouts: one deadline per announced peer, earliest first. */
module Timeouts {
  import opened Wrappers
  import opened DiscoveryTypes

  datatype Timeout = Timeout(time: Instant, node: NodeId)

  datatype Event = Observed(node: NodeId) | PeerLeft(node: NodeId) | PeerTimedOut(node: NodeId)

  /** A peer silent for three seconds is pruned, however long its announced lifetime. */
  const SILENCE: int := 3 * SECOND

  /** When an announcement committed now is pruned: at its own deadline or after the silence, whichever is first. */
  function PruneTime(deadline: Instant, now: Instant): (time: Instant)
    ensures time <= deadline && time <= now + 3_000_000_000
    ensures time == deadline || time == now + 3_000_000_000
  {
    if deadline <= now + SILENCE then deadline else now + SILENCE
  }

  // ----- the list operations -----

  predicate Lists(ts: seq<Timeout>, node: NodeId) {
    exists i :: 0 <= i < |ts| && ts[i].node == node
  }

  /** All entries but the node's, in order. */
  function Retained(ts: seq<Timeout>, node: NodeId): seq<Timeout> {
    if ts == [] then []
    else if ts[0].node == node then Retained(ts[1..], node)
    else [ts[0]] + Retained(ts[1..], node)
  }

  /** The entry put before the first one that is not earlier. */
  function Placed(ts: seq<Timeout>, e: Timeout): seq<Timeout> {
    if ts == [] then [e]
    else if ts[0].time >= e.time then [e] + ts
    else [ts[0]] + Placed(ts[1..], e)
  }

  datatype Op =
    | Announce(node: NodeId, ttl: nat, deadline: Instant, now: Instant)
    | Byebye(node: NodeId)
    | Prune(now: Instant)

  function Outcome(ts: seq<Timeout>, op: Op): Option<Event> {
    match op
    case Announce(n, ttl, deadline, now) =>
      if ttl == 0 then (if Lists(ts, n) then Some(PeerLeft(n)) else None)
      else if deadline <= now then None
      else Some(Observed(n))
    case Byebye(n) => if Lists(ts, n) then Some(PeerLeft(n)) else None
    case Prune(now) => if ts != [] && ts[0].time <= now then Some(PeerTimedOut(ts[0].node)) else None
  }

  function Next(ts: seq<Timeout>, op: Op): seq<Timeout> {
    match op
    case Announce(n, ttl, deadline, now) =>
      if ttl == 0 then Retained(ts, n)
      else if deadline <= now then ts
      else Placed(Retained(ts, n), Timeout(PruneTime(deadline, now), n))
    case Byebye(n) => Retained(ts, n)
    case Prune(now) => if ts != [] && ts[0].time <= now then ts[1..] else ts
  }

  class PeerTimeouts {
    var timeouts: seq<Timeout>

    constructor ()
      ensures timeouts == []
    {
      timeouts := [];
    }

    method Any(node: NodeId) returns (found: bool)
      ensures found <==> Lists(timeouts, node)
    {
      found := false;
      for i := 0 to |timeouts|
        invariant found <==> exists j :: 0 <= j < i && timeouts[j].node == node
      {
        found := found || timeouts[i].node == node;
      }
    }

    method Retain(node: NodeId)
      modifies this
      ensures timeouts == Retained(old(timeouts), node)
    {
      var kept := [];
      for i := 0 to |timeouts|
        invariant timeouts == old(timeouts)
        invariant kept + Retained(timeouts[i..], node) == Retained(timeouts, node)
      {
        if timeouts[i].node != node {
          kept := kept + [timeouts[i]];
        }
      }
      timeouts := kept;
    }

    method Insert(e: Timeout)
      modifies this
      ensures timeouts == Placed(old(timeouts), e)
    {
      var position := 0;
      while position < |timeouts| && timeouts[position].time < e.time
        invariant timeouts == old(timeouts) && position <= |timeouts|
        invariant forall i :: 0 <= i < position ==> timeouts[i].time < e.time
      {
        position := position + 1;
      }
      PlacedAt(timeouts, e, position);
      timeouts := timeouts[..position] + [e] + timeouts[position..];
    }

    method OnPeerState(node: NodeId, ttl: nat, deadline: Instant, now: Instant) returns (sent: Option<Event>)
      modifies this
      ensures var op := Announce(node, ttl, deadline, now);
              timeouts == Next(old(timeouts), op) && sent == Outcome(old(timeouts), op)
    {
      if ttl > 0 && deadline <= now {
        return None;
      }
      if ttl == 0 {
        var known := Any(node);
        if !known {
          RetainedUnlisted(timeouts, node);
          return None;
        }
        Retain(node);
        return Some(PeerLeft(node));
      }
      Retain(node);
      Insert(Timeout(PruneTime(deadline, now), node));
      return Some(Observed(node));
    }

    method OnByebye(node: NodeId) returns (sent: Option<Event>)
      modifies this
      ensures timeouts == Next(old(timeouts), Byebye(node)) && sent == Outcome(old(timeouts), Byebye(node))
    {
      var known := Any(node);
      if known {
        Retain(node);
        return Some(PeerLeft(node));
      }
      RetainedUnlisted(timeouts, node);
      return None;
    }

    method PruneHead(now: Instant) returns (sent: Option<Event>)
      modifies this
      ensures timeouts == Next(old(timeouts), Prune(now)) && sent == Outcome(old(timeouts), Prune(now))
    {
      if timeouts != [] && timeouts[0].time <= now {
        var peer := timeouts[0].node;
        timeouts := timeouts[1..];
        return Some(PeerTimedOut(peer));
      }
      return None;
    }

    /** The pruning loop at one instant: only the head is ever looked at, yet exactly the expired peers go. */
    method PruneExpired(now: Instant) returns (pruned: seq<NodeId>)
      requires Sorted(timeouts)
      modifies this
      ensures Sorted(timeouts)
      ensures timeouts == LaterThan(old(timeouts), now)
      ensures pruned == Expired(old(timeouts), now)
    {
      pruned := [];
      while timeouts != [] && timeouts[0].time <= now
        invariant Sorted(timeouts)
        invariant LaterThan(timeouts, now) == LaterThan(old(timeouts), now)
        invariant pruned + Expired(timeouts, now) == Expired(old(timeouts), now)
        decreases |timeouts|
      {
        var sent := PruneHead(now);
        pruned := pruned + [sent.value.node];
      }
      NothingExpired(timeouts, now);
    }
  }

  /** The entries still alive at an instant. */
  function LaterThan(ts: seq<Timeout>, now: Instant): seq<Timeout> {
    if ts == [] then []
    else if ts[0].time > now then [ts[0]] + LaterThan(ts[1..], now)
    else LaterThan(ts[1..], now)
  }

  /** The peers whose time has come. */
  function Expired(ts: seq<Timeout>, now: Instant): seq<NodeId> {
    if ts == [] then []
    else if ts[0].time <= now then [ts[0].node] + Expired(ts[1..], now)
    else Expired(ts[1..], now)
  }

  predicate Sorted(ts: seq<Timeout>) {
    forall i, j :: 0 <= i < j < |ts| ==> ts[i].time <= ts[j].time
  }

  predicate OnePerNode(ts: seq<Timeout>) {
    forall i, j :: 0 <= i < j < |ts| ==> ts[i].node != ts[j].node
  }

  lemma {:induction false} RetainedUnlisted(ts: seq<Timeout>, node: NodeId)
    requires !Lists(ts, node)
    ensures Retained(ts, node) == ts
  {
    if ts != [] {
      assert ts[0].node != node;
      assert !Lists(ts[1..], node) by {
        assert forall i :: 0 <= i < |ts[1..]| ==> ts[1..][i] == ts[i + 1];
      }
      RetainedUnlisted(ts[1..], node);
    }
  }

  lemma {:induction false} PlacedAt(ts: seq<Timeout>, e: Timeout, k: nat)
    requires k <= |ts|
    requires forall i :: 0 <= i < k ==> ts[i].time < e.time
    requires k < |ts| ==> e.time <= ts[k].time
    ensures Placed(ts, e) == ts[..k] + [e] + ts[k..]
  {
    if k == 0 {
      assert ts[..0] + [e] + ts[0..] == [e] + ts;
    } else {
      assert Placed(ts, e) == [ts[0]] + Placed(ts[1..], e);
      hide Placed;
      PlacedAt(ts[1..], e, k - 1);
      Spliced(ts, e, k);
    }
  }

  lemma Spliced(ts: seq<Timeout>, e: Timeout, k: nat)
    requires 0 < k <= |ts|
    ensures [ts[0]] + (ts[1..][..k - 1] + [e] + ts[1..][k - 1..]) == ts[..k] + [e] + ts[k..]
  {
    assert ts[1..][..k - 1] == ts[1..k];
    assert ts[1..][k - 1..] == ts[k..];
    assert ts[..k] == [ts[0]] + ts[1..k];
  }

  lemma {:induction false} NothingExpired(ts: seq<Timeout>, now: Instant)
    requires forall i :: 0 <= i < |ts| ==> ts[i].time > now
    ensures LaterThan(ts, now) == ts && Expired(ts, now) == []
  {
    if ts != [] {
      NothingExpired(ts[1..], now);
    }
  }

  // ----- the list as a map from peers to deadlines -----

  function Deadlines(ts: seq<Timeout>): map<NodeId, Instant> {
    if ts == [] then map[] else Deadlines(ts[1..])[ts[0].node := ts[0].time]
  }

  lemma {:induction false} DeadlinesLists(ts: seq<Timeout>, node: NodeId)
    ensures node in Deadlines(ts) <==> Lists(ts, node)
  {
    if ts != [] {
      DeadlinesLists(ts[1..], node);
      if Lists(ts[1..], node) {
        var i :| 0 <= i < |ts[1..]| && ts[1..][i].node == node;
        assert ts[i + 1].node == node;
      }
      if Lists(ts, node) && ts[0].node != node {
        var i :| 0 <= i < |ts| && ts[i].node == node;
        assert ts[1..][i - 1].node == node;
      }
    }
  }

  lemma {:induction false} DeadlinesAt(ts: seq<Timeout>, i: nat)
    requires OnePerNode(ts) && i < |ts|
    ensures ts[i].node in Deadlines(ts) && Deadlines(ts)[ts[i].node] == ts[i].time
  {
    if i > 0 {
      DeadlinesAt(ts[1..], i - 1);
      assert ts[1..][i - 1] == ts[i];
    }
  }

  lemma {:induction false} DeadlinesRetained(ts: seq<Timeout>, node: NodeId)
    ensures Deadlines(Retained(ts, node)) == Deadlines(ts) - {node}
  {
    if ts != [] {
      DeadlinesRetained(ts[1..], node);
      if ts[0].node != node {
        assert Retained(ts, node)[1..] == Retained(ts[1..], node);
      }
    }
  }

  lemma {:induction false} DeadlinesPlaced(ts: seq<Timeout>, e: Timeout)
    requires e.node !in Deadlines(ts)
    ensures Deadlines(Placed(ts, e)) == Deadlines(ts)[e.node := e.time]
  {
    if ts == [] {
      assert [e][1..] == [];
    } else if ts[0].time >= e.time {
      assert ([e] + ts)[1..] == ts;
    } else {
      DeadlinesPlaced(ts[1..], e);
      assert Placed(ts, e)[1..] == Placed(ts[1..], e);
    }
  }

  // ----- what every operation keeps -----

  predicate AllAtLeast(ts: seq<Timeout>, t: Instant) {
    forall i :: 0 <= i < |ts| ==> t <= ts[i].time
  }

  /** Consing keeps order when the head is a lower bound. */
  lemma SortedCons(e: Timeout, ts: seq<Timeout>)
    ensures Sorted([e] + ts) <==> Sorted(ts) && AllAtLeast(ts, e.time)
  {
    var all := [e] + ts;
    assert forall i :: 0 <= i < |ts| ==> all[i + 1] == ts[i];
    if Sorted(all) {
      forall i | 0 <= i < |ts| ensures e.time <= ts[i].time {
        assert all[0].time <= all[i + 1].time;
      }
      forall i, j | 0 <= i < j < |ts| ensures ts[i].time <= ts[j].time {
        assert all[i + 1].time <= all[j + 1].time;
      }
    }
  }

  lemma UniqueCons(e: Timeout, ts: seq<Timeout>)
    ensures OnePerNode([e] + ts) <==> OnePerNode(ts) && e.node !in Deadlines(ts)
  {
    var all := [e] + ts;
    assert forall i :: 0 <= i < |ts| ==> all[i + 1] == ts[i];
    DeadlinesLists(ts, e.node);
    if OnePerNode(all) {
      forall i | 0 <= i < |ts| ensures e.node != ts[i].node {
        assert all[0].node != all[i + 1].node;
      }
      forall i, j | 0 <= i < j < |ts| ensures ts[i].node != ts[j].node {
        assert all[i + 1].node != all[j + 1].node;
      }
    }
  }

  ghost predicate Valid(ts: seq<Timeout>) { Sorted(ts) && OnePerNode(ts) }

  lemma ValidTail(ts: seq<Timeout>)
    requires ts != []
    ensures Valid(ts) <==> Valid(ts[1..]) && AllAtLeast(ts[1..], ts[0].time) && ts[0].node !in Deadlines(ts[1..])
  {
    assert ts == [ts[0]] + ts[1..];
    SortedCons(ts[0], ts[1..]);
    UniqueCons(ts[0], ts[1..]);
  }

  lemma {:induction false} RetainedValid(ts: seq<Timeout>, node: NodeId, t: Instant)
    requires Valid(ts)
    ensures Valid(Retained(ts, node))
    ensures AllAtLeast(ts, t) ==> AllAtLeast(Retained(ts, node), t)
  {
    hide Sorted, OnePerNode;
    if ts == [] {
    } else {
      var rest := ts[1..];
      ValidTail(ts);
      RetainedValid(rest, node, t);
      RetainedValid(rest, node, ts[0].time);
      AtLeastTail(ts, t);
      if ts[0].node != node {
        DeadlinesRetained(rest, node);
        var all := [ts[0]] + Retained(rest, node);
        assert all[1..] == Retained(rest, node);
        ValidTail(all);
        AtLeastTail(all, t);
      }
    }
  }

  lemma AtLeastTail(ts: seq<Timeout>, t: Instant)
    requires ts != []
    ensures AllAtLeast(ts, t) <==> t <= ts[0].time && AllAtLeast(ts[1..], t)
  {
    assert ts == [ts[0]] + ts[1..];
    assert forall i :: 0 <= i < |ts[1..]| ==> ts[1..][i] == ts[i + 1];
    if AllAtLeast(ts, t) {
      forall i | 0 <= i < |ts[1..]| ensures t <= ts[1..][i].time {
        assert t <= ts[i + 1].time;
      }
    }
  }

  lemma {:induction false} PlacedValid(ts: seq<Timeout>, e: Timeout, t: Instant)
    requires Valid(ts) && e.node !in Deadlines(ts)
    ensures Valid(Placed(ts, e))
    ensures AllAtLeast(ts, t) && t <= e.time ==> AllAtLeast(Placed(ts, e), t)
  {
    hide Sorted, OnePerNode;
    if ts == [] {
      assert [e][1..] == [];
      ValidTail([e]);
    } else if ts[0].time >= e.time {
      var all := [e] + ts;
      assert all[1..] == ts;
      ValidTail(ts);
      AtLeastTrans(ts[1..], e.time, ts[0].time);
      AtLeastTail(ts, e.time);
      ValidTail(all);
      AtLeastTail(all, t);
    } else {
      var rest := ts[1..];
      ValidTail(ts);
      AtLeastTail(ts, t);
      PlacedValid(rest, e, t);
      PlacedValid(rest, e, ts[0].time);
      DeadlinesPlaced(rest, e);
      var all := [ts[0]] + Placed(rest, e);
      assert all[1..] == Placed(rest, e);
      ValidTail(all);
      AtLeastTail(all, t);
    }
  }

  lemma AtLeastTrans(ts: seq<Timeout>, low: Instant, t: Instant)
    requires low <= t && AllAtLeast(ts, t)
    ensures AllAtLeast(ts, low)
  {}

  /** The deadlines after an operation, from the operation and the event it sent alone. */
  function Renewed(d: map<NodeId, Instant>, op: Op, sent: Option<Event>): map<NodeId, Instant> {
    match sent
    case None => d
    case Some(Observed(n)) => if op.Announce? then d[n := PruneTime(op.deadline, op.now)] else d
    case Some(PeerLeft(n)) => d - {n}
    case Some(PeerTimedOut(n)) => d - {n}
  }

  lemma StepKeepsValid(ts: seq<Timeout>, op: Op)
    requires Valid(ts)
    ensures Valid(Next(ts, op))
    ensures Deadlines(Next(ts, op)) == Renewed(Deadlines(ts), op, Outcome(ts, op))
  {
    hide Sorted, OnePerNode, Lists, Retained, Placed;
    match op {
      case Announce(n, ttl, deadline, now) =>
        DropsNode(ts, n);
        if ttl > 0 && now < deadline {
          var e := Timeout(PruneTime(deadline, now), n);
          PlacedValid(Retained(ts, n), e, e.time);
          DeadlinesPlaced(Retained(ts, n), e);
        }
      case Byebye(n) =>
        DropsNode(ts, n);
      case Prune(now) =>
        if ts != [] {
          ValidTail(ts);
          assert Deadlines(ts) - {ts[0].node} == Deadlines(ts[1..]);
        }
    }
  }

  lemma DropsNode(ts: seq<Timeout>, n: NodeId)
    requires Valid(ts)
    ensures Valid(Retained(ts, n)) && Deadlines(Retained(ts, n)) == Deadlines(ts) - {n}
    ensures !Lists(ts, n) ==> Deadlines(ts) - {n} == Deadlines(ts)
  {
    RetainedValid(ts, n, 0);
    DeadlinesRetained(ts, n);
    DeadlinesLists(ts, n);
  }

  // ----- runs -----

  datatype Gateway = Gateway(timeouts: seq<Timeout>, sent: seq<Option<Event>>)

  /** Every operation in turn, from an empty list. */
  function Run(ops: seq<Op>): Gateway {
    if ops == [] then Gateway([], [])
    else
      var g := Run(ops[..|ops| - 1]);
      var op := ops[|ops| - 1];
      Gateway(Next(g.timeouts, op), g.sent + [Outcome(g.timeouts, op)])
  }

  /** A downstream reader's account: deadlines rebuilt from the operations and the events they sent. */
  function Leases(ops: seq<Op>, sent: seq<Option<Event>>): map<NodeId, Instant>
    requires |ops| == |sent|
  {
    if ops == [] then map[]
    else
      var k := |ops| - 1;
      Renewed(Leases(ops[..k], sent[..k]), ops[k], sent[k])
  }

  /**
   * Over every run the list stays sorted with one entry per peer, and holds exactly the peers announced and not
   * yet reported gone, each at the earlier of its own deadline and three seconds after its last commit.
   */
  lemma {:induction false} TimeoutsFollowEvents(ops: seq<Op>)
    ensures Valid(Run(ops).timeouts)
    ensures |Run(ops).sent| == |ops|
    ensures Deadlines(Run(ops).timeouts) == Leases(ops, Run(ops).sent)
  {
    if ops != [] {
      var k := |ops| - 1;
      TimeoutsFollowEvents(ops[..k]);
      StepKeepsValid(Run(ops[..k]).timeouts, ops[k]);
      assert Run(ops).sent[..k] == Run(ops[..k]).sent;
    } else {
      assert Leases([], Run(ops).sent) == map[];
    }
  }

  /** The k-th operation committed an announcement of the node, and nothing was reported of it since. */
  predicate LastCommit(ops: seq<Op>, sent: seq<Option<Event>>, node: NodeId, k: nat) {
    && k < |ops| == |sent|
    && ops[k].Announce? && ops[k].node == node && ops[k].ttl > 0 && ops[k].now < ops[k].deadline
    && sent[k] == Some(Observed(node))
    && forall m :: k < m < |sent| ==> sent[m].None? || sent[m].value.node != node
  }

  /**
   * A peer is watched since its last commit, and until the announced deadline or three seconds after that commit,
   * whichever comes first.
   */
  lemma {:induction false} WatchedSinceLastCommit(ops: seq<Op>, node: NodeId) returns (k: nat)
    requires node in Deadlines(Run(ops).timeouts)
    ensures LastCommit(ops, Run(ops).sent, node, k)
    ensures var time := Deadlines(Run(ops).timeouts)[node];
            && time <= ops[k].deadline && time <= ops[k].now + 3_000_000_000
            && (time == ops[k].deadline || time == ops[k].now + 3_000_000_000)
  {
    hide Next, Outcome, Deadlines;
    TimeoutsFollowEvents(ops);
    var last := |ops| - 1;
    var op, front := ops[last], ops[..last];
    var ts := Run(front).timeouts;
    TimeoutsFollowEvents(front);
    StepKeepsValid(ts, op);
    EventsAreJustified(front, op);
    if Outcome(ts, op) == Some(Observed(node)) {
      k := last;
    } else {
      k := WatchedSinceLastCommit(front, node);
    }
  }

  /** And only so: whoever was committed and not reported since is watched. */
  lemma {:induction false} CommittedIsWatched(ops: seq<Op>, node: NodeId, k: nat)
    requires LastCommit(ops, Run(ops).sent, node, k)
    ensures node in Deadlines(Run(ops).timeouts)
  {
    hide Next, Outcome, Deadlines;
    var last := |ops| - 1;
    var op, front := ops[last], ops[..last];
    TimeoutsFollowEvents(ops);
    TimeoutsFollowEvents(front);
    StepKeepsValid(Run(front).timeouts, op);
    var sent := Run(ops).sent;
    assert sent[..last] == Run(front).sent && sent[last] == Outcome(Run(front).timeouts, op);
    if k < last {
      assert forall m :: 0 <= m < last ==> sent[..last][m] == sent[m];
      CommittedIsWatched(front, node, k);
    }
  }

  /** Which event an operation sends, in terms of the deadlines alone. */
  ghost predicate Justified(d: map<NodeId, Instant>, op: Op, sent: Option<Event>) {
    match op
    case Announce(n, ttl, deadline, now) =>
      && (sent == Some(Observed(n)) <==> ttl > 0 && now < deadline)
      && (sent == Some(PeerLeft(n)) <==> ttl == 0 && n in d)
      && (sent.None? || sent == Some(Observed(n)) || sent == Some(PeerLeft(n)))
    case Byebye(n) => sent == if n in d then Some(PeerLeft(n)) else None
    case Prune(now) =>
      && (sent.None? <==> forall n :: n in d ==> d[n] > now)
      && (sent.Some? ==>
            && sent.value.PeerTimedOut? && sent.value.node in d && d[sent.value.node] <= now
            && forall n :: n in d ==> d[sent.value.node] <= d[n])
  }

  lemma OutcomeIsJustified(ts: seq<Timeout>, op: Op)
    requires Valid(ts)
    ensures Justified(Deadlines(ts), op, Outcome(ts, op))
  {
    var d := Deadlines(ts);
    match op {
      case Announce(n, ttl, deadline, now) => DeadlinesLists(ts, n);
      case Byebye(n) => DeadlinesLists(ts, n);
      case Prune(now) =>
        if ts != [] {
          DeadlinesAt(ts, 0);
          forall n | n in d ensures ts[0].time <= d[n] {
            HeadIsEarliest(ts, n);
          }
        }
    }
  }

  lemma EventsAreJustified(ops: seq<Op>, op: Op)
    ensures Justified(Deadlines(Run(ops).timeouts), op, Outcome(Run(ops).timeouts, op))
  {
    TimeoutsFollowEvents(ops);
    OutcomeIsJustified(Run(ops).timeouts, op);
  }

  /** Nothing happens before a time has come, and then one peer of earliest time goes. */
  lemma PruneEffect(ts: seq<Timeout>, now: Instant)
    requires Valid(ts)
    ensures var d, d' := Deadlines(ts), Deadlines(Next(ts, Prune(now)));
            var sent := Outcome(ts, Prune(now));
            if forall n :: n in d ==> d[n] > now then sent == None && d' == d
            else sent.Some? && sent.value.PeerTimedOut?
                 && var n := sent.value.node;
                    n in d && d[n] <= now && (forall m :: m in d ==> d[n] <= d[m]) && d' == d - {n}
  {
    hide Valid, Next, Outcome, Deadlines;
    StepKeepsValid(ts, Prune(now));
    OutcomeIsJustified(ts, Prune(now));
  }

  lemma HeadIsEarliest(ts: seq<Timeout>, n: NodeId)
    requires Valid(ts) && n in Deadlines(ts)
    ensures ts != [] && ts[0].time <= Deadlines(ts)[n]
  {
    DeadlinesLists(ts, n);
    var i :| 0 <= i < |ts| && ts[i].node == n;
    DeadlinesAt(ts, i);
  }

  /** Prune steps at one instant, repeated until one sends nothing; the events they send. */
  function HeadPruned(ts: seq<Timeout>, now: Instant): (seq<Timeout>, seq<Event>)
    decreases |ts|
  {
    match Outcome(ts, Prune(now))
    case None => (ts, [])
    case Some(e) =>
      var rest := HeadPruned(Next(ts, Prune(now)), now);
      (rest.0, [e] + rest.1)
  }

  function TimedOut(nodes: seq<NodeId>): seq<Event> {
    seq(|nodes|, i requires 0 <= i < |nodes| => PeerTimedOut(nodes[i]))
  }

  lemma {:induction false} HeadPrunedIsFilter(ts: seq<Timeout>, now: Instant)
    requires Sorted(ts)
    ensures HeadPruned(ts, now) == (LaterThan(ts, now), TimedOut(Expired(ts, now)))
  {
    if ts == [] {
      assert TimedOut([]) == [];
    } else if ts[0].time <= now {
      HeadPrunedIsFilter(ts[1..], now);
      assert TimedOut(Expired(ts, now)) == [PeerTimedOut(ts[0].node)] + TimedOut(Expired(ts[1..], now));
    } else {
      NothingExpired(ts, now);
      assert TimedOut([]) == [];
    }
  }

  /** On every reachable list, pruning only the head until it stays removes and reports exactly the expired peers. */
  lemma HeadPruningIsExact(ops: seq<Op>, now: Instant)
    ensures var ts := Run(ops).timeouts;
            var d := Deadlines(ts);
            && Deadlines(HeadPruned(ts, now).0) == (map n | n in d && d[n] > now :: d[n])
            && (forall n :: PeerTimedOut(n) in HeadPruned(ts, now).1 <==> n in d && d[n] <= now)
            && (forall e :: e in HeadPruned(ts, now).1 ==> e.PeerTimedOut?)
  {
    var ts := Run(ops).timeouts;
    TimeoutsFollowEvents(ops);
    HeadPrunedIsFilter(ts, now);
    PartitionByTime(ts, now);
    var nodes := Expired(ts, now);
    forall n ensures PeerTimedOut(n) in TimedOut(nodes) <==> n in nodes {
      if n in nodes {
        var i :| 0 <= i < |nodes| && nodes[i] == n;
        assert TimedOut(nodes)[i] == PeerTimedOut(n);
      }
    }
  }

  lemma {:induction false} PartitionByTime(ts: seq<Timeout>, now: Instant)
    requires Valid(ts)
    ensures forall n :: n in Expired(ts, now) <==> n in Deadlines(ts) && Deadlines(ts)[n] <= now
    ensures Deadlines(LaterThan(ts, now)) == (map n | n in Deadlines(ts) && Deadlines(ts)[n] > now :: Deadlines(ts)[n])
  {
    hide Sorted, OnePerNode;
    if ts != [] {
      ValidTail(ts);
      PartitionByTime(ts[1..], now);
      if ts[0].time > now {
        assert LaterThan(ts, now)[1..] == LaterThan(ts[1..], now);
      }
    }
  }
}
