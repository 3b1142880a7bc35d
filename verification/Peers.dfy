/** The observer's peer list and the change notifications it emits. */
module Peers {
  import opened Wrappers
  import opened DiscoveryTypes

  type SessionId = nat
  type Timeline = nat
  type StartStop = nat

  datatype PeerState = PeerState(
    node: NodeId,
    session: SessionId,
    timeline: Timeline,
    startStop: StartStop,
    measurementEndpoint: Option<Endpoint>,
    audioEndpoint: Option<Endpoint>)

  datatype Change =
    | SessionMembership
    | SessionTimeline(session: SessionId, timeline: Timeline)
    | SessionStartStopState(session: SessionId, timeline: Timeline, startStop: StartStop)
    | PeerLeft
    | AudioEndpoint(node: NodeId, endpoint: Option<Endpoint>)

  // ----- specification functions -----

  predicate Has(peers: seq<PeerState>, node: NodeId) {
    exists i :: 0 <= i < |peers| && peers[i].node == node
  }

  predicate KnownTimeline(peers: seq<PeerState>, s: PeerState) {
    exists i :: 0 <= i < |peers| && peers[i].session == s.session && peers[i].timeline == s.timeline
  }

  predicate KnownStartStop(peers: seq<PeerState>, s: PeerState) {
    exists i :: 0 <= i < |peers| && peers[i].session == s.session && peers[i].timeline == s.timeline
                && peers[i].startStop == s.startStop
  }

  /** First index of the node, or the length of the list. */
  function IndexOf(peers: seq<PeerState>, node: NodeId): (k: nat)
    ensures k <= |peers|
    ensures k < |peers| ==> peers[k].node == node
    ensures forall i :: 0 <= i < k ==> peers[i].node != node
    ensures k < |peers| <==> Has(peers, node)
  {
    if peers == [] then 0
    else if peers[0].node == node then 0
    else
      var k := IndexOf(peers[1..], node);
      assert k < |peers[1..]| ==> peers[k + 1].node == node;
      assert Has(peers, node) ==> Has(peers[1..], node) by {
        if Has(peers, node) {
          var i :| 0 <= i < |peers| && peers[i].node == node;
          assert peers[1..][i - 1].node == node;
        }
      }
      1 + k
  }

  function Upserted(peers: seq<PeerState>, s: PeerState): seq<PeerState> {
    var k := IndexOf(peers, s.node);
    if k < |peers| then peers[k := s] else peers + [s]
  }

  function TimelineNotice(peers: seq<PeerState>, s: PeerState): seq<Change> {
    if KnownTimeline(peers, s) then [] else [SessionTimeline(s.session, s.timeline)]
  }

  function StartStopNotice(peers: seq<PeerState>, s: PeerState): seq<Change> {
    if KnownTimeline(peers, s) && KnownStartStop(peers, s) then []
    else [SessionStartStopState(s.session, s.timeline, s.startStop)]
  }

  /** The node is already listed in the session it announces. */
  predicate SameSession(peers: seq<PeerState>, s: PeerState) {
    var k := IndexOf(peers, s.node);
    k < |peers| && peers[k].session == s.session
  }

  predicate SameAudio(peers: seq<PeerState>, s: PeerState) {
    var k := IndexOf(peers, s.node);
    k < |peers| && peers[k].audioEndpoint == s.audioEndpoint
  }

  function MembershipChange(peers: seq<PeerState>, s: PeerState): seq<Change> {
    if SameSession(peers, s) then [] else [SessionMembership]
  }

  function AudioNotice(peers: seq<PeerState>, s: PeerState): seq<Change> {
    if SameAudio(peers, s) then [] else [AudioEndpoint(s.node, s.audioEndpoint)]
  }

  /** Membership precedes the audio endpoint, so a consumer sees the new count first. */
  function ChangesFor(peers: seq<PeerState>, s: PeerState): seq<Change> {
    TimelineNotice(peers, s) + StartStopNotice(peers, s) + MembershipChange(peers, s) + AudioNotice(peers, s)
  }

  function Without(peers: seq<PeerState>, node: NodeId): seq<PeerState> {
    if peers == [] then []
    else if peers[|peers| - 1].node == node then Without(peers[..|peers| - 1], node)
    else Without(peers[..|peers| - 1], node) + [peers[|peers| - 1]]
  }

  /** Nodes of a session other than this one. */
  function Members(peers: seq<PeerState>, session: SessionId, self: NodeId): set<NodeId> {
    set i | 0 <= i < |peers| && peers[i].session == session && peers[i].node != self :: peers[i].node
  }

  function Count(peers: seq<PeerState>, session: SessionId, self: NodeId): nat {
    |Members(peers, session, self)|
  }

  // ----- the list -----

  class PeerList {
    var peers: seq<PeerState>

    constructor ()
      ensures peers == []
    {
      peers := [];
    }

    /** What of the state no listed peer has, and where its node stands. */
    method Scan(state: PeerState) returns (timelineChanged: bool, startStopChanged: bool, previous: nat)
      ensures timelineChanged <==> !KnownTimeline(peers, state)
      ensures startStopChanged <==> !KnownStartStop(peers, state)
      ensures previous == IndexOf(peers, state.node)
    {
      timelineChanged, startStopChanged, previous := true, true, |peers|;
      for i := 0 to |peers|
        invariant !timelineChanged <==> KnownTimeline(peers[..i], state)
        invariant !startStopChanged <==> KnownStartStop(peers[..i], state)
        invariant || (previous == |peers| && forall j :: 0 <= j < i ==> peers[j].node != state.node)
                  || (previous < i && previous == IndexOf(peers, state.node))
      {
        var peer := peers[i];
        assert peers[..i + 1] == peers[..i] + [peer];
        KnownAppend(peers[..i], peer, state);
        if peer.session == state.session && peer.timeline == state.timeline {
          timelineChanged := false;
          if peer.startStop == state.startStop {
            startStopChanged := false;
          }
        }
        if previous == |peers| && peer.node == state.node {
          previous := i;
        }
      }
      assert peers[..|peers|] == peers;
    }

    method ApplyPeer(state: PeerState, self: NodeId, deadline: Option<Instant>, now: Instant)
        returns (changes: seq<Change>)
      modifies this
      ensures var op := Apply(state, deadline.Some? && deadline.value <= now);
              changes == Emitted(old(peers), self, op) && peers == After(old(peers), self, op)
      ensures if state.node == self || (deadline.Some? && deadline.value <= now)
              then changes == [] && peers == old(peers) else state in peers
    {
      if state.node == self {
        return [];
      }
      var timelineChanged, startStopChanged, previous := Scan(state);
      changes := [];
      if timelineChanged {
        changes := changes + [SessionTimeline(state.session, state.timeline)];
      }
      if timelineChanged || startStopChanged {
        changes := changes + [SessionStartStopState(state.session, state.timeline, state.startStop)];
      }
      if previous == |peers| || peers[previous].session != state.session {
        changes := changes + [SessionMembership];
      }
      if previous == |peers| || peers[previous].audioEndpoint != state.audioEndpoint {
        changes := changes + [AudioEndpoint(state.node, state.audioEndpoint)];
      }
      // guards may have been waited for: the deadline is checked again before publication
      if deadline.Some? && deadline.value <= now {
        return [];
      }
      if previous < |peers| {
        peers := peers[previous := state];
        assert peers[previous] == state;
      } else {
        peers := peers + [state];
        assert peers[previous] == state;
      }
    }

    method RemovePeer(node: NodeId) returns (changes: seq<Change>)
      modifies this
      ensures forall self ::
                && changes == Emitted(old(peers), self, Remove(node))
                && peers == After(old(peers), self, Remove(node))
    {
      var kept := [];
      for i := 0 to |peers|
        invariant kept == Without(peers[..i], node)
      {
        assert peers[..i + 1][..i] == peers[..i];
        if peers[i].node != node {
          kept := kept + [peers[i]];
        }
      }
      assert peers[..|peers|] == peers;
      WithoutShrinks(peers, node);
      changes := if |kept| != |peers| then [PeerLeft] else [];
      peers := kept;
    }

    method UniqueSessionPeerCount(session: SessionId, self: NodeId) returns (count: nat)
      ensures count == |set p | p in peers && p.session == session && p.node != self :: p.node|
      ensures count == Count(peers, session, self)
    {
      var seen: set<NodeId> := {};
      for i := 0 to |peers|
        invariant seen == Members(peers[..i], session, self)
      {
        if peers[i].session == session && peers[i].node != self {
          seen := seen + {peers[i].node};
        }
        MembersAppend(peers[..i], peers[i], session, self);
        assert peers[..i + 1] == peers[..i] + [peers[i]];
      }
      assert peers[..|peers|] == peers;
      assert seen == set p | p in peers && p.session == session && p.node != self :: p.node;
      return |seen|;
    }
  }

  lemma KnownAppend(peers: seq<PeerState>, p: PeerState, s: PeerState)
    ensures KnownTimeline(peers + [p], s) <==>
              KnownTimeline(peers, s) || (p.session == s.session && p.timeline == s.timeline)
    ensures KnownStartStop(peers + [p], s) <==>
              || KnownStartStop(peers, s)
              || (p.session == s.session && p.timeline == s.timeline && p.startStop == s.startStop)
  {
    var all := peers + [p];
    assert all[|peers|] == p;
    assert forall i :: 0 <= i < |peers| ==> all[i] == peers[i];
  }

  lemma MembersAppend(peers: seq<PeerState>, p: PeerState, session: SessionId, self: NodeId)
    ensures Members(peers + [p], session, self)
         == Members(peers, session, self) + (if p.session == session && p.node != self then {p.node} else {})
  {
    var all := peers + [p];
    assert all[|peers|] == p;
    assert forall i :: 0 <= i < |peers| ==> all[i] == peers[i];
    forall n | n in Members(peers, session, self) ensures n in Members(all, session, self) {
      var i :| 0 <= i < |peers| && peers[i].session == session && peers[i].node != self && peers[i].node == n;
      assert all[i].node == n;
    }
  }

  lemma {:induction false} WithoutLength(peers: seq<PeerState>, node: NodeId)
    ensures |Without(peers, node)| <= |peers|
    ensures |Without(peers, node)| < |peers| <==> Has(peers, node)
  {
    if peers != [] {
      var front, last := peers[..|peers| - 1], peers[|peers| - 1];
      WithoutLength(front, node);
      HasPush(front, last, node);
      assert peers == front + [last];
    }
  }

  lemma HasPush(front: seq<PeerState>, last: PeerState, node: NodeId)
    ensures Has(front + [last], node) <==> Has(front, node) || last.node == node
  {
    var all := front + [last];
    assert all[|front|] == last;
    assert forall i :: 0 <= i < |front| ==> all[i] == front[i];
  }

  lemma {:induction false} WithoutMembers(peers: seq<PeerState>, node: NodeId)
    ensures forall p :: p in Without(peers, node) <==> p in peers && p.node != node
  {
    if peers != [] {
      var front, last := peers[..|peers| - 1], peers[|peers| - 1];
      WithoutMembers(front, node);
      assert peers == front + [last];
    }
  }

  lemma WithoutShrinks(peers: seq<PeerState>, node: NodeId)
    ensures |Without(peers, node)| <= |peers|
    ensures |Without(peers, node)| < |peers| <==> Has(peers, node)
    ensures forall i :: 0 <= i < |Without(peers, node)| ==>
              Without(peers, node)[i] in peers && Without(peers, node)[i].node != node
    ensures forall i :: 0 <= i < |peers| && peers[i].node != node ==> peers[i] in Without(peers, node)
  {
    hide Without, Has;
    WithoutLength(peers, node);
    WithoutMembers(peers, node);
  }

  // ----- runs -----

  datatype Op = Apply(state: PeerState, expired: bool) | Remove(node: NodeId)

  datatype Observer = Observer(peers: seq<PeerState>, log: seq<Change>)

  function Emitted(peers: seq<PeerState>, self: NodeId, op: Op): seq<Change> {
    match op
    case Apply(s, expired) => if s.node == self || expired then [] else ChangesFor(peers, s)
    case Remove(n) => if Has(peers, n) then [PeerLeft] else []
  }

  function After(peers: seq<PeerState>, self: NodeId, op: Op): seq<PeerState> {
    match op
    case Apply(s, expired) => if s.node == self || expired then peers else Upserted(peers, s)
    case Remove(n) => Without(peers, n)
  }

  function Next(o: Observer, self: NodeId, op: Op): Observer {
    Observer(After(o.peers, self, op), o.log + Emitted(o.peers, self, op))
  }

  function Run(self: NodeId, ops: seq<Op>): Observer {
    if ops == [] then Observer([], []) else Next(Run(self, ops[..|ops| - 1]), self, ops[|ops| - 1])
  }

  /** A consumer that keeps the last audio endpoint it was told for each node. */
  function Replay(log: seq<Change>): map<NodeId, Option<Endpoint>> {
    if log == [] then map[]
    else
      var before := Replay(log[..|log| - 1]);
      match log[|log| - 1]
      case AudioEndpoint(n, ep) => before[n := ep]
      case _ => before
  }

  predicate UniqueNodes(peers: seq<PeerState>, self: NodeId) {
    && (forall i, j :: 0 <= i < j < |peers| ==> peers[i].node != peers[j].node)
    && (forall i :: 0 <= i < |peers| ==> peers[i].node != self)
  }

  predicate AudioFaithful(o: Observer) {
    forall i :: 0 <= i < |o.peers| ==>
      o.peers[i].node in Replay(o.log) && Replay(o.log)[o.peers[i].node] == o.peers[i].audioEndpoint
  }

  predicate Announced(o: Observer) {
    forall i :: 0 <= i < |o.peers| ==>
      && SessionTimeline(o.peers[i].session, o.peers[i].timeline) in o.log
      && SessionStartStopState(o.peers[i].session, o.peers[i].timeline, o.peers[i].startStop) in o.log
  }

  predicate FaithfulLog(o: Observer, self: NodeId) {
    UniqueNodes(o.peers, self) && AudioFaithful(o) && Announced(o)
  }

  lemma {:induction false} ReplayAppend(a: seq<Change>, b: seq<Change>)
    ensures Replay(a + b) == Replay(a) + Replay(b)
    decreases |b|
  {
    if b == [] {
      assert a + b == a;
    } else {
      var front := b[..|b| - 1];
      assert (a + b)[..|a + b| - 1] == a + front;
      ReplayAppend(a, front);
    }
  }

  /** The order of notices: a consumer of an endpoint has seen the new membership, timeline and start/stop state. */
  function Rank(c: Change): nat {
    match c
    case SessionTimeline(_, _) => 0
    case SessionStartStopState(_, _, _) => 1
    case SessionMembership => 2
    case PeerLeft => 2
    case AudioEndpoint(_, _) => 3
  }

  /** Each notice is sent at most once, in order, and exactly when no listed peer has made it already. */
  lemma NoticesExactlyWhen(peers: seq<PeerState>, s: PeerState, self: NodeId)
    requires UniqueNodes(peers, self)
    ensures var cs := ChangesFor(peers, s);
            && (SessionTimeline(s.session, s.timeline) in cs <==>
                  forall p :: p in peers ==> !(p.session == s.session && p.timeline == s.timeline))
            && (SessionStartStopState(s.session, s.timeline, s.startStop) in cs <==>
                  forall p :: p in peers ==>
                    !(p.session == s.session && p.timeline == s.timeline && p.startStop == s.startStop))
            && (SessionMembership in cs <==> forall p :: p in peers ==> !(p.node == s.node && p.session == s.session))
            && (AudioEndpoint(s.node, s.audioEndpoint) in cs <==>
                  forall p :: p in peers ==> !(p.node == s.node && p.audioEndpoint == s.audioEndpoint))
  {
    hide UniqueNodes, IndexOf, KnownTimeline, KnownStartStop, SameSession, SameAudio;
    NoticesOfParts(peers, s);
    KnownIsListed(peers, s);
    SameIsListed(peers, s, self);
  }

  lemma {:induction false} NoticesInOrder(peers: seq<PeerState>, s: PeerState, i: nat, j: nat)
    requires i < j < |ChangesFor(peers, s)|
    ensures Rank(ChangesFor(peers, s)[i]) < Rank(ChangesFor(peers, s)[j])
  {
    hide IndexOf, KnownTimeline, KnownStartStop, SameSession, SameAudio;
    var t, u := TimelineNotice(peers, s), StartStopNotice(peers, s);
    var m, a := MembershipChange(peers, s), AudioNotice(peers, s);
    var tu: seq<Change> := t + u;
    var tum: seq<Change> := tu + m;
    assert ChangesFor(peers, s) == tum + a;
    assert forall k :: 0 <= k < |tu| ==> Rank(tu[k]) <= 1;
    assert forall k :: 0 <= k < |tum| ==> Rank(tum[k]) <= 2;
  }

  lemma NoticesOfParts(peers: seq<PeerState>, s: PeerState)
    ensures var cs := ChangesFor(peers, s);
            && (SessionTimeline(s.session, s.timeline) in cs <==> !KnownTimeline(peers, s))
            && (SessionStartStopState(s.session, s.timeline, s.startStop) in cs <==>
                  !(KnownTimeline(peers, s) && KnownStartStop(peers, s)))
            && (SessionMembership in cs <==> !SameSession(peers, s))
            && (AudioEndpoint(s.node, s.audioEndpoint) in cs <==> !SameAudio(peers, s))
  {
    hide IndexOf, KnownTimeline, KnownStartStop, SameSession, SameAudio;
    var t, u := TimelineNotice(peers, s), StartStopNotice(peers, s);
    var m, a := MembershipChange(peers, s), AudioNotice(peers, s);
    forall c ensures c in ChangesFor(peers, s) <==> c in t || c in u || c in m || c in a {
      assert c in t + u + m + a <==> c in t + u + m || c in a;
      assert c in t + u + m <==> c in t + u || c in m;
    }
    assert !KnownTimeline(peers, s) ==> t == [SessionTimeline(s.session, s.timeline)];
    assert !SameSession(peers, s) ==> m == [SessionMembership];
    assert !SameAudio(peers, s) ==> a == [AudioEndpoint(s.node, s.audioEndpoint)];
    assert !(KnownTimeline(peers, s) && KnownStartStop(peers, s)) ==>
             u == [SessionStartStopState(s.session, s.timeline, s.startStop)];
  }

  lemma KnownIsListed(peers: seq<PeerState>, s: PeerState)
    ensures KnownTimeline(peers, s) <==> exists p :: p in peers && p.session == s.session && p.timeline == s.timeline
    ensures KnownTimeline(peers, s) && KnownStartStop(peers, s) <==>
              exists p :: p in peers && p.session == s.session && p.timeline == s.timeline && p.startStop == s.startStop
  {
    assert forall i :: 0 <= i < |peers| ==> peers[i] in peers;
  }

  lemma SameIsListed(peers: seq<PeerState>, s: PeerState, self: NodeId)
    requires UniqueNodes(peers, self)
    ensures SameSession(peers, s) <==> exists p :: p in peers && p.node == s.node && p.session == s.session
    ensures SameAudio(peers, s) <==> exists p :: p in peers && p.node == s.node && p.audioEndpoint == s.audioEndpoint
  {
    var k := IndexOf(peers, s.node);
    if k < |peers| {
      assert peers[k] in peers;
    }
    forall p | p in peers && p.node == s.node ensures k < |peers| && p == peers[k] {
      var i :| 0 <= i < |peers| && peers[i] == p;
    }
  }

  lemma ReplayOne(log: seq<Change>)
    requires |log| <= 1
    ensures Replay(log) == if |log| == 1 && log[0].AudioEndpoint? then map[log[0].node := log[0].endpoint] else map[]
  {
    if |log| == 1 {
      assert log[..0] == [];
      assert Replay(log[..0]) == map[];
    }
  }

  lemma ReplaySilent(a: seq<Change>, b: seq<Change>)
    requires Replay(a) == map[]
    ensures Replay(a + b) == Replay(b)
  {
    hide Replay;
    ReplayAppend(a, b);
  }

  /** Timeline, start/stop and membership notices say nothing about endpoints. */
  lemma ReplayNotices(peers: seq<PeerState>, s: PeerState)
    ensures Replay(TimelineNotice(peers, s)) == Replay(StartStopNotice(peers, s)) == map[]
    ensures Replay(MembershipChange(peers, s)) == map[]
    ensures Replay(AudioNotice(peers, s)) == if SameAudio(peers, s) then map[] else map[s.node := s.audioEndpoint]
  {
    hide IndexOf, KnownTimeline, KnownStartStop, SameSession, SameAudio, Replay;
    ReplayOne(TimelineNotice(peers, s));
    ReplayOne(StartStopNotice(peers, s));
    ReplayOne(MembershipChange(peers, s));
    ReplayOne(AudioNotice(peers, s));
  }

  /** Only the applied node's endpoint can appear in its changes. */
  lemma ReplayChanges(peers: seq<PeerState>, s: PeerState)
    ensures Replay(ChangesFor(peers, s)) == if SameAudio(peers, s) then map[] else map[s.node := s.audioEndpoint]
  {
    hide Replay, TimelineNotice, StartStopNotice, MembershipChange, AudioNotice, SameAudio;
    var t, u := TimelineNotice(peers, s), StartStopNotice(peers, s);
    var m, a := MembershipChange(peers, s), AudioNotice(peers, s);
    ReplayNotices(peers, s);
    ReplaySilent(t, u);
    ReplaySilent(t + u, m);
    ReplaySilent(t + u + m, a);
  }

  lemma UpsertFacts(peers: seq<PeerState>, s: PeerState, self: NodeId)
    requires UniqueNodes(peers, self) && s.node != self
    ensures UniqueNodes(Upserted(peers, s), self)
    ensures forall i :: 0 <= i < |Upserted(peers, s)| ==>
              Upserted(peers, s)[i] == s || (Upserted(peers, s)[i] in peers && Upserted(peers, s)[i].node != s.node)
    ensures s in Upserted(peers, s)
    ensures forall i :: 0 <= i < |peers| && peers[i].node != s.node ==> peers[i] in Upserted(peers, s)
  {
    var k := IndexOf(peers, s.node);
    var after := Upserted(peers, s);
    if k < |peers| {
      assert after[k] == s;
      assert forall i :: 0 <= i < |peers| && i != k ==> after[i] == peers[i];
    } else {
      assert after[|peers|] == s;
      assert forall i :: 0 <= i < |peers| ==> after[i] == peers[i];
    }
  }

  /** A known node is replaced where it stands and a new one comes last. */
  lemma UpsertInPlace(peers: seq<PeerState>, s: PeerState, self: NodeId)
    requires UniqueNodes(peers, self)
    ensures var after := Upserted(peers, s);
            && |after| == |peers| + (if exists p :: p in peers && p.node == s.node then 0 else 1)
            && (forall i :: 0 <= i < |peers| ==> after[i] == if peers[i].node == s.node then s else peers[i])
            && (|after| > |peers| ==> after[|peers|] == s)
  {
    var k := IndexOf(peers, s.node);
    assert k < |peers| ==> peers[k] in peers;
  }

  /** Removal keeps the order: it works list by list and peer by peer. */
  lemma {:induction false} WithoutAppend(a: seq<PeerState>, b: seq<PeerState>, node: NodeId)
    ensures Without(a + b, node) == Without(a, node) + Without(b, node)
    ensures |b| == 1 ==> Without(b, node) == if b[0].node == node then [] else b
    decreases |b|
  {
    if b == [] {
      assert a + b == a;
    } else {
      var front := b[..|b| - 1];
      assert (a + b)[..|a + b| - 1] == a + front;
      WithoutAppend(a, front, node);
      if |b| == 1 {
        assert b == [] + [b[0]];
      }
    }
  }

  lemma {:induction false} WithoutUnique(peers: seq<PeerState>, node: NodeId, self: NodeId)
    requires UniqueNodes(peers, self)
    ensures UniqueNodes(Without(peers, node), self)
  {
    if peers != [] {
      var front, last := peers[..|peers| - 1], peers[|peers| - 1];
      WithoutUnique(front, node, self);
      WithoutShrinks(front, node);
      var w := Without(front, node);
      forall i | 0 <= i < |w| ensures w[i].node != last.node {
        LastIsNew(peers, self, w[i]);
      }
      if last.node != node {
        var after := w + [last];
        forall i, j | 0 <= i < j < |after| ensures after[i].node != after[j].node {
          if j < |w| {
            assert w[i].node != w[j].node;
          }
        }
      }
    }
  }

  lemma LastIsNew(peers: seq<PeerState>, self: NodeId, p: PeerState)
    requires UniqueNodes(peers, self) && peers != [] && p in peers[..|peers| - 1]
    ensures p.node != peers[|peers| - 1].node
  {
    var j :| 0 <= j < |peers| - 1 && peers[j] == p;
  }

  lemma AudioStep(o: Observer, self: NodeId, op: Op)
    requires FaithfulLog(o, self)
    ensures AudioFaithful(Next(o, self, op))
  {
    hide Replay, Upserted, Without, ChangesFor, UniqueNodes, Announced;
    ReplayAppend(o.log, Emitted(o.peers, self, op));
    match op {
      case Apply(s, expired) =>
        if s.node != self && !expired {
          UpsertFacts(o.peers, s, self);
          ReplayChanges(o.peers, s);
          SameAudioMeans(o.peers, s);
        } else {
          ReplayOne([]);
        }
      case Remove(n) =>
        WithoutShrinks(o.peers, n);
        ReplayOne(Emitted(o.peers, self, op));
    }
  }

  lemma SameAudioMeans(peers: seq<PeerState>, s: PeerState)
    ensures SameAudio(peers, s) ==>
              exists i :: 0 <= i < |peers| && peers[i].node == s.node && peers[i].audioEndpoint == s.audioEndpoint
  {}

  lemma AnnouncedStep(o: Observer, self: NodeId, op: Op)
    requires FaithfulLog(o, self)
    ensures Announced(Next(o, self, op))
  {
    match op {
      case Apply(s, expired) =>
        if s.node != self && !expired {
          UpsertFacts(o.peers, s, self);
          NewTripleAnnounced(o, s);
        }
      case Remove(n) =>
        WithoutShrinks(o.peers, n);
    }
  }

  /** What is not repeated was already announced for a peer still listed. */
  lemma NewTripleAnnounced(o: Observer, s: PeerState)
    requires Announced(o)
    ensures SessionTimeline(s.session, s.timeline) in o.log + ChangesFor(o.peers, s)
    ensures SessionStartStopState(s.session, s.timeline, s.startStop) in o.log + ChangesFor(o.peers, s)
  {
    if KnownTimeline(o.peers, s) {
      var i :| 0 <= i < |o.peers| && o.peers[i].session == s.session && o.peers[i].timeline == s.timeline;
      assert SessionTimeline(s.session, s.timeline) in o.log;
      if KnownStartStop(o.peers, s) {
        var j :| 0 <= j < |o.peers| && o.peers[j].session == s.session && o.peers[j].timeline == s.timeline
                 && o.peers[j].startStop == s.startStop;
        assert SessionStartStopState(s.session, s.timeline, s.startStop) in o.log;
      } else {
        assert ChangesFor(o.peers, s)[0] == SessionStartStopState(s.session, s.timeline, s.startStop);
      }
    } else {
      assert ChangesFor(o.peers, s)[0] == SessionTimeline(s.session, s.timeline);
      assert ChangesFor(o.peers, s)[1] == SessionStartStopState(s.session, s.timeline, s.startStop);
    }
  }

  /** Over any run the log stays faithful to the list. */
  lemma {:induction false} LogIsFaithful(self: NodeId, ops: seq<Op>)
    ensures FaithfulLog(Run(self, ops), self)
  {
    if ops != [] {
      var o, op := Run(self, ops[..|ops| - 1]), ops[|ops| - 1];
      LogIsFaithful(self, ops[..|ops| - 1]);
      AudioStep(o, self, op);
      AnnouncedStep(o, self, op);
      UniqueStep(o.peers, self, op);
    }
  }

  lemma UniqueStep(peers: seq<PeerState>, self: NodeId, op: Op)
    requires UniqueNodes(peers, self)
    ensures UniqueNodes(After(peers, self, op), self)
  {
    hide UniqueNodes;
    match op {
      case Apply(s, expired) =>
        if s.node != self && !expired {
          UpsertFacts(peers, s, self);
        }
      case Remove(n) => WithoutUnique(peers, n, self);
    }
  }

  // ----- membership counts -----

  lemma MembersOf(peers: seq<PeerState>, session: SessionId, self: NodeId, p: PeerState)
    requires p in peers && p.session == session && p.node != self
    ensures p.node in Members(peers, session, self)
  {
    var i :| 0 <= i < |peers| && peers[i] == p;
  }

  lemma MembersWitness(peers: seq<PeerState>, session: SessionId, self: NodeId, n: NodeId) returns (p: PeerState)
    requires n in Members(peers, session, self)
    ensures p in peers && p.session == session && p.node == n != self
  {
    var i :| 0 <= i < |peers| && peers[i].session == session && peers[i].node != self && peers[i].node == n;
    p := peers[i];
  }

  /** Applying a state moves exactly that node between sessions. */
  lemma MembersAfterUpsert(peers: seq<PeerState>, s: PeerState, self: NodeId, session: SessionId)
    requires UniqueNodes(peers, self) && s.node != self
    ensures Members(Upserted(peers, s), session, self)
         == Members(peers, session, self) - {s.node} + (if s.session == session then {s.node} else {})
  {
    UpsertFacts(peers, s, self);
    var after := Upserted(peers, s);
    forall n | n in Members(after, session, self)
      ensures n in Members(peers, session, self) - {s.node} + (if s.session == session then {s.node} else {})
    {
      var p := MembersWitness(after, session, self, n);
      if p != s {
        MembersOf(peers, session, self, p);
      }
    }
    forall n | n in Members(peers, session, self) && n != s.node ensures n in Members(after, session, self) {
      var p := MembersWitness(peers, session, self, n);
      MembersOf(after, session, self, p);
    }
    if s.session == session {
      MembersOf(after, session, self, s);
    }
  }

  lemma MembersAfterRemove(peers: seq<PeerState>, node: NodeId, self: NodeId, session: SessionId)
    ensures Members(Without(peers, node), session, self) == Members(peers, session, self) - {node}
  {
    WithoutShrinks(peers, node);
    var after := Without(peers, node);
    forall n | n in Members(after, session, self) ensures n in Members(peers, session, self) - {node} {
      var p := MembersWitness(after, session, self, n);
      MembersOf(peers, session, self, p);
    }
    forall n | n in Members(peers, session, self) && n != node ensures n in Members(after, session, self) {
      var p := MembersWitness(peers, session, self, n);
      MembersOf(after, session, self, p);
    }
  }

  predicate MembershipNotice(changes: seq<Change>) {
    SessionMembership in changes || PeerLeft in changes
  }

  /** A step is announced as a membership change exactly when it changes some session's peer count. */
  lemma CountChangesAreAnnounced(self: NodeId, ops: seq<Op>, op: Op)
    ensures var o := Run(self, ops);
            MembershipNotice(Emitted(o.peers, self, op)) <==>
              exists session :: Count(After(o.peers, self, op), session, self) != Count(o.peers, session, self)
  {
    LogIsFaithful(self, ops);
    var peers := Run(self, ops).peers;
    match op {
      case Apply(s, expired) =>
        if s.node != self && !expired {
          ApplyCounts(peers, s, self);
        }
      case Remove(n) => RemoveCounts(peers, n, self);
    }
  }

  lemma ApplyCounts(peers: seq<PeerState>, s: PeerState, self: NodeId)
    requires UniqueNodes(peers, self) && s.node != self
    ensures MembershipNotice(ChangesFor(peers, s)) <==>
              exists session :: Count(Upserted(peers, s), session, self) != Count(peers, session, self)
  {
    hide Upserted, UniqueNodes, MembershipNotice, ChangesFor, SameSession, Members;
    NoticeMeansMove(peers, s);
    if SameSession(peers, s) {
      forall session ensures Count(Upserted(peers, s), session, self) == Count(peers, session, self) {
        StaysPut(peers, s, self, session);
      }
    } else {
      Joins(peers, s, self);
    }
  }

  lemma StaysPut(peers: seq<PeerState>, s: PeerState, self: NodeId, session: SessionId)
    requires UniqueNodes(peers, self) && s.node != self && SameSession(peers, s)
    ensures Members(Upserted(peers, s), session, self) == Members(peers, session, self)
  {
    hide Upserted;
    var k := IndexOf(peers, s.node);
    MembersAfterUpsert(peers, s, self, session);
    if session == s.session {
      MembersOf(peers, session, self, peers[k]);
    } else {
      OtherSession(peers, s.node, k, self, session);
    }
  }

  lemma Joins(peers: seq<PeerState>, s: PeerState, self: NodeId)
    requires UniqueNodes(peers, self) && s.node != self && !SameSession(peers, s)
    ensures Count(Upserted(peers, s), s.session, self) == Count(peers, s.session, self) + 1
  {
    hide Upserted;
    var k := IndexOf(peers, s.node);
    MembersAfterUpsert(peers, s, self, s.session);
    if k < |peers| {
      OtherSession(peers, s.node, k, self, s.session);
    } else if s.node in Members(peers, s.session, self) {
      var p := MembersWitness(peers, s.session, self, s.node);
      assert false;
    }
    assert Members(Upserted(peers, s), s.session, self) == Members(peers, s.session, self) + {s.node};
  }

  lemma NoticeMeansMove(peers: seq<PeerState>, s: PeerState)
    ensures MembershipNotice(ChangesFor(peers, s)) <==> !SameSession(peers, s)
  {
    hide IndexOf, KnownTimeline, KnownStartStop, SameSession, SameAudio;
    var t, u := TimelineNotice(peers, s), StartStopNotice(peers, s);
    var m, a := MembershipChange(peers, s), AudioNotice(peers, s);
    var all := ChangesFor(peers, s);
    forall c ensures c in all <==> c in t || c in u || c in m || c in a {
      assert c in t + u + m + a <==> c in t + u + m || c in a;
      assert c in t + u + m <==> c in t + u || c in m;
    }
    if !SameSession(peers, s) {
      assert SessionMembership in m;
    }
  }

  lemma OtherSession(peers: seq<PeerState>, node: NodeId, k: nat, self: NodeId, session: SessionId)
    requires UniqueNodes(peers, self)
    requires k < |peers| && peers[k].node == node && peers[k].session != session
    ensures node !in Members(peers, session, self)
  {
    if node in Members(peers, session, self) {
      var p := MembersWitness(peers, session, self, node);
      assert exists i :: 0 <= i < |peers| && peers[i] == p;
      assert false;
    }
  }

  lemma RemoveCounts(peers: seq<PeerState>, node: NodeId, self: NodeId)
    requires UniqueNodes(peers, self)
    ensures Has(peers, node) <==>
              exists session :: Count(Without(peers, node), session, self) != Count(peers, session, self)
  {
    if Has(peers, node) {
      var i :| 0 <= i < |peers| && peers[i].node == node;
      var session := peers[i].session;
      MembersOf(peers, session, self, peers[i]);
      MembersAfterRemove(peers, node, self, session);
      assert Count(Without(peers, node), session, self) != Count(peers, session, self);
    } else {
      forall session ensures Count(Without(peers, node), session, self) == Count(peers, session, self) {
        MembersAfterRemove(peers, node, self, session);
        if node in Members(peers, session, self) {
          var p := MembersWitness(peers, session, self, node);
          assert false;
        }
      }
    }
  }
}
