/**
 * The discovery interface map. It is keyed by address and a value keeps every adapter sharing its address as a
 * sibling of the first; the multicast receiver joins each adapter index once. Both refine a flat set of
 * registrations with unique identities.
 */
module Interfaces {
  import opened Wrappers

  type Address = nat
  type AdapterIndex = nat
  type SocketId = nat

  /** The host's own addresses, which every registration consults on delivery. */
  type LocalIdentity = nat

  datatype Identity = Identity(addr: Address, index: AdapterIndex, name: string)

  /** Only map values have siblings; a registration taken out of the map has none. */
  datatype InterfaceSocket = InterfaceSocket(
    id: SocketId,
    identity: Identity,
    generation: nat,
    siblings: seq<InterfaceSocket>)

  type Groups = map<Address, InterfaceSocket>

  datatype Topology = CheckFailed | Changed | Current

  /** What the operating system answers while an interface is added. */
  datatype Environment = Environment(bound: bool, topology: Topology, joined: bool)

  datatype AddError = BindFailed | AlreadyExists | TopologyFailed | NotConnected | JoinFailed

  datatype AddResult = Ok(entry: InterfaceSocket) | Err(error: AddError)

  // ----- the flat view -----

  function Leased(s: InterfaceSocket): InterfaceSocket { s.(siblings := []) }

  /** A group's registrations: the root, then its siblings. */
  function Registrations(g: InterfaceSocket): seq<InterfaceSocket> { [Leased(g)] + g.siblings }

  function Members(g: InterfaceSocket): set<InterfaceSocket> { set r | r in Registrations(g) }

  function Flat(groups: Groups): set<InterfaceSocket> {
    set a, r | a in groups && r in Members(groups[a]) :: r
  }

  function Identities(rs: set<InterfaceSocket>): set<Identity> { set r | r in rs :: r.identity }

  function Indices(rs: set<InterfaceSocket>): set<AdapterIndex> { set r | r in rs :: r.identity.index }

  // ----- well-formedness -----

  /** One level deep, all at the group's address, no identity twice. */
  predicate GroupOk(a: Address, g: InterfaceSocket) {
    var rs := Registrations(g);
    && (forall i :: 0 <= i < |rs| ==> rs[i].identity.addr == a && rs[i].siblings == [])
    && (forall i, j :: 0 <= i < j < |rs| ==> rs[i].identity != rs[j].identity)
  }

  predicate GroupsOk(groups: Groups) {
    forall a :: a in groups ==> GroupOk(a, groups[a])
  }

  /** Every registration has its own identity and its own live socket. */
  ghost predicate Unique(rs: set<InterfaceSocket>) {
    && (forall r, q :: r in rs && q in rs && r.identity == q.identity ==> r == q)
    && (forall r, q :: r in rs && q in rs && r.id == q.id ==> r == q)
  }

  ghost predicate Alive(rs: set<InterfaceSocket>, next: SocketId, cancelled: set<SocketId>) {
    forall r :: r in rs ==> r.id < next && r.id !in cancelled
  }

  // ----- the map against the flat set -----

  lemma MemberAddress(groups: Groups, a: Address, r: InterfaceSocket)
    requires GroupsOk(groups) && a in groups && r in Members(groups[a])
    ensures r.identity.addr == a && r in Flat(groups)
  {
    var rs := Registrations(groups[a]);
    var i :| 0 <= i < |rs| && rs[i] == r;
  }

  lemma FlatPut(groups: Groups, a: Address, g: InterfaceSocket)
    requires GroupsOk(groups)
    ensures Flat(groups[a := g])
         == (if a in groups then Flat(groups) - Members(groups[a]) else Flat(groups)) + Members(g)
  {
    hide Members, GroupOk;
    var after := groups[a := g];
    forall r | r in Flat(groups) && (a in groups ==> r !in Members(groups[a])) ensures r in Flat(after) {
      var b :| b in groups && r in Members(groups[b]);
      assert after[b] == groups[b];
    }
    forall r | r in Flat(after) && r !in Members(g)
      ensures r in Flat(groups) && (a in groups ==> r !in Members(groups[a]))
    {
      var b :| b in after && r in Members(after[b]);
      MemberAddress(groups, b, r);
      if a in groups && r in Members(groups[a]) {
        MemberAddress(groups, a, r);
      }
    }
    assert a in after && after[a] == g;
  }

  lemma FlatDrop(groups: Groups, a: Address)
    requires GroupsOk(groups) && a in groups
    ensures Flat(groups - {a}) == Flat(groups) - Members(groups[a])
  {
    hide Members, GroupOk;
    var after := groups - {a};
    forall r | r in Flat(groups) && r !in Members(groups[a]) ensures r in Flat(after) {
      var b :| b in groups && r in Members(groups[b]);
      assert after[b] == groups[b];
    }
    forall r | r in Flat(after) ensures r in Flat(groups) && r !in Members(groups[a]) {
      var b :| b in after && r in Members(after[b]);
      MemberAddress(groups, b, r);
      if r in Members(groups[a]) {
        MemberAddress(groups, a, r);
      }
    }
  }

  /** An identity can only be registered in the group of its address. */
  lemma FoundInGroup(groups: Groups, identity: Identity)
    requires GroupsOk(groups) && identity in Identities(Flat(groups))
    ensures identity.addr in groups
    ensures var rs := Registrations(groups[identity.addr]);
            exists i :: 0 <= i < |rs| && rs[i].identity == identity
  {
    hide GroupOk;
    var r :| r in Flat(groups) && r.identity == identity;
    var a :| a in groups && r in Members(groups[a]);
    MemberAddress(groups, a, r);
    var i :| 0 <= i < |Registrations(groups[a])| && Registrations(groups[a])[i] == r;
  }

  /** The group that remains when its root goes: the last sibling takes its place. */
  function Promoted(g: InterfaceSocket): InterfaceSocket
    requires g.siblings != []
  {
    var last := |g.siblings| - 1;
    g.siblings[last].(siblings := g.siblings[..last])
  }

  function WithoutSibling(g: InterfaceSocket, k: nat): InterfaceSocket
    requires k < |g.siblings|
  {
    g.(siblings := g.siblings[..k] + g.siblings[k + 1..])
  }

  /** Where each registration of the promoted group stood before. */
  function Origin(g: InterfaceSocket, i: nat): nat { if i == 0 then |g.siblings| else i }

  lemma PromotedAt(a: Address, g: InterfaceSocket, i: nat)
    requires GroupOk(a, g) && i < |g.siblings|
    ensures Registrations(Promoted(g))[i] == Registrations(g)[Origin(g, i)]
  {
    var rs, last := Registrations(g), |g.siblings| - 1;
    assert rs[last + 1] == g.siblings[last];
    if i > 0 {
      assert rs[i] == g.siblings[i - 1];
    }
  }

  /** The last sibling becomes the root, and the others stay in order. */
  lemma PromotedRoot(a: Address, g: InterfaceSocket)
    requires GroupOk(a, g) && g.siblings != []
    ensures var last := |g.siblings| - 1;
            Leased(Promoted(g)) == g.siblings[last] && Promoted(g).siblings == g.siblings[..last]
  {
    var last := |g.siblings| - 1;
    assert Registrations(g)[last + 1] == g.siblings[last];
  }

  lemma PromotedKeeps(a: Address, g: InterfaceSocket)
    requires GroupOk(a, g) && g.siblings != []
    ensures GroupOk(a, Promoted(g)) && Members(Promoted(g)) == Members(g) - {Leased(g)}
  {
    var rs, qs, n := Registrations(g), Registrations(Promoted(g)), |g.siblings|;
    assert |rs| == n + 1 && |qs| == n && rs[0] == Leased(g);
    forall i | 0 <= i < n ensures qs[i] == rs[Origin(g, i)] {
      PromotedAt(a, g, i);
    }
    hide Registrations, Promoted;
    forall r | r in Members(g) && r != Leased(g) ensures r in Members(Promoted(g)) {
      var i :| 0 <= i < |rs| && rs[i] == r;
      assert qs[if i == n then 0 else i] == r;
    }
    forall r | r in Members(Promoted(g)) ensures r in Members(g) && r != Leased(g) {
      var i :| 0 <= i < |qs| && qs[i] == r;
      assert rs[0].identity != rs[Origin(g, i)].identity;
    }
  }

  lemma WithoutSiblingKeeps(a: Address, g: InterfaceSocket, k: nat)
    requires GroupOk(a, g) && k < |g.siblings|
    ensures GroupOk(a, WithoutSibling(g, k)) && Members(WithoutSibling(g, k)) == Members(g) - {g.siblings[k]}
  {
    var rs, qs := Registrations(g), Registrations(WithoutSibling(g, k));
    assert rs[k + 1] == g.siblings[k];
    assert |qs| + 1 == |rs|;
    assert forall i :: 0 <= i <= k ==> qs[i] == rs[i];
    assert forall i :: k < i < |qs| ==> qs[i] == rs[i + 1];
    hide Registrations, WithoutSibling;
    forall r | r in Members(g) && r != g.siblings[k] ensures r in Members(WithoutSibling(g, k)) {
      var i :| 0 <= i < |rs| && rs[i] == r;
      assert qs[if i <= k then i else i - 1] == r;
    }
    forall r | r in Members(WithoutSibling(g, k)) ensures r in Members(g) && r != g.siblings[k] {
      var i :| 0 <= i < |qs| && qs[i] == r;
      assert r == rs[if i <= k then i else i + 1];
    }
  }

  lemma SiblingAdded(a: Address, g: InterfaceSocket, entry: InterfaceSocket)
    requires GroupOk(a, g) && entry.siblings == [] && entry.identity.addr == a
    requires forall r :: r in Members(g) ==> r.identity != entry.identity
    ensures GroupOk(a, g.(siblings := g.siblings + [entry]))
    ensures Members(g.(siblings := g.siblings + [entry])) == Members(g) + {entry}
  {
    var rs, qs := Registrations(g), Registrations(g.(siblings := g.siblings + [entry]));
    assert qs == rs + [entry];
    forall i | 0 <= i < |rs| ensures rs[i].identity != entry.identity {
      assert rs[i] in Members(g);
    }
  }

  // ----- the map -----

  class InterfaceMap {
    var groups: Groups
    var joined: set<AdapterIndex>
    var cancelled: set<SocketId>
    var next: SocketId
    var local: map<SocketId, LocalIdentity>
    var failures: map<Identity, AddError>
    var receivers: set<SocketId>

    ghost predicate Valid()
      reads this
    {
      && GroupsOk(groups)
      && Unique(Flat(groups)) && Alive(Flat(groups), next, cancelled)
      && (forall id :: id in cancelled ==> id < next)
      && Indices(Flat(groups)) <= joined
    }

    ghost function Snapshot(): Registry
      reads this
    {
      Registry(Flat(groups), joined, next, local, failures, receivers)
    }

    constructor ()
      ensures Valid() && Flat(groups) == {} && joined == {} && cancelled == {}
      ensures failures == map[] && receivers == {}
    {
      groups, joined, cancelled, next := map[], {}, {}, 0;
      local, failures, receivers := map[], map[], {};
    }

    /** Every error leaves the registrations and memberships as they were. */
    method Add(identity: Identity, generation: nat, host: LocalIdentity, env: Environment) returns (r: AddResult)
      requires Valid()
      modifies this`groups, this`joined, this`next, this`local
      ensures Valid() && next >= old(next)
      ensures r.Ok? <==> Refusal(old(Flat(groups)), identity, env).None?
      ensures var known := identity in Identities(old(Flat(groups)));
              var passed := env.bound && !known && env.topology == Current;
              && (r == Err(BindFailed) <==> !env.bound)
              && (r == Err(AlreadyExists) <==> env.bound && known)
              && (r == Err(TopologyFailed) <==> env.bound && !known && env.topology == CheckFailed)
              && (r == Err(NotConnected) <==> env.bound && !known && env.topology == Changed)
              && (r == Err(JoinFailed) <==> passed && identity.index !in Indices(old(Flat(groups))) && !env.joined)
              && (r.Ok? <==> passed && (identity.index in Indices(old(Flat(groups))) || env.joined))
      ensures r.Err? ==>
                && Refusal(old(Flat(groups)), identity, env) == Some(r.error)
                && groups == old(groups) && joined == old(joined) && local == old(local)
      ensures r.Ok? ==>
                && r.entry == InterfaceSocket(old(next), identity, generation, []) && next == old(next) + 1
                && Flat(groups) == old(Flat(groups)) + {r.entry}
                && local == old(local)[r.entry.id := host]
                && joined == old(joined) + {identity.index}
    {
      hide GroupsOk, Unique, Alive, Flat;
      if !env.bound {
        return Err(BindFailed);
      }
      var entry := InterfaceSocket(next, identity, generation, []);
      AliveGrows(Flat(groups), next, cancelled);
      next := next + 1;
      if identity in Identities(Flat(groups)) {
        return Err(AlreadyExists);
      }
      match env.topology {
        case CheckFailed => return Err(TopologyFailed);
        case Changed => return Err(NotConnected);
        case Current =>
      }
      UniqueAdded(Flat(groups), entry, cancelled);
      IndicesAdded(Flat(groups), entry);
      if identity.index !in Indices(Flat(groups)) {
        if !env.joined {
          return Err(JoinFailed);
        }
        joined := joined + {identity.index};
      }
      Attach(entry);
      local := local[entry.id := host];
      return Ok(entry);
    }

    /** The first adapter at an address becomes the root, the others its siblings. */
    method Attach(entry: InterfaceSocket)
      requires GroupsOk(groups) && entry.siblings == [] && entry.identity !in Identities(Flat(groups))
      modifies this`groups
      ensures GroupsOk(groups) && Flat(groups) == old(Flat(groups)) + {entry}
    {
      var a := entry.identity.addr;
      AddedToFlat(groups, entry);
      if a in groups {
        var group := groups[a];
        groups := groups[a := group.(siblings := group.siblings + [entry])];
      } else {
        groups := groups[a := entry];
      }
    }

    method Remove(identity: Identity, left: bool) returns (removed: Option<InterfaceSocket>)
      requires Valid()
      modifies this`groups, this`joined, this`cancelled
      ensures Valid()
      ensures removed.Some? <==> identity in Identities(old(Flat(groups)))
      ensures removed.None? ==> groups == old(groups) && joined == old(joined) && cancelled == old(cancelled)
      ensures removed.Some? ==>
                && removed.value in old(Flat(groups)) && removed.value.identity == identity
                && Flat(groups) == old(Flat(groups)) - {removed.value}
                && cancelled == old(cancelled) + {removed.value.id}
                && (forall x :: x in joined <==>
                      x in old(joined) && !(x == identity.index && left && x !in Indices(Flat(groups))))
    {
      hide GroupsOk, Unique, Alive, Flat;
      ghost var before := Flat(groups);
      removed := Detach(identity);
      if removed.Some? {
        UniqueRemoved(before, removed.value, next, cancelled);
        IndicesRemoved(before, removed.value);
        cancelled := cancelled + {removed.value.id};
        if identity.index !in Indices(Flat(groups)) && left {
          joined := joined - {identity.index};
        }
      }
    }

    /** Take a registration out of its group; the last sibling replaces a root. */
    method Detach(identity: Identity) returns (removed: Option<InterfaceSocket>)
      requires Valid()
      modifies this`groups
      ensures GroupsOk(groups)
      ensures removed.Some? <==> identity in Identities(old(Flat(groups)))
      ensures removed.None? ==> groups == old(groups)
      ensures removed.Some? ==>
                && removed.value in old(Flat(groups)) && removed.value.identity == identity
                && Flat(groups) == old(Flat(groups)) - {removed.value}
    {
      var a := identity.addr;
      if identity in Identities(Flat(groups)) {
        FoundInGroup(groups, identity);
      }
      if a !in groups {
        return None;
      }
      var group := groups[a];
      if group.identity == identity {
        RootDetached(groups, a);
        groups := if group.siblings == [] then groups - {a} else groups[a := Promoted(group)];
        return Some(Leased(group));
      }
      var k := 0;
      while k < |group.siblings| && group.siblings[k].identity != identity
        invariant k <= |group.siblings|
        invariant forall j :: 0 <= j < k ==> group.siblings[j].identity != identity
      {
        k := k + 1;
      }
      if k == |group.siblings| {
        return None;
      }
      SiblingDetached(groups, a, k);
      groups := groups[a := WithoutSibling(group, k)];
      return Some(group.siblings[k]);
    }

    /** Every registration, in no particular order. */
    method Entries() returns (entries: seq<InterfaceSocket>)
      ensures forall r :: r in entries <==> r in Flat(groups)
    {
      entries := [];
      var rest := groups.Keys;
      while rest != {}
        invariant rest <= groups.Keys
        invariant forall r :: r in entries <==> exists a :: a in groups && a !in rest && r in Members(groups[a])
        decreases |rest|
      {
        var a :| a in rest;
        entries := entries + Registrations(groups[a]);
        rest := rest - {a};
      }
    }

    method RemoveAll(stale: seq<Identity>, left: nat -> bool)
      requires Valid()
      modifies this`groups, this`joined, this`cancelled
      ensures Valid()
      ensures Flat(groups) == Except(old(Flat(groups)), stale) && joined <= old(joined)
      ensures cancelled == old(cancelled) + Ids(old(Flat(groups)) - Flat(groups))
      ensures (forall k :: left(k)) && old(joined) == Indices(old(Flat(groups))) ==> joined == Indices(Flat(groups))
    {
      hide GroupsOk, Unique, Alive, Flat;
      for i := 0 to |stale|
        invariant Valid()
        invariant Flat(groups) == Except(old(Flat(groups)), stale[..i]) && joined <= old(joined)
        invariant cancelled == old(cancelled) + Ids(old(Flat(groups)) - Flat(groups))
        invariant (forall k :: left(k)) && old(joined) == Indices(old(Flat(groups))) ==> joined == Indices(Flat(groups))
      {
        ghost var before := Flat(groups);
        var removed := Remove(stale[i], left(i));
        assert stale[..i + 1] == stale[..i] + [stale[i]];
        ExceptOne(old(Flat(groups)), before, stale[..i], stale[i]);
        if removed.Some? {
          OnlyOne(before, removed.value);
          IdsRemoved(old(Flat(groups)), before, removed.value);
          IndicesRemoved(before, removed.value);
        }
      }
      assert stale[..|stale|] == stale;
    }

    /** Give every registration the host's present identity. */
    method Refresh(entries: seq<InterfaceSocket>, host: LocalIdentity)
      modifies this`local
      ensures forall r :: r in entries ==> r.id in local && local[r.id] == host
    {
      for i := 0 to |entries|
        invariant forall j :: 0 <= j < i ==> entries[j].id in local && local[entries[j].id] == host
      {
        local := local[entries[i].id := host];
      }
    }

    /** One attempt: a new registration gets a receive loop and clears its failure, a refused one records it. */
    method Attempt(identity: Identity, generation: nat, host: LocalIdentity, env: Environment) returns (added: bool)
      requires Valid()
      modifies this`groups, this`joined, this`next, this`local, this`failures, this`receivers
      ensures Valid() && (added <==> Refusal(old(Snapshot()).rs, identity, env).None?)
      ensures Attempted(old(Snapshot()), Snapshot(), identity, generation, host, env)
    {
      hide GroupsOk, Unique, Flat;
      var r := Add(identity, generation, host, env);
      match r {
        case Ok(entry) =>
          failures := failures - {identity};
          receivers := receivers + {entry.id};
        case Err(error) =>
          failures := failures[identity := error];
      }
      return r.Ok?;
    }

    /** The attempt at the next of these scan positions, added to what the earlier ones made of the start. */
    method AttemptNext(ghost start: Registry, current: seq<Identity>, ghost missing: seq<nat>, ghost i: nat, j: nat,
                       generation: nat, host: LocalIdentity, ghost env: nat -> Environment, answer: Environment)
        returns (added: bool)
      requires Valid() && i < |missing| && missing[i] == j < |current| && answer == env(j)
      requires Extends(start, Snapshot(), current, missing[..i], generation, host, env)
      requires LogFollows(start, Snapshot(), current, missing, missing[..i])
      requires Answered(start, Snapshot(), current, missing[..i], env)
      modifies this`groups, this`joined, this`next, this`local, this`failures, this`receivers
      ensures Valid()
      ensures Snapshot().rs != start.rs <==> old(Snapshot()).rs != start.rs || added
      ensures Extends(start, Snapshot(), current, missing[..i + 1], generation, host, env)
      ensures LogFollows(start, Snapshot(), current, missing, missing[..i + 1])
      ensures Answered(start, Snapshot(), current, missing[..i + 1], env)
    {
      hide Valid, Snapshot, Extends, LogFollows, Answered, Attempted, Refusal;
      ghost var before := Snapshot();
      added := Attempt(current[j], generation, host, answer);
      AttemptExtends(start, before, Snapshot(), current, missing[..i], j, generation, host, env);
      AttemptLogs(start, before, Snapshot(), current, missing, i, generation, host, answer);
      AttemptAnswered(start, before, Snapshot(), current, missing[..i], j, generation, host, env);
      assert missing[..i + 1] == missing[..i] + [j];
    }

    /** Add the scanned interfaces at these positions; the system answers per position. */
    method AddAll(current: seq<Identity>, missing: seq<nat>, generation: nat, host: LocalIdentity,
                  env: nat -> Environment)
        returns (added: bool)
      requires Valid() && forall k :: 0 <= k < |missing| ==> missing[k] < |current|
      modifies this`groups, this`joined, this`next, this`local, this`failures, this`receivers
      ensures Valid() && (added <==> Snapshot().rs != old(Snapshot()).rs)
      ensures Extends(old(Snapshot()), Snapshot(), current, missing, generation, host, env)
      ensures LogFollows(old(Snapshot()), Snapshot(), current, missing, missing)
      ensures Answered(old(Snapshot()), Snapshot(), current, missing, env)
    {
      ghost var start := Snapshot();
      NothingAttempted(start, current, missing, generation, host, env);
      hide Valid, Snapshot, Extends, LogFollows, Answered;
      added := false;
      for i := 0 to |missing|
        invariant Valid() && (added <==> Snapshot().rs != start.rs)
        invariant Extends(start, Snapshot(), current, missing[..i], generation, host, env)
        invariant LogFollows(start, Snapshot(), current, missing, missing[..i])
        invariant Answered(start, Snapshot(), current, missing[..i], env)
      {
        var j := missing[i];
        var one := AttemptNext(start, current, missing, i, j, generation, host, env, env(j));
        added := added || one;
      }
      assert missing[..|missing|] == missing;
    }

    /** Make the registrations match a scan: drop what is gone or of another generation, add what is missing. */
    method Reconcile(current: seq<Identity>, generation: nat, host: LocalIdentity, env: nat -> Environment,
                     left: nat -> bool)
        returns (changed: bool)
      requires Valid()
      modifies this
      ensures Valid() && (changed <==> Flat(groups) != old(Flat(groups)))
      ensures MatchesScan(old(Snapshot()), Snapshot(), current, generation, env)
      ensures forall id :: id in cancelled <==>
                || id in old(cancelled)
                || exists r :: r in old(Flat(groups)) && r.id == id
                               && !(r.identity in current && r.generation == generation)
      ensures (forall k :: left(k)) && old(joined) == Indices(old(Flat(groups))) ==> joined == Indices(Flat(groups))
      ensures Consult(Flat(groups), local, host)
      ensures receivers == old(receivers) + Ids(Flat(groups) - old(Flat(groups)))
      ensures LogsFailures(old(Snapshot()), Snapshot(), current)
    {
      ghost var before := Snapshot();
      hide GroupsOk, Unique, Alive, Flat, Separate, LogFollows, Extends;
      hide MatchesScan, LogsFailures, Covered, Consult, Kept, Answered;
      var stale, missing := Plan(current, generation, host);
      ghost var alive := cancelled;
      RemoveAll(stale, left);
      ghost var kept := Snapshot();
      var added := AddAll(current, missing, generation, host, env);
      changed := stale != [] || added;
      ConsultFewer(before.rs, kept.rs, kept.local, host);
      StaleIds(before.rs, current, generation);
      ExtendsToScan(before, kept, Snapshot(), current, missing, generation, host, env, alive);
      LogMatchesScan(before, kept, Snapshot(), current, missing, generation, host, env);
    }

    /** Forget the failures of interfaces no longer scanned, refresh the rest and decide what goes and what comes. */
    method Plan(current: seq<Identity>, generation: nat, host: LocalIdentity)
        returns (stale: seq<Identity>, missing: seq<nat>)
      requires Valid()
      modifies this`local, this`failures
      ensures Valid() && Consult(Flat(groups), local, host)
      ensures failures.Keys <= old(failures.Keys) && forall c :: c in failures ==> c in current
      ensures Except(Flat(groups), stale) == Kept(Flat(groups), current, generation) <= Flat(groups)
      ensures stale == [] <==> Kept(Flat(groups), current, generation) == Flat(groups)
      ensures forall k :: 0 <= k < |missing| ==> missing[k] < |current|
      ensures Covered(Kept(Flat(groups), current, generation), current, missing)
      ensures Distinct(current) ==> Separate(Kept(Flat(groups), current, generation), current, missing)
    {
      hide GroupsOk, Alive, Flat, Separate, StaleAt;
      failures := map c | c in failures && c in current :: failures[c];
      var entries := Entries();
      Refresh(entries, host);
      var known;
      known, stale := Compare(entries, current, generation);
      missing := Missing(known, stale, current);
      StaleAreExcepted(Flat(groups), entries, stale, current, generation);
      KeptOrMissing(Flat(groups), entries, known, stale, current, generation, missing);
      if Distinct(current) {
        MissingSeparate(Flat(groups), entries, known, stale, current, missing);
      }
    }
  }

  /** The part of the map that additions change, with the registrations flattened. */
  datatype Registry = Registry(
    rs: set<InterfaceSocket>,
    joined: set<AdapterIndex>,
    next: SocketId,
    local: map<SocketId, LocalIdentity>,
    failures: map<Identity, AddError>,
    receivers: set<SocketId>)

  /** The registrations a reconciliation leaves untouched. */
  function Kept(rs: set<InterfaceSocket>, current: seq<Identity>, generation: nat): set<InterfaceSocket> {
    set r | r in rs && !IsStale(r, current, generation)
  }

  predicate IsStale(r: InterfaceSocket, current: seq<Identity>, generation: nat) {
    r.identity !in current || r.generation != generation
  }

  function Except(rs: set<InterfaceSocket>, gone: seq<Identity>): set<InterfaceSocket> {
    set r | r in rs && r.identity !in gone
  }

  function Ids(rs: set<InterfaceSocket>): set<SocketId> { set r | r in rs :: r.id }

  /** An adapter index no registration uses. */
  function NewIndex(rs: set<InterfaceSocket>, identity: Identity): set<AdapterIndex> {
    if identity.index in Indices(rs) then {} else {identity.index}
  }

  ghost predicate Consult(rs: set<InterfaceSocket>, local: map<SocketId, LocalIdentity>, host: LocalIdentity) {
    forall r :: r in rs ==> r.id in local && local[r.id] == host
  }

  predicate Distinct(current: seq<Identity>) {
    forall i, j :: 0 <= i < j < |current| ==> current[i] != current[j]
  }

  function Named(current: seq<Identity>, positions: seq<nat>): set<Identity> {
    set j | j in positions && j < |current| :: current[j]
  }


  lemma ExceptOne(all: set<InterfaceSocket>, before: set<InterfaceSocket>, gone: seq<Identity>, one: Identity)
    requires before == Except(all, gone)
    ensures Except(all, gone + [one]) == Except(before, [one])
  {}

  lemma OnlyOne(rs: set<InterfaceSocket>, r: InterfaceSocket)
    requires Unique(rs) && r in rs
    ensures Except(rs, [r.identity]) == rs - {r}
  {}

  lemma IdsRemoved(all: set<InterfaceSocket>, before: set<InterfaceSocket>, r: InterfaceSocket)
    requires before <= all && r in before
    ensures Ids(all - (before - {r})) == Ids(all - before) + {r.id}
  {
    assert all - (before - {r}) == (all - before) + {r};
  }

  lemma IndicesRemoved(before: set<InterfaceSocket>, r: InterfaceSocket)
    requires r in before
    ensures Indices(before) == Indices(before - {r}) + {r.identity.index}
  {
    assert before == (before - {r}) + {r};
    IndicesAdded(before - {r}, r);
  }

  /** Removing the stale identities removes exactly the stale registrations. */
  lemma StaleAreExcepted(rs: set<InterfaceSocket>, entries: seq<InterfaceSocket>, stale: seq<Identity>,
                         current: seq<Identity>, generation: nat)
    requires Unique(rs) && forall r :: r in entries <==> r in rs
    requires forall c :: c in stale <==> StaleAt(entries, current, generation, |entries|, c)
    ensures Except(rs, stale) == Kept(rs, current, generation)
    ensures stale == [] <==> Kept(rs, current, generation) == rs
  {
    hide IsStale;
    forall r | r in rs ensures r.identity in stale <==> IsStale(r, current, generation) {
      var i :| 0 <= i < |entries| && entries[i] == r;
      if r.identity in stale {
        var j :| 0 <= j < |entries| && entries[j].identity == r.identity && IsStale(entries[j], current, generation);
        assert entries[j] in rs;
      }
    }
    if stale != [] {
      assert stale[0] in stale;
      var j :| 0 <= j < |entries| && entries[j].identity == stale[0] && IsStale(entries[j], current, generation);
      assert entries[j] in rs && entries[j] !in Kept(rs, current, generation);
    }
  }

  lemma KeptCurrent(rs: set<InterfaceSocket>, entries: seq<InterfaceSocket>, stale: seq<Identity>,
                    current: seq<Identity>, generation: nat, c: Identity)
    requires forall r :: r in entries <==> r in rs
    requires forall c :: c in stale <==> StaleAt(entries, current, generation, |entries|, c)
    requires c !in stale && exists j :: 0 <= j < |entries| && entries[j].identity == c
    ensures c in Identities(Kept(rs, current, generation))
  {
    hide IsStale;
    var j :| 0 <= j < |entries| && entries[j].identity == c;
    assert entries[j] in rs && !IsStale(entries[j], current, generation);
  }

  // ----- the parts of a reconciliation -----

  /** The identities registered, and those among them that are gone or of another generation. */
  method Compare(entries: seq<InterfaceSocket>, current: seq<Identity>, generation: nat)
      returns (known: seq<Identity>, stale: seq<Identity>)
    ensures forall c :: c in known <==> exists j :: 0 <= j < |entries| && entries[j].identity == c
    ensures forall c :: c in stale <==> StaleAt(entries, current, generation, |entries|, c)
  {
    known, stale := [], [];
    for i := 0 to |entries|
      invariant forall c :: c in known <==> exists j :: 0 <= j < i && entries[j].identity == c
      invariant forall c :: c in stale <==> StaleAt(entries, current, generation, i, c)
    {
      known := known + [entries[i].identity];
      if entries[i].identity !in current || entries[i].generation != generation {
        stale := stale + [entries[i].identity];
      }
    }
  }

  predicate StaleAt(entries: seq<InterfaceSocket>, current: seq<Identity>, generation: nat, n: nat, c: Identity) {
    exists j :: 0 <= j < n && j < |entries| && entries[j].identity == c && IsStale(entries[j], current, generation)
  }

  /** The scan positions to be added, in order. */
  method Missing(known: seq<Identity>, stale: seq<Identity>, current: seq<Identity>) returns (missing: seq<nat>)
    ensures forall j :: j in missing <==> 0 <= j < |current| && (current[j] !in known || current[j] in stale)
    ensures forall k :: 0 <= k < |missing| ==> missing[k] < |current|
    ensures forall k, l :: 0 <= k < l < |missing| ==> missing[k] < missing[l]
  {
    missing := [];
    for i := 0 to |current|
      invariant forall j :: j in missing <==> 0 <= j < i && (current[j] !in known || current[j] in stale)
      invariant forall k :: 0 <= k < |missing| ==> missing[k] < i
      invariant forall k, l :: 0 <= k < l < |missing| ==> missing[k] < missing[l]
    {
      if current[i] !in known || current[i] in stale {
        missing := missing + [i];
      }
    }
  }

  /** The identities to add are new to the registrations and to one another. */
  ghost predicate Separate(rs: set<InterfaceSocket>, current: seq<Identity>, missing: seq<nat>) {
    && (forall k :: 0 <= k < |missing| ==> missing[k] < |current| && current[missing[k]] !in Identities(rs))
    && (forall k, l :: 0 <= k < l < |missing| && missing[k] < |current| && missing[l] < |current| ==>
          current[missing[k]] != current[missing[l]])
  }

  /** An attempted identity is a logged failure exactly when it is not registered; the others are as before. */
  ghost predicate Logged(before: map<Identity, AddError>, after: map<Identity, AddError>, current: seq<Identity>,
                         attempted: seq<nat>, rs: set<InterfaceSocket>)
  {
    forall c :: c in after <==> if c in Named(current, attempted) then c !in Identities(rs) else c in before
  }

  lemma NothingLogged(failures: map<Identity, AddError>, current: seq<Identity>, rs: set<InterfaceSocket>)
    ensures Logged(failures, failures, current, [], rs) && Named(current, []) == {}
  {}

  lemma OneLogged(start: set<InterfaceSocket>, log0: map<Identity, AddError>, log: map<Identity, AddError>,
                  log': map<Identity, AddError>, current: seq<Identity>, missing: seq<nat>, i: nat,
                  before: set<InterfaceSocket>, after: set<InterfaceSocket>)
    requires i < |missing| && missing[i] < |current| && Separate(start, current, missing)
    requires Logged(log0, log, current, missing[..i], before)
    requires Identities(before) <= Identities(start) + Named(current, missing[..i])
    requires var c := current[missing[i]];
             || (Identities(after) == Identities(before) + {c} && log'.Keys == log.Keys - {c})
             || (after == before && log'.Keys == log.Keys + {c})
    ensures Logged(log0, log', current, missing[..i] + [missing[i]], after)
    ensures Identities(after) <= Identities(start) + Named(current, missing[..i] + [missing[i]])
  {
    var c := current[missing[i]];
    NamedPush(current, missing[..i], missing[i]);
    NotYetNamed(start, current, missing, i);
  }

  lemma NamedPush(current: seq<Identity>, positions: seq<nat>, j: nat)
    requires j < |current|
    ensures Named(current, positions + [j]) == Named(current, positions) + {current[j]}
  {
    var all := positions + [j];
    assert forall k :: k in all <==> k in positions || k == j;
    assert current[j] in Named(current, all);
  }

  lemma NotYetNamed(start: set<InterfaceSocket>, current: seq<Identity>, missing: seq<nat>, i: nat)
    requires i < |missing| && missing[i] < |current| && Separate(start, current, missing)
    ensures current[missing[i]] !in Named(current, missing[..i]) && current[missing[i]] !in Identities(start)
  {
    var c := current[missing[i]];
    forall j | j in missing[..i] && j < |current| ensures current[j] != c {
      var k :| 0 <= k < i && missing[k] == j;
    }
  }

  lemma IdsAdded(start: set<InterfaceSocket>, before: set<InterfaceSocket>, entry: InterfaceSocket)
    requires start <= before && entry !in before
    ensures Ids((before + {entry}) - start) == Ids(before - start) + {entry.id}
  {
    assert (before + {entry}) - start == (before - start) + {entry};
  }

  lemma IdentitiesAdded(before: set<InterfaceSocket>, entry: InterfaceSocket)
    ensures Identities(before + {entry}) == Identities(before) + {entry.identity}
  {
    forall r | r in before ensures r.identity in Identities(before + {entry}) {
      assert r in before + {entry};
    }
    assert entry in before + {entry};
  }

  /** The effect of one attempt on the flat registry. */
  ghost predicate Attempted(before: Registry, after: Registry, identity: Identity, generation: nat, host: LocalIdentity,
                            env: Environment)
  {
    match Refusal(before.rs, identity, env)
    case None =>
      var entry := InterfaceSocket(before.next, identity, generation, []);
      && entry !in before.rs
      && after == Registry(before.rs + {entry}, before.joined + NewIndex(before.rs, identity), before.next + 1,
                           before.local[entry.id := host], before.failures - {identity}, before.receivers + {entry.id})
    case Some(error) =>
      && before.next <= after.next
      && after == before.(next := after.next, failures := before.failures[identity := error])
  }

  /** What attempts at scan positions add up to. */
  ghost predicate Extends(a: Registry, b: Registry, current: seq<Identity>, attempted: seq<nat>, generation: nat,
                          host: LocalIdentity, env: nat -> Environment)
  {
    && a.rs <= b.rs && a.next <= b.next
    && (forall r :: r in b.rs && r !in a.rs ==> a.next <= r.id && r.generation == generation && r.identity in current)
    && (forall j :: j in attempted && j < |current| && current[j] !in Identities(b.rs) ==>
          env(j) != Environment(true, Current, true))
    && (a.joined == Indices(a.rs) ==> b.joined == Indices(b.rs))
    && (Consult(a.rs, a.local, host) ==> Consult(b.rs, b.local, host))
    && b.receivers == a.receivers + Ids(b.rs - a.rs)
  }

  /** Registrations and memberships appear only through positions the system answered favourably. */
  ghost predicate Answered(a: Registry, b: Registry, current: seq<Identity>, attempted: seq<nat>,
                           env: nat -> Environment)
  {
    && (forall r :: r in b.rs && r !in a.rs ==>
          exists j :: j in attempted && j < |current| && current[j] == r.identity
                      && env(j).bound && env(j).topology == Current)
    && (forall x :: x in b.joined && x !in a.joined ==>
          exists j :: j in attempted && j < |current| && current[j].index == x && env(j).joined)
  }

  lemma AttemptAnswered(a: Registry, b: Registry, c: Registry, current: seq<Identity>, attempted: seq<nat>, j: nat,
                        generation: nat, host: LocalIdentity, env: nat -> Environment)
    requires j < |current| && Answered(a, b, current, attempted, env)
    requires Attempted(b, c, current[j], generation, host, env(j))
    ensures Answered(a, c, current, attempted + [j], env)
  {
    var all := attempted + [j];
    assert j in all && forall k :: k in attempted ==> k in all;
  }

  /** What they do to the failure log when no identity repeats. */
  ghost predicate LogFollows(a: Registry, b: Registry, current: seq<Identity>, missing: seq<nat>, attempted: seq<nat>) {
    Separate(a.rs, current, missing) ==>
      && Logged(a.failures, b.failures, current, attempted, b.rs)
      && Identities(b.rs) <= Identities(a.rs) + Named(current, attempted)
  }

  lemma NothingAttempted(a: Registry, current: seq<Identity>, missing: seq<nat>, generation: nat, host: LocalIdentity,
                         env: nat -> Environment)
    ensures Extends(a, a, current, missing[..0], generation, host, env)
    ensures LogFollows(a, a, current, missing, missing[..0])
    ensures Answered(a, a, current, missing[..0], env)
  {
    assert missing[..0] == [];
    NothingLogged(a.failures, current, a.rs);
  }

  lemma AttemptExtends(a: Registry, b: Registry, c: Registry, current: seq<Identity>, attempted: seq<nat>, j: nat,
                       generation: nat, host: LocalIdentity, env: nat -> Environment)
    requires j < |current| && Extends(a, b, current, attempted, generation, host, env)
    requires Attempted(b, c, current[j], generation, host, env(j))
    ensures Extends(a, c, current, attempted + [j], generation, host, env)
    ensures c.rs != a.rs <==> b.rs != a.rs || Refusal(b.rs, current[j], env(j)).None?
  {
    if Refusal(b.rs, current[j], env(j)).None? {
      var entry := InterfaceSocket(b.next, current[j], generation, []);
      IndicesAdded(b.rs, entry);
      IdsAdded(a.rs, b.rs, entry);
      IdentitiesAdded(b.rs, entry);
    }
  }

  lemma AttemptLogs(a: Registry, b: Registry, c: Registry, current: seq<Identity>, missing: seq<nat>, i: nat,
                    generation: nat, host: LocalIdentity, env: Environment)
    requires i < |missing| && missing[i] < |current| && LogFollows(a, b, current, missing, missing[..i])
    requires Attempted(b, c, current[missing[i]], generation, host, env)
    ensures LogFollows(a, c, current, missing, missing[..i] + [missing[i]])
  {
    hide Separate, Logged;
    if Refusal(b.rs, current[missing[i]], env).None? {
      IdentitiesAdded(b.rs, InterfaceSocket(b.next, current[missing[i]], generation, []));
    }
    if Separate(a.rs, current, missing) {
      OneLogged(a.rs, a.failures, b.failures, c.failures, current, missing, i, b.rs, c.rs);
    }
  }

  /**
   * Untouched registrations keep their socket, all others are fresh; everything lies within the scan at its
   * generation, and the scan is covered but for interfaces whose own attempt failed. A registration appears only
   * where binding and topology check passed, a membership only where the system joined it.
   */
  ghost predicate MatchesScan(before: Registry, after: Registry, current: seq<Identity>, generation: nat,
                              env: nat -> Environment)
  {
    && (forall r :: r in before.rs && r.identity in current && r.generation == generation ==> r in after.rs)
    && (forall r :: r in after.rs ==> r.identity in current && r.generation == generation)
    && (forall r :: r in after.rs && r !in before.rs ==>
          && before.next <= r.id
          && exists j :: 0 <= j < |current| && current[j] == r.identity && env(j).bound && env(j).topology == Current)
    && (forall x :: x in after.joined && x !in before.joined ==>
          exists j :: 0 <= j < |current| && current[j].index == x && env(j).joined)
    && (forall j :: 0 <= j < |current| && current[j] !in Identities(after.rs) ==>
          env(j) != Environment(true, Current, true))
  }

  /** With a scan that names no interface twice, the log holds exactly the scanned interfaces left unregistered. */
  ghost predicate LogsFailures(before: Registry, after: Registry, current: seq<Identity>) {
    Distinct(current) && before.failures.Keys !! Identities(before.rs) ==>
      after.failures.Keys == (set c | c in current && c !in Identities(after.rs))
  }

  /** A scanned identity is still registered or to be added. */
  ghost predicate Covered(kept: set<InterfaceSocket>, current: seq<Identity>, missing: seq<nat>) {
    forall j :: 0 <= j < |current| && j !in missing ==> current[j] in Identities(kept)
  }

  lemma StaleIds(rs: set<InterfaceSocket>, current: seq<Identity>, generation: nat)
    ensures forall id :: id in Ids(rs - Kept(rs, current, generation)) <==>
              exists r :: r in rs && r.id == id && !(r.identity in current && r.generation == generation)
  {
    forall r | r in rs && !(r.identity in current && r.generation == generation)
      ensures r.id in Ids(rs - Kept(rs, current, generation))
    {
      assert r in rs - Kept(rs, current, generation);
    }
  }

  lemma ConsultFewer(rs: set<InterfaceSocket>, kept: set<InterfaceSocket>, local: map<SocketId, LocalIdentity>,
                     host: LocalIdentity)
    requires kept <= rs && Consult(rs, local, host)
    ensures Consult(kept, local, host)
  {}

  lemma KeptOrMissing(rs: set<InterfaceSocket>, entries: seq<InterfaceSocket>, known: seq<Identity>,
                      stale: seq<Identity>, current: seq<Identity>, generation: nat, missing: seq<nat>)
    requires forall r :: r in entries <==> r in rs
    requires forall c :: c in known <==> exists j :: 0 <= j < |entries| && entries[j].identity == c
    requires forall c :: c in stale <==> StaleAt(entries, current, generation, |entries|, c)
    requires forall j :: j in missing <==> 0 <= j < |current| && (current[j] !in known || current[j] in stale)
    ensures Covered(Kept(rs, current, generation), current, missing)
  {
    hide IsStale, StaleAt;
    forall j | 0 <= j < |current| && j !in missing ensures current[j] in Identities(Kept(rs, current, generation)) {
      KeptCurrent(rs, entries, stale, current, generation, current[j]);
    }
  }

  /** Fresh sockets tell new registrations from those there at the start. */
  lemma ExtendsToScan(before: Registry, kept: Registry, after: Registry, current: seq<Identity>, missing: seq<nat>,
                      generation: nat, host: LocalIdentity, env: nat -> Environment, cancelled: set<SocketId>)
    requires Alive(before.rs, before.next, cancelled) && kept.next == before.next
    requires kept.rs == Kept(before.rs, current, generation) && Covered(kept.rs, current, missing)
    requires Extends(kept, after, current, missing, generation, host, env)
    requires Answered(kept, after, current, missing, env) && kept.joined <= before.joined
    ensures MatchesScan(before, after, current, generation, env)
    ensures after.rs - kept.rs == after.rs - before.rs
    ensures after.rs == before.rs <==> kept.rs == before.rs && after.rs == kept.rs
    ensures kept.joined == Indices(kept.rs) ==> after.joined == Indices(after.rs)
    ensures Consult(kept.rs, kept.local, host) ==> Consult(after.rs, after.local, host)
    ensures after.receivers == kept.receivers + Ids(after.rs - before.rs)
  {
    assert Identities(kept.rs) <= Identities(after.rs);
    assert after.rs - kept.rs == after.rs - before.rs;
  }

  lemma MissingSeparate(start: set<InterfaceSocket>, entries: seq<InterfaceSocket>, known: seq<Identity>,
                        stale: seq<Identity>, current: seq<Identity>, missing: seq<nat>)
    requires forall r :: r in entries <==> r in start
    requires forall c :: c in known <==> exists j :: 0 <= j < |entries| && entries[j].identity == c
    requires forall j :: j in missing <==> 0 <= j < |current| && (current[j] !in known || current[j] in stale)
    requires forall k, l :: 0 <= k < l < |missing| ==> missing[k] < missing[l]
    requires Distinct(current)
    ensures Separate(Except(start, stale), current, missing)
  {
    forall k | 0 <= k < |missing|
      ensures missing[k] < |current| && current[missing[k]] !in Identities(Except(start, stale))
    {
      assert missing[k] in missing;
      var c := current[missing[k]];
      forall r | r in Except(start, stale) ensures r.identity != c {
        assert r in entries;
      }
    }
  }

  lemma LogMatchesScan(before: Registry, kept: Registry, after: Registry, current: seq<Identity>, missing: seq<nat>,
                       generation: nat, host: LocalIdentity, env: nat -> Environment)
    requires LogFollows(kept, after, current, missing, missing)
    requires Distinct(current) ==> Separate(kept.rs, current, missing)
    requires kept.failures.Keys <= before.failures.Keys && (forall c :: c in kept.failures ==> c in current)
    requires kept.rs <= before.rs && Extends(kept, after, current, missing, generation, host, env)
    requires Covered(kept.rs, current, missing)
    ensures LogsFailures(before, after, current)
  {
    hide Separate;
    assert Identities(kept.rs) <= Identities(before.rs) && Identities(kept.rs) <= Identities(after.rs);
    if Distinct(current) && before.failures.Keys !! Identities(before.rs) {
      forall c ensures c in after.failures <==> c in current && c !in Identities(after.rs) {
        ScannedOrNot(current, missing, kept.rs, c);
      }
    }
  }

  lemma ScannedOrNot(current: seq<Identity>, missing: seq<nat>, kept: set<InterfaceSocket>, c: Identity)
    requires Covered(kept, current, missing)
    ensures c in Named(current, missing) ==> c in current
    ensures c in current ==> c in Named(current, missing) || c in Identities(kept)
  {
    if c in current {
      var j :| 0 <= j < |current| && current[j] == c;
    }
  }

  /** Why an interface cannot be added, in the order the checks are made. */
  function Refusal(registered: set<InterfaceSocket>, identity: Identity, env: Environment): Option<AddError> {
    if !env.bound then Some(BindFailed)
    else if identity in Identities(registered) then Some(AlreadyExists)
    else if env.topology.CheckFailed? then Some(TopologyFailed)
    else if env.topology.Changed? then Some(NotConnected)
    else if identity.index !in Indices(registered) && !env.joined then Some(JoinFailed)
    else None
  }

  lemma AliveGrows(rs: set<InterfaceSocket>, next: SocketId, cancelled: set<SocketId>)
    requires Alive(rs, next, cancelled)
    ensures Alive(rs, next + 1, cancelled)
  {}

  lemma UniqueAdded(rs: set<InterfaceSocket>, entry: InterfaceSocket, cancelled: set<SocketId>)
    requires Unique(rs) && Alive(rs, entry.id, cancelled) && entry.identity !in Identities(rs)
    requires forall id :: id in cancelled ==> id < entry.id
    ensures Unique(rs + {entry}) && Alive(rs + {entry}, entry.id + 1, cancelled)
  {}

  lemma UniqueRemoved(rs: set<InterfaceSocket>, r: InterfaceSocket, next: SocketId, cancelled: set<SocketId>)
    requires Unique(rs) && Alive(rs, next, cancelled) && r in rs
    ensures Unique(rs - {r}) && Alive(rs - {r}, next, cancelled + {r.id}) && r.id < next
  {}

  lemma AddedToFlat(groups: Groups, entry: InterfaceSocket)
    requires GroupsOk(groups) && entry.siblings == [] && entry.identity !in Identities(Flat(groups))
    ensures var a := entry.identity.addr;
            var g := if a in groups then groups[a].(siblings := groups[a].siblings + [entry]) else entry;
            GroupsOk(groups[a := g]) && Flat(groups[a := g]) == Flat(groups) + {entry}
  {
    var a := entry.identity.addr;
    if a in groups {
      forall r | r in Members(groups[a]) ensures r.identity != entry.identity {
        MemberAddress(groups, a, r);
      }
      SiblingAdded(a, groups[a], entry);
      var g := groups[a].(siblings := groups[a].siblings + [entry]);
      FlatPut(groups, a, g);
      assert Members(groups[a]) <= Flat(groups);
    } else {
      FlatPut(groups, a, entry);
      assert Leased(entry) == entry;
      assert Registrations(entry) == [entry];
    }
  }

  lemma IndicesAdded(rs: set<InterfaceSocket>, entry: InterfaceSocket)
    ensures Indices(rs + {entry}) == Indices(rs) + {entry.identity.index}
  {
    forall r | r in rs ensures r.identity.index in Indices(rs + {entry}) {
      assert r in rs + {entry};
    }
    assert entry in rs + {entry};
  }

  lemma RootDetached(groups: Groups, a: Address)
    requires GroupsOk(groups) && a in groups
    ensures Leased(groups[a]) in Flat(groups)
    ensures groups[a].siblings == [] ==>
              GroupsOk(groups - {a}) && Flat(groups - {a}) == Flat(groups) - {Leased(groups[a])}
    ensures groups[a].siblings != [] ==>
              && GroupsOk(groups[a := Promoted(groups[a])])
              && Flat(groups[a := Promoted(groups[a])]) == Flat(groups) - {Leased(groups[a])}
  {
    var g := groups[a];
    assert Registrations(g)[0] == Leased(g);
    assert Leased(g) in Members(g);
    assert Members(g) <= Flat(groups);
    if g.siblings == [] {
      FlatDrop(groups, a);
      assert Members(g) == {Leased(g)};
    } else {
      PromotedKeeps(a, g);
      FlatPut(groups, a, Promoted(g));
    }
  }

  lemma SiblingDetached(groups: Groups, a: Address, k: nat)
    requires GroupsOk(groups) && a in groups && k < |groups[a].siblings|
    ensures var g := WithoutSibling(groups[a], k);
            && groups[a].siblings[k] in Flat(groups)
            && GroupsOk(groups[a := g])
            && Flat(groups[a := g]) == Flat(groups) - {groups[a].siblings[k]}
  {
    var g := groups[a];
    assert Registrations(g)[k + 1] == g.siblings[k];
    assert g.siblings[k] in Members(g);
    assert Members(g) <= Flat(groups);
    WithoutSiblingKeeps(a, g, k);
    FlatPut(groups, a, WithoutSibling(g, k));
  }
}
