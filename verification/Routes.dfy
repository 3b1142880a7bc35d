/** The bounded cache of measurement routes and the index of announcement revisions. */
module Routes {
  import opened Wrappers
  import opened DiscoveryTypes

  datatype Key = Key(node: NodeId, endpoint: Endpoint)

  datatype Hint = Hint(expires: Instant, observed: Instant, route: Lease)

  type RouteMap = map<Key, Hint>

  const MAX_MEASUREMENT_ROUTES: nat := 1024
  const MAX_ROUTES_PER_PEER: nat := 16

  // ----- specification -----

  function Swept(m: RouteMap, now: Instant, current: set<Lease>): RouteMap {
    map k | k in m && m[k].expires > now && m[k].route in current :: m[k]
  }

  /** What a withdrawal received at this instant leaves. */
  function Withdrawn(m: RouteMap, node: NodeId, received: Instant): RouteMap {
    map k | k in m && (k.node != node || m[k].observed > received) :: m[k]
  }

  function PeerKeys(m: RouteMap, node: NodeId): set<Key> {
    set k | k in m && k.node == node
  }

  ghost predicate EarliestOf(m: RouteMap, keys: set<Key>, k: Key) {
    k in keys && forall j :: j in keys && j in m && k in m ==> m[k].expires <= m[j].expires
  }

  /** One hint that expires first among the keys makes room when they have reached the limit. */
  ghost predicate MadeRoom(m: RouteMap, keys: set<Key>, limit: nat, after: RouteMap) {
    if |keys| >= limit then exists k :: EarliestOf(m, keys, k) && after == m - {k} else after == m
  }

  ghost predicate Inserted(m: RouteMap, key: Key, hint: Hint, after: RouteMap) {
    exists mid: RouteMap, room: RouteMap ::
      && MadeRoom(m, PeerKeys(m, key.node), MAX_ROUTES_PER_PEER, mid)
      && MadeRoom(mid, mid.Keys, MAX_MEASUREMENT_ROUTES, room)
      && after == room[key := hint]
  }

  datatype Record = Record(node: NodeId, endpoint: Option<Endpoint>, observed: Instant, expires: Instant, route: Lease)

  /** What recording does to a cache just swept; ties for eviction go either way. */
  ghost predicate RecordedIn(m: RouteMap, r: Record, existingOnly: bool, now: Instant, current: set<Lease>,
                             after: RouteMap)
  {
    if r.route !in current then after == m
    else if r.endpoint.None? then after == Withdrawn(m, r.node, r.observed)
    else
      var key := Key(r.node, r.endpoint.value);
      if key in m && m[key].observed > r.observed then after == m
      else if r.expires <= now then after == m - {key}
      else if key in m then after == m[key := Hint(r.expires, r.observed, r.route)]
      else if existingOnly then after == m
      else Inserted(m, key, Hint(r.expires, r.observed, r.route), after)
  }

  ghost predicate Recorded(before: RouteMap, r: Record, existingOnly: bool, now: Instant, current: set<Lease>,
                           after: RouteMap)
  {
    RecordedIn(Swept(before, now, current), r, existingOnly, now, current, after)
  }

  class MeasurementRoutes {
    var routes: RouteMap

    constructor ()
      ensures routes == map[]
    {
      routes := map[];
    }

    method Sweep(now: Instant, current: set<Lease>)
      modifies this
      ensures routes == Swept(old(routes), now, current)
    {
      routes := map k | k in routes && routes[k].expires > now && routes[k].route in current :: routes[k];
    }

    method Withdraw(node: NodeId, received: Instant)
      modifies this
      ensures routes == Withdrawn(old(routes), node, received)
    {
      routes := map k | k in routes && (k.node != node || routes[k].observed > received) :: routes[k];
    }

    method Earliest(keys: set<Key>) returns (k: Key)
      requires keys != {} && keys <= routes.Keys
      ensures k in keys && forall j :: j in keys ==> routes[k].expires <= routes[j].expires
    {
      k :| k in keys;
      var rest := keys - {k};
      while rest != {}
        invariant rest <= keys && k in keys
        invariant forall j :: j in keys - rest ==> routes[k].expires <= routes[j].expires
        decreases |rest|
      {
        var j :| j in rest;
        if routes[j].expires < routes[k].expires {
          k := j;
        }
        rest := rest - {j};
      }
    }

    method MakeRoom(keys: set<Key>, limit: nat)
      requires keys <= routes.Keys && limit > 0
      modifies this
      ensures MadeRoom(old(routes), keys, limit, routes)
    {
      if |keys| >= limit {
        var victim := Earliest(keys);
        routes := routes - {victim};
      }
    }

    method RecordReceived(r: Record, existingOnly: bool, now: Instant, current: set<Lease>)
      modifies this
      ensures Recorded(old(routes), r, existingOnly, now, current, routes)
    {
      Sweep(now, current);
      if r.route !in current {
        return;
      }
      if r.endpoint.None? {
        Withdraw(r.node, r.observed);
        return;
      }
      var key := Key(r.node, r.endpoint.value);
      var hint := Hint(r.expires, r.observed, r.route);
      if key in routes && routes[key].observed > r.observed {
        return;
      }
      if r.expires <= now {
        routes := routes - {key};
        return;
      }
      if existingOnly && key !in routes {
        return;
      }
      ghost var m := routes;
      if key !in routes {
        MakeRoom(PeerKeys(routes, r.node), MAX_ROUTES_PER_PEER);
        ghost var mid := routes;
        MakeRoom(routes.Keys, MAX_MEASUREMENT_ROUTES);
        assert MadeRoom(m, PeerKeys(m, key.node), MAX_ROUTES_PER_PEER, mid);
        assert MadeRoom(mid, mid.Keys, MAX_MEASUREMENT_ROUTES, routes);
        assert Inserted(m, key, hint, routes[key := hint]);
      }
      routes := routes[key := hint];
    }
  }

  // ----- the bounds -----

  ghost predicate Bounded(m: RouteMap) {
    |m| <= 1024 && forall p :: |PeerKeys(m, p)| <= 16
  }

  lemma {:induction false} SubsetCard<T>(a: set<T>, b: set<T>)
    requires a <= b
    ensures |a| <= |b|
  {
    if a != {} {
      var x :| x in a;
      SubsetCard(a - {x}, b - {x});
    }
  }

  lemma MapCard(m: RouteMap)
    ensures |m| == |m.Keys|
  {
    hide *;
  }

  lemma BoundedShrinks(m: RouteMap, after: RouteMap)
    requires Bounded(m) && after.Keys <= m.Keys
    ensures Bounded(after)
  {
    SubsetCard(after.Keys, m.Keys);
    MapCard(m);
    MapCard(after);
    forall p ensures |PeerKeys(after, p)| <= MAX_ROUTES_PER_PEER {
      SubsetCard(PeerKeys(after, p), PeerKeys(m, p));
    }
  }

  /** Insertion adds the key and otherwise only takes away. */
  lemma InsertedAdds(m: RouteMap, key: Key, hint: Hint, after: RouteMap)
    requires Inserted(m, key, hint, after)
    ensures key in after && after[key] == hint
    ensures forall k :: k in after && k != key ==> k in m && after[k] == m[k]
  {
    var mid: RouteMap, room: RouteMap :|
      && MadeRoom(m, PeerKeys(m, key.node), MAX_ROUTES_PER_PEER, mid)
      && MadeRoom(mid, mid.Keys, MAX_MEASUREMENT_ROUTES, room)
      && after == room[key := hint];
  }

  lemma InsertedBounded(m: RouteMap, key: Key, hint: Hint, after: RouteMap)
    requires Bounded(m) && Inserted(m, key, hint, after)
    ensures Bounded(after)
  {
    var mid: RouteMap, room: RouteMap :|
      && MadeRoom(m, PeerKeys(m, key.node), MAX_ROUTES_PER_PEER, mid)
      && MadeRoom(mid, mid.Keys, MAX_MEASUREMENT_ROUTES, room)
      && after == room[key := hint];
    RoomForPeer(m, key.node, mid);
    RoomInAll(mid, room);
    SubsetCard(PeerKeys(room, key.node), PeerKeys(mid, key.node));
    hide Bounded, MadeRoom, PeerKeys;
    PutBounded(room, key, hint);
  }

  lemma PutBounded(room: RouteMap, key: Key, hint: Hint)
    requires Bounded(room) && |room| < MAX_MEASUREMENT_ROUTES && |PeerKeys(room, key.node)| < MAX_ROUTES_PER_PEER
    ensures Bounded(room[key := hint])
  {
    var after := room[key := hint];
    MapCard(room);
    MapCard(after);
    assert after.Keys == room.Keys + {key};
    forall p ensures |PeerKeys(after, p)| <= MAX_ROUTES_PER_PEER {
      PeerKeysPut(room, key, hint, p);
    }
  }

  lemma PeerKeysPut(room: RouteMap, key: Key, hint: Hint, p: NodeId)
    ensures PeerKeys(room[key := hint], p) == PeerKeys(room, p) + (if p == key.node then {key} else {})
  {}

  lemma RoomForPeer(m: RouteMap, node: NodeId, mid: RouteMap)
    requires Bounded(m) && MadeRoom(m, PeerKeys(m, node), MAX_ROUTES_PER_PEER, mid)
    ensures |PeerKeys(mid, node)| < MAX_ROUTES_PER_PEER && Bounded(mid)
    ensures forall k :: k in mid ==> k in m && mid[k] == m[k]
  {
    if |PeerKeys(m, node)| >= MAX_ROUTES_PER_PEER {
      var k :| EarliestOf(m, PeerKeys(m, node), k) && mid == m - {k};
      assert PeerKeys(mid, node) == PeerKeys(m, node) - {k};
    }
    BoundedShrinks(m, mid);
  }

  lemma RoomInAll(mid: RouteMap, room: RouteMap)
    requires Bounded(mid) && MadeRoom(mid, mid.Keys, MAX_MEASUREMENT_ROUTES, room)
    ensures |room| < MAX_MEASUREMENT_ROUTES && Bounded(room)
    ensures forall k :: k in room ==> k in mid && room[k] == mid[k]
  {
    MapCard(mid);
    if |mid.Keys| >= MAX_MEASUREMENT_ROUTES {
      var k :| EarliestOf(mid, mid.Keys, k) && room == mid - {k};
      assert room.Keys == mid.Keys - {k};
    }
    MapCard(room);
    BoundedShrinks(mid, room);
  }

  // ----- what recording keeps -----

  /** Keys that stay never go back in time. */
  ghost predicate NeverBack(before: RouteMap, after: RouteMap) {
    forall k :: k in before && k in after ==> before[k].observed <= after[k].observed
  }

  /** Every hint is old news or the record's own, observed while its lease was current and before it expired. */
  ghost predicate OldOrRecord(before: RouteMap, r: Record, now: Instant, current: set<Lease>, after: RouteMap) {
    forall k :: k in after ==>
      || (k in before && after[k] == before[k])
      || (k.node == r.node && r.endpoint == Some(k.endpoint) && now < r.expires && r.route in current
          && after[k] == Hint(r.expires, r.observed, r.route))
  }

  lemma RecordKeeps(before: RouteMap, r: Record, existingOnly: bool, now: Instant, current: set<Lease>, after: RouteMap)
    requires Bounded(before) && Recorded(before, r, existingOnly, now, current, after)
    ensures Bounded(after)
    ensures NeverBack(Swept(before, now, current), after)
    ensures OldOrRecord(before, r, now, current, after)
    ensures forall k :: k in after ==> after[k].expires > now && after[k].route in current
    ensures existingOnly ==> after.Keys <= before.Keys
  {
    hide Bounded, RecordedIn, NeverBack;
    var m := Swept(before, now, current);
    BoundedShrinks(before, m);
    SweptRecordKeeps(m, r, existingOnly, now, current, after);
  }

  lemma SweptRecordKeeps(m: RouteMap, r: Record, existingOnly: bool, now: Instant, current: set<Lease>, after: RouteMap)
    requires Bounded(m) && RecordedIn(m, r, existingOnly, now, current, after)
    ensures Bounded(after) && NeverBack(m, after) && OldOrRecord(m, r, now, current, after)
    ensures existingOnly ==> after.Keys <= m.Keys
  {
    hide Bounded, Inserted;
    if r.route in current && r.endpoint.Some? {
      var key := Key(r.node, r.endpoint.value);
      if (key in m && m[key].observed > r.observed) || r.expires <= now || key in m || existingOnly {
        BoundedShrinks(m, after);
      } else {
        InsertedBounded(m, key, Hint(r.expires, r.observed, r.route), after);
        InsertedAdds(m, key, Hint(r.expires, r.observed, r.route), after);
      }
    } else {
      BoundedShrinks(m, after);
    }
  }

  // ----- what recording does -----

  /** The hint is there, has not expired and its lease stands. */
  predicate LiveAt(m: RouteMap, k: Key, now: Instant, current: set<Lease>) {
    k in m && m[k].expires > now && m[k].route in current
  }

  /** At the record's key a newer live hint stays, an expired record clears, and otherwise the record's hint is put. */
  lemma RecordTakesEffect(before: RouteMap, r: Record, existingOnly: bool, now: Instant, current: set<Lease>,
                          after: RouteMap)
    requires Recorded(before, r, existingOnly, now, current, after) && r.route in current && r.endpoint.Some?
    ensures var key := Key(r.node, r.endpoint.value);
            var live := LiveAt(before, key, now, current);
            if live && before[key].observed > r.observed then key in after && after[key] == before[key]
            else if r.expires <= now || (existingOnly && !live) then key !in after
            else key in after && after[key] == Hint(r.expires, r.observed, r.route)
  {
    hide Inserted;
    var key := Key(r.node, r.endpoint.value);
    var m := Swept(before, now, current);
    if key !in m && now < r.expires && !existingOnly {
      InsertedAdds(m, key, Hint(r.expires, r.observed, r.route), after);
    }
  }

  /** A new key enters the cache. */
  predicate Inserting(before: RouteMap, r: Record, existingOnly: bool, now: Instant, current: set<Lease>) {
    && r.route in current && r.endpoint.Some? && now < r.expires && !existingOnly
    && !LiveAt(before, Key(r.node, r.endpoint.value), now, current)
  }

  /** Unless a new key enters, every other live hint stays; without an endpoint the node's older hints go. */
  lemma RecordLeavesOthers(before: RouteMap, r: Record, existingOnly: bool, now: Instant, current: set<Lease>,
                           after: RouteMap, k: Key)
    requires Recorded(before, r, existingOnly, now, current, after)
    requires r.endpoint.Some? ==> k != Key(r.node, r.endpoint.value)
    ensures k in after ==> LiveAt(before, k, now, current) && after[k] == before[k]
    ensures LiveAt(before, k, now, current) && !Inserting(before, r, existingOnly, now, current) ==>
              (k in after <==>
                 !(r.route in current && r.endpoint.None? && k.node == r.node && before[k].observed <= r.observed))
  {
    hide Inserted;
    var m := Swept(before, now, current);
    if Inserting(before, r, existingOnly, now, current) {
      InsertedAdds(m, Key(r.node, r.endpoint.value), Hint(r.expires, r.observed, r.route), after);
    }
  }

  /** A new key costs at most one hint: the peer's first to expire at its limit, or the cache's when it is full. */
  lemma EvictsTheEarliest(m: RouteMap, key: Key, hint: Hint, after: RouteMap, lost: Key)
    requires Bounded(m) && Inserted(m, key, hint, after) && key !in m && lost in m && lost !in after
    ensures forall k :: k in m && k != lost ==> k in after && after[k] == m[k]
    ensures if |PeerKeys(m, key.node)| >= 16
            then lost.node == key.node && forall k :: k in m && k.node == key.node ==> m[lost].expires <= m[k].expires
            else |m| >= 1024 && forall k :: k in m ==> m[lost].expires <= m[k].expires
  {
    var mid: RouteMap, room: RouteMap :|
      && MadeRoom(m, PeerKeys(m, key.node), MAX_ROUTES_PER_PEER, mid)
      && MadeRoom(mid, mid.Keys, MAX_MEASUREMENT_ROUTES, room)
      && after == room[key := hint];
    MapCard(m);
    MapCard(mid);
    if |PeerKeys(m, key.node)| >= MAX_ROUTES_PER_PEER {
      var k :| EarliestOf(m, PeerKeys(m, key.node), k) && mid == m - {k};
      assert mid.Keys == m.Keys - {k};
      assert room == mid && lost == k;
      forall j | j in m && j.node == key.node ensures m[lost].expires <= m[j].expires {
        assert j in PeerKeys(m, key.node);
      }
    } else {
      assert mid == m && |m.Keys| >= MAX_MEASUREMENT_ROUTES;
      var k :| EarliestOf(m, m.Keys, k) && room == m - {k};
      assert lost == k;
    }
  }

  /** A record that has expired by the time it is made, and is news to its node, only takes hints away. */
  lemma LateRecordDrops(before: RouteMap, r: Record, now: Instant, current: set<Lease>, after: RouteMap)
    requires Recorded(before, r, false, now, current, after) && r.route in current && r.expires <= now
    requires forall k :: k in before && k.node == r.node ==> before[k].observed <= r.observed
    ensures forall k :: k in after ==> k in before && after[k] == before[k] && after[k].expires > now
    ensures forall k :: k in after && k.node == r.node ==> r.endpoint.Some? && k.endpoint != r.endpoint.value
  {
    hide Inserted;
  }

  /** The key is inserted anew, with an older observation, over a hint the sweep has just dropped. */
  predicate Revives(before: RouteMap, r: Record, existingOnly: bool, now: Instant, current: set<Lease>) {
    && r.endpoint.Some? && r.route in current && now < r.expires && !existingOnly
    && var key := Key(r.node, r.endpoint.value);
       && key in before && (before[key].expires <= now || before[key].route !in current)
       && r.observed < before[key].observed
  }

  /** Against the cache before the sweep, recording goes back in time exactly when it revives a dropped key. */
  lemma NeverBackExactlyWhen(before: RouteMap, r: Record, existingOnly: bool, now: Instant, current: set<Lease>,
                             after: RouteMap)
    requires Recorded(before, r, existingOnly, now, current, after)
    ensures NeverBack(before, after) <==> !Revives(before, r, existingOnly, now, current)
  {
    hide Inserted;
    var m := Swept(before, now, current);
    if r.endpoint.Some? {
      var key := Key(r.node, r.endpoint.value);
      if r.route in current && now < r.expires && !existingOnly && key !in m {
        InsertedAdds(m, key, Hint(r.expires, r.observed, r.route), after);
      }
    }
  }

  /** An observation made at 3 replaces a hint of 4 that expires as it is recorded. */
  lemma RecordCanGoBack()
    ensures var key := Key(1, 2);
            var before, after: RouteMap := map[key := Hint(5, 4, 0)], map[key := Hint(10, 3, 0)];
            Recorded(before, Record(1, Some(2), 3, 10, 0), false, 5, {0}, after) && !NeverBack(before, after)
  {
    var key := Key(1, 2);
    var before, after: RouteMap := map[key := Hint(5, 4, 0)], map[key := Hint(10, 3, 0)];
    var m: RouteMap := map[];
    assert Swept(before, 5, {0}) == m;
    assert PeerKeys(m, 1) == {} && m.Keys == {};
    assert MadeRoom(m, PeerKeys(m, 1), MAX_ROUTES_PER_PEER, m) && MadeRoom(m, m.Keys, MAX_MEASUREMENT_ROUTES, m);
    assert Inserted(m, key, Hint(10, 3, 0), after);
    NeverBackExactlyWhen(before, Record(1, Some(2), 3, 10, 0), false, 5, {0}, after);
  }

  lemma {:induction false} EarliestExists(m: RouteMap, keys: set<Key>) returns (k: Key)
    requires keys != {} && keys <= m.Keys
    ensures EarliestOf(m, keys, k)
  {
    var j :| j in keys;
    if keys == {j} {
      k := j;
    } else {
      k := EarliestExists(m, keys - {j});
      if m[j].expires < m[k].expires {
        k := j;
      }
    }
  }

  lemma RoomExists(m: RouteMap, keys: set<Key>, limit: nat) returns (after: RouteMap)
    requires keys <= m.Keys && limit > 0
    ensures MadeRoom(m, keys, limit, after)
  {
    after := m;
    if |keys| >= limit {
      var k := EarliestExists(m, keys);
      after := m - {k};
    }
  }

  /** Recording always has an outcome. */
  lemma RecordExists(before: RouteMap, r: Record, existingOnly: bool, now: Instant, current: set<Lease>)
      returns (after: RouteMap)
    ensures Recorded(before, r, existingOnly, now, current, after)
  {
    hide MadeRoom;
    var m := Swept(before, now, current);
    after := m;
    if r.route in current {
      if r.endpoint.None? {
        after := Withdrawn(m, r.node, r.observed);
      } else {
        var key := Key(r.node, r.endpoint.value);
        var hint := Hint(r.expires, r.observed, r.route);
        if r.expires <= now && !(key in m && m[key].observed > r.observed) {
          after := m - {key};
        } else if key in m && m[key].observed <= r.observed {
          after := m[key := hint];
        } else if key !in m && !existingOnly {
          var mid := RoomExists(m, PeerKeys(m, r.node), MAX_ROUTES_PER_PEER);
          var room := RoomExists(mid, mid.Keys, MAX_MEASUREMENT_ROUTES);
          after := room[key := hint];
          assert Inserted(m, key, hint, after);
        }
      }
    }
  }

  /** Without pressure nothing is evicted, and a peer at its own limit only ever displaces its own hints. */
  lemma EvictionIsContained(m: RouteMap, key: Key, hint: Hint, after: RouteMap)
    requires Bounded(m) && Inserted(m, key, hint, after)
    ensures |PeerKeys(m, key.node)| < MAX_ROUTES_PER_PEER && |m| < MAX_MEASUREMENT_ROUTES ==> after == m[key := hint]
    ensures |PeerKeys(m, key.node)| >= MAX_ROUTES_PER_PEER ==>
              forall k :: k in m && k.node != key.node ==> k in after && after[k] == m[k]
  {
    var mid: RouteMap, room: RouteMap :|
      && MadeRoom(m, PeerKeys(m, key.node), MAX_ROUTES_PER_PEER, mid)
      && MadeRoom(mid, mid.Keys, MAX_MEASUREMENT_ROUTES, room)
      && after == room[key := hint];
    MapCard(mid);
    MapCard(m);
    if |PeerKeys(m, key.node)| >= MAX_ROUTES_PER_PEER {
      var k :| EarliestOf(m, PeerKeys(m, key.node), k) && mid == m - {k};
      assert mid.Keys == m.Keys - {k};
    }
  }

  // ----- revisions -----

  type RevisionId = nat

  datatype Revision = Revision(node: NodeId, received: Instant, cancelled: bool)

  /** `pending` holds weak references: an entry is dead once no queued work owns its revision. */
  datatype Index = Index(pending: map<NodeId, RevisionId>, revisions: seq<Revision>)

  predicate WellFormed(ix: Index) {
    forall n :: n in ix.pending ==> ix.pending[n] < |ix.revisions| && ix.revisions[ix.pending[n]].node == n
  }

  function Live(pending: map<NodeId, RevisionId>, owned: set<RevisionId>): map<NodeId, RevisionId> {
    map n | n in pending && pending[n] in owned :: pending[n]
  }

  /** An older observation never displaces a newer one still owned. */
  predicate Refused(ix: Index, owned: set<RevisionId>, node: NodeId, received: Instant)
    requires WellFormed(ix)
  {
    var live := Live(ix.pending, owned);
    node in live && ix.revisions[live[node]].received > received
  }

  function Cancelled(ix: Index, owned: set<RevisionId>, node: NodeId): seq<Revision>
    requires WellFormed(ix)
  {
    var live := Live(ix.pending, owned);
    if node in live then ix.revisions[live[node] := ix.revisions[live[node]].(cancelled := true)] else ix.revisions
  }

  function Observed(ix: Index, owned: set<RevisionId>, node: NodeId, received: Instant, admitted: bool): Index
    requires WellFormed(ix)
  {
    var live := Live(ix.pending, owned);
    if Refused(ix, owned, node, received) then Index(live, ix.revisions)
    else
      var revisions := Cancelled(ix, owned, node);
      if admitted then Index(live[node := |revisions|], revisions + [Revision(node, received, false)])
      else Index(live - {node}, revisions)
  }

  lemma ObservedWellFormed(ix: Index, owned: set<RevisionId>, node: NodeId, received: Instant, admitted: bool)
    requires WellFormed(ix)
    ensures WellFormed(Observed(ix, owned, node, received, admitted))
  {}

  class RevisionIndex {
    var pending: map<NodeId, RevisionId>
    var revisions: seq<Revision>

    ghost function Value(): Index
      reads this
    {
      Index(pending, revisions)
    }

    constructor ()
      ensures Value() == Index(map[], [])
    {
      pending, revisions := map[], [];
    }

    method Observe(owned: set<RevisionId>, node: NodeId, received: Instant, admitted: bool)
        returns (id: Option<RevisionId>)
      requires WellFormed(Value())
      modifies this
      ensures Value() == Observed(old(Value()), owned, node, received, admitted)
      ensures WellFormed(Value())
      ensures id.Some? <==> admitted && !Refused(old(Value()), owned, node, received)
      ensures id.Some? ==> id.value == |revisions| - 1 && pending[node] == id.value && !revisions[id.value].cancelled
    {
      ghost var before := Value();
      ObservedWellFormed(before, owned, node, received, admitted);
      assert node in pending ==> pending[node] < |revisions|;
      hide WellFormed;
      pending := map n | n in pending && pending[n] in owned :: pending[n];
      ghost var live := pending;
      assert live == Live(before.pending, owned);
      if node in pending && revisions[pending[node]].received > received {
        return None;
      }
      if node in pending {
        var superseded := pending[node];
        pending := pending - {node};
        revisions := revisions[superseded := revisions[superseded].(cancelled := true)];
      }
      assert pending == live - {node} && revisions == Cancelled(before, owned, node);
      if !admitted {
        return None;
      }
      revisions := revisions + [Revision(node, received, false)];
      pending := pending[node := |revisions| - 1];
      assert pending == live[node := |revisions| - 1];
      return Some(|revisions| - 1);
    }
  }
}
