/** The peer-to-peer route table: for each peer a list of routes kept in order of round-trip time,
with a refresh time per route and an owner per route key. */
module RouteTables {
  import opened Base

  type RouteKey = nat
  type Pair = (Ip, RouteKey)

  datatype Route = Route(key: RouteKey, metric: nat, rtt: nat) {
    predicate IsDirect() {
      metric == 1
    }
  }

  // ----- route lists

  predicate Sorted(list: seq<Route>) {
    forall i, j :: 0 <= i < j < |list| ==> list[i].rtt <= list[j].rtt
  }

  predicate DistinctKeys(list: seq<Route>) {
    forall i, j :: 0 <= i < j < |list| ==> list[i].key != list[j].key
  }

  predicate HasKey(list: seq<Route>, key: RouteKey) {
    exists i :: 0 <= i < |list| && list[i].key == key
  }

  function Insert(rest: seq<Route>, pos: nat, r: Route): seq<Route>
    requires pos <= |rest|
  {
    rest[..pos] + [r] + rest[pos..]
  }

  function Without(list: seq<Route>, idx: nat): seq<Route>
    requires idx < |list|
  {
    list[..idx] + list[idx + 1..]
  }

  /** At `pos` the route is no slower than what follows and no faster than what precedes it. */
  predicate Fits(rest: seq<Route>, pos: nat, r: Route) {
    && pos <= |rest|
    && (pos > 0 ==> rest[pos - 1].rtt <= r.rtt)
    && (pos < |rest| ==> r.rtt <= rest[pos].rtt)
  }

  lemma FittingKeepsSorted(rest: seq<Route>, pos: nat, r: Route)
    requires Sorted(rest) && Fits(rest, pos, r)
    ensures Sorted(Insert(rest, pos, r))
  {
  }

  lemma SortedWithout(list: seq<Route>, idx: nat)
    requires idx < |list|
    ensures Sorted(list) ==> Sorted(Without(list, idx))
    ensures DistinctKeys(list) ==> DistinctKeys(Without(list, idx)) && !HasKey(Without(list, idx), list[idx].key)
    ensures forall k :: HasKey(list, k) <==> HasKey(Without(list, idx), k) || k == list[idx].key
  {
    var rest := Without(list, idx);
    forall k | HasKey(list, k) && k != list[idx].key ensures HasKey(rest, k) {
      var i :| 0 <= i < |list| && list[i].key == k;
      assert rest[if i < idx then i else i - 1].key == k;
    }
  }

  lemma InsertKeys(rest: seq<Route>, pos: nat, r: Route)
    requires pos <= |rest|
    ensures forall k :: HasKey(Insert(rest, pos, r), k) <==> HasKey(rest, k) || k == r.key
    ensures DistinctKeys(rest) && !HasKey(rest, r.key) ==> DistinctKeys(Insert(rest, pos, r))
  {
    var list := Insert(rest, pos, r);
    assert list[pos].key == r.key;
    forall k | HasKey(rest, k) ensures HasKey(list, k) {
      var i :| 0 <= i < |rest| && rest[i].key == k;
      assert list[if i < pos then i else i + 1].key == k;
    }
  }

  /** `list` with the route of the same key, if any, replaced by `r`, or `r` added: the other routes
      stay in their order and `r` fits between its neighbours. */
  ghost predicate Updated(list: seq<Route>, r: Route, list': seq<Route>) {
    if HasKey(list, r.key) then
      exists idx, pos :: 0 <= idx < |list| && list[idx].key == r.key
        && Fits(Without(list, idx), pos, r) && list' == Insert(Without(list, idx), pos, r)
    else
      exists pos :: Fits(list, pos, r) && list' == Insert(list, pos, r)
  }

  lemma UpdatedList(list: seq<Route>, r: Route, list': seq<Route>)
    requires DistinctKeys(list) && Updated(list, r, list')
    ensures DistinctKeys(list') && list' != []
    ensures forall k :: HasKey(list', k) <==> HasKey(list, k) || k == r.key
    ensures Sorted(list) ==> Sorted(list')
  {
    if HasKey(list, r.key) {
      var idx, pos :| 0 <= idx < |list| && list[idx].key == r.key
        && Fits(Without(list, idx), pos, r) && list' == Insert(Without(list, idx), pos, r);
      SortedWithout(list, idx);
      InsertKeys(Without(list, idx), pos, r);
      if Sorted(list) { FittingKeepsSorted(Without(list, idx), pos, r); }
    } else {
      var pos :| Fits(list, pos, r) && list' == Insert(list, pos, r);
      InsertKeys(list, pos, r);
      if Sorted(list) { FittingKeepsSorted(list, pos, r); }
    }
  }

  /** Swapping two neighbours moves the route by one place. */
  lemma SwapMoves(rest: seq<Route>, i: nat, r: Route)
    requires i <= |rest|
    ensures var list := Insert(rest, i, r);
      && |list| == |rest| + 1 && list[i] == r
      && (i > 0 ==> list[i - 1] == rest[i - 1] && list[i := rest[i - 1]][i - 1 := r] == Insert(rest, i - 1, r))
      && (i < |rest| ==> list[i + 1] == rest[i] && list[i := rest[i]][i + 1 := r] == Insert(rest, i + 1, r))
  {
  }

  /** Moves a route forward past every slower one before it. */
  method BubbleForward(list0: seq<Route>, ghost rest: seq<Route>, idx: nat, r: Route)
    returns (list: seq<Route>, i: nat)
    requires idx <= |rest| && list0 == Insert(rest, idx, r)
    ensures i <= |rest| && list == Insert(rest, i, r) && (i > 0 ==> rest[i - 1].rtt <= r.rtt)
  {
    list, i := list0, idx;
    SwapMoves(rest, i, r);
    while i > 0 && list[i].rtt < list[i - 1].rtt
      invariant i <= |rest| && list == Insert(rest, i, r)
    {
      SwapMoves(rest, i, r);
      list := list[i := list[i - 1]][i - 1 := list[i]];
      i := i - 1;
    }
    SwapMoves(rest, i, r);
  }

  /** Moves a route back past every faster one after it. */
  method BubbleBack(list0: seq<Route>, ghost rest: seq<Route>, idx: nat, r: Route)
    returns (list: seq<Route>, i: nat)
    requires idx <= |rest| && list0 == Insert(rest, idx, r) && (idx > 0 ==> rest[idx - 1].rtt <= r.rtt)
    ensures Fits(rest, i, r) && list == Insert(rest, i, r)
  {
    list, i := list0, idx;
    SwapMoves(rest, i, r);
    while i + 1 < |list| && list[i].rtt > list[i + 1].rtt
      invariant i <= |rest| && list == Insert(rest, i, r)
      invariant i > 0 ==> rest[i - 1].rtt <= r.rtt
    {
      SwapMoves(rest, i, r);
      list := list[i := list[i + 1]][i + 1 := list[i]];
      i := i + 1;
    }
    SwapMoves(rest, i, r);
  }

  /** Replaces the route at `idx` and bubbles it to its place. */
  method Bubble(list0: seq<Route>, idx: nat, r: Route) returns (list: seq<Route>)
    requires idx < |list0| && list0[idx].key == r.key
    ensures Updated(list0, r, list)
  {
    ghost var rest := Without(list0, idx);
    var i;
    list, i := list0[idx := r], idx;
    SwapMoves(rest, i, r);
    list, i := BubbleForward(list, rest, i, r);
    list, i := BubbleBack(list, rest, i, r);
    assert HasKey(list0, r.key);
  }

  /** Inserts a new route before the first slower one. */
  method InsertNew(list0: seq<Route>, r: Route) returns (list: seq<Route>)
    requires !HasKey(list0, r.key)
    ensures Updated(list0, r, list)
  {
    var pos := |list0|;
    for i := 0 to |list0|
      invariant pos == |list0|
      invariant forall j :: 0 <= j < i ==> list0[j].rtt <= r.rtt
    {
      if r.rtt < list0[i].rtt {
        pos := i;
        break;
      }
    }
    list := Insert(list0, pos, r);
    assert Fits(list0, pos, r);
  }

  /** Replaces the route of the same key, or adds the route. */
  method Put(list: seq<Route>, r: Route) returns (list': seq<Route>)
    ensures Updated(list, r, list')
  {
    var idx := 0;
    while idx < |list| && list[idx].key != r.key
      invariant idx <= |list|
      invariant forall i :: 0 <= i < idx ==> list[i].key != r.key
    {
      idx := idx + 1;
    }
    if idx < |list| {
      list' := Bubble(list, idx, r);
    } else {
      list' := InsertNew(list, r);
    }
  }

  // ----- removing routes

  /** The routes of `id` whose pair is not in `gone`, in their order. */
  function Keep(list: seq<Route>, id: Ip, gone: set<Pair>): seq<Route> {
    if list == [] then [] else
    var x := list[|list| - 1];
    Keep(list[..|list| - 1], id, gone) + (if (id, x.key) in gone then [] else [x])
  }

  lemma {:induction false} KeepMembers(list: seq<Route>, id: Ip, gone: set<Pair>)
    ensures forall x :: x in Keep(list, id, gone) <==> x in list && (id, x.key) !in gone
  {
    if list != [] {
      var front, x := list[..|list| - 1], list[|list| - 1];
      assert list == front + [x];
      KeepMembers(front, id, gone);
    }
  }

  lemma {:induction false} KeepOrder(list: seq<Route>, id: Ip, gone: set<Pair>)
    ensures Sorted(list) ==> Sorted(Keep(list, id, gone))
    ensures DistinctKeys(list) ==> DistinctKeys(Keep(list, id, gone))
  {
    if list != [] {
      var front := list[..|list| - 1];
      KeepOrder(front, id, gone);
      KeepMembers(front, id, gone);
      var kept := Keep(front, id, gone);
      assert forall i :: 0 <= i < |kept| ==> kept[i] in front;
    }
  }

  lemma KeepLast(list: seq<Route>, x: Route, id: Ip, gone: set<Pair>)
    ensures Keep(list + [x], id, gone) == Keep(list, id, gone) + (if (id, x.key) in gone then [] else [x])
  {
    assert (list + [x])[..|list|] == list;
  }

  lemma {:induction false} KeepTwice(list: seq<Route>, id: Ip, a: set<Pair>, b: set<Pair>)
    ensures Keep(Keep(list, id, a), id, b) == Keep(list, id, a + b)
  {
    if list != [] {
      var front, x := list[..|list| - 1], list[|list| - 1];
      KeepTwice(front, id, a, b);
      var kept := Keep(front, id, a);
      KeepLast(kept, x, id, b);
      assert Keep(list, id, a) == if (id, x.key) in a then kept else kept + [x];
      assert Keep(list, id, a + b) == Keep(front, id, a + b) + if (id, x.key) in a + b then [] else [x];
    }
  }

  lemma {:induction false} KeepAll(list: seq<Route>, id: Ip, gone: set<Pair>)
    requires forall k: RouteKey :: (id, k) !in gone
    ensures Keep(list, id, gone) == list
  {
    if list != [] {
      KeepAll(list[..|list| - 1], id, gone);
    }
  }

  /** A table of lists without the routes of `gone`; a list that runs empty goes with them. */
  function Prune(table: map<Ip, seq<Route>>, gone: set<Pair>): map<Ip, seq<Route>> {
    map id | id in table && Keep(table[id], id, gone) != [] :: Keep(table[id], id, gone)
  }

  lemma PruneNothing(table: map<Ip, seq<Route>>)
    requires forall id :: id in table ==> table[id] != []
    ensures Prune(table, {}) == table
  {
    forall id | id in table ensures Keep(table[id], id, {}) == table[id] {
      KeepAll(table[id], id, {});
    }
  }

  lemma PruneTwice(table: map<Ip, seq<Route>>, a: set<Pair>, b: set<Pair>)
    ensures Prune(Prune(table, a), b) == Prune(table, a + b)
  {
    var x, y := Prune(Prune(table, a), b), Prune(table, a + b);
    forall id | id in table ensures (id in x <==> id in y) && (id in y ==> x[id] == y[id]) {
      KeepTwice(table[id], id, a, b);
    }
    assert x.Keys == y.Keys;
  }

  function Disown(owner: map<RouteKey, Ip>, gone: set<Pair>): map<RouteKey, Ip> {
    map k | k in owner && (owner[k], k) !in gone :: owner[k]
  }

  lemma DisownTwice(owner: map<RouteKey, Ip>, a: set<Pair>, b: set<Pair>)
    ensures Disown(Disown(owner, a), b) == Disown(owner, a + b)
  {
  }

  // ----- the table

  /** The three maps as one value. */
  datatype Maps = Maps(table: map<Ip, seq<Route>>, time: map<Pair, nat>, owner: map<RouteKey, Ip>)

  predicate Routed(table: map<Ip, seq<Route>>, id: Ip, key: RouteKey) {
    id in table && HasKey(table[id], key)
  }

  function Listed(table: map<Ip, seq<Route>>, id: Ip): seq<Route> {
    if id in table then table[id] else []
  }

  /** The time map has exactly the pairs of the lists as keys, no list is empty or repeats a key,
      and every owner entry points at an existing route. */
  ghost predicate Agree(m: Maps) {
    && (forall id: Ip, key: RouteKey :: (id, key) in m.time <==> Routed(m.table, id, key))
    && (forall id :: id in m.table ==> m.table[id] != [] && DistinctKeys(m.table[id]))
    && (forall key :: key in m.owner ==> Routed(m.table, m.owner[key], key))
  }

  predicate AllSorted(table: map<Ip, seq<Route>>) {
    forall id :: id in table ==> Sorted(table[id])
  }

  lemma PruneSorted(table: map<Ip, seq<Route>>, gone: set<Pair>)
    requires AllSorted(table)
    ensures AllSorted(Prune(table, gone))
  {
    forall id | id in Prune(table, gone) ensures Sorted(Keep(table[id], id, gone)) {
      KeepOrder(table[id], id, gone);
    }
  }

  /** All traces of the pairs in `gone` removed. */
  function Removed(m: Maps, gone: set<Pair>): Maps {
    Maps(Prune(m.table, gone), m.time - gone, Disown(m.owner, gone))
  }

  lemma RemovedRoutes(m: Maps, gone: set<Pair>)
    requires Agree(m)
    ensures Agree(Removed(m, gone))
    ensures forall id: Ip, key: RouteKey ::
      Routed(Removed(m, gone).table, id, key) <==> Routed(m.table, id, key) && (id, key) !in gone
    ensures forall id: Ip, key: RouteKey :: (id, key) in m.time && (id, key) !in gone ==>
      (id, key) in Removed(m, gone).time && Removed(m, gone).time[(id, key)] == m.time[(id, key)]
    ensures forall key: RouteKey :: key in Removed(m, gone).owner <==> key in m.owner && (m.owner[key], key) !in gone
    ensures forall key: RouteKey :: key in Removed(m, gone).owner ==> Removed(m, gone).owner[key] == m.owner[key]
  {
    var n := Removed(m, gone);
    forall id: Ip, key: RouteKey ensures Routed(n.table, id, key) <==> Routed(m.table, id, key) && (id, key) !in gone {
      if id in m.table { KeepMembers(m.table[id], id, gone); }
      if Routed(m.table, id, key) && (id, key) !in gone {
        var i :| 0 <= i < |m.table[id]| && m.table[id][i].key == key;
        assert m.table[id][i] in Keep(m.table[id], id, gone);
      }
      if Routed(n.table, id, key) {
        var i :| 0 <= i < |n.table[id]| && n.table[id][i].key == key;
        assert n.table[id][i] in m.table[id];
      }
    }
    forall id | id in n.table ensures DistinctKeys(n.table[id]) {
      KeepOrder(m.table[id], id, gone);
    }
  }

  /** Each list keeps exactly its other routes. */
  lemma RemovedLists(m: Maps, gone: set<Pair>, id: Ip, x: Route)
    ensures x in Listed(Removed(m, gone).table, id) <==> x in Listed(m.table, id) && (id, x.key) !in gone
  {
    KeepMembers(Listed(m.table, id), id, gone);
    assert id in m.table ==> Listed(Removed(m, gone).table, id) == Keep(m.table[id], id, gone);
  }

  lemma RemovedIsValid(m: Maps, gone: set<Pair>)
    requires Agree(m)
    ensures Agree(Removed(m, gone))
    ensures AllSorted(m.table) ==> AllSorted(Removed(m, gone).table)
  {
    RemovedRoutes(m, gone);
    if AllSorted(m.table) { PruneSorted(m.table, gone); }
  }

  class RouteTable {
    /** Round-trip time assumed for a route that was not measured yet. */
    const defaultRtt: nat
    var routeTable: map<Ip, seq<Route>>
    var routeKeyTime: map<Pair, nat>
    var routeKeyOwner: map<RouteKey, Ip>

    function View(): Maps
      reads this
    {
      Maps(routeTable, routeKeyTime, routeKeyOwner)
    }

    ghost predicate Valid()
      reads this
    {
      Agree(View())
    }

    function List(id: Ip): seq<Route>
      reads this
    {
      if id in routeTable then routeTable[id] else []
    }

    constructor (defaultRtt: nat)
      ensures Valid() && View() == Maps(map[], map[], map[]) && this.defaultRtt == defaultRtt
    {
      this.defaultRtt := defaultRtt;
      routeTable, routeKeyTime, routeKeyOwner := map[], map[], map[];
    }

    /** A punched connection: its key now belongs to `id`, its route is refreshed, and if it is new
        it goes to the end of the list under the default time. */
    method AddOwnerRoute(id: Ip, key: RouteKey, now: nat)
      requires Valid()
      modifies this
      ensures Valid()
      ensures var list := old(List(id));
        View() == Maps(
          old(routeTable)[id := if HasKey(list, key) then list else list + [Route(key, 1, defaultRtt)]],
          old(routeKeyTime)[(id, key) := now], old(routeKeyOwner)[key := id])
      ensures var list := old(List(id)); old(AllSorted(routeTable)) ==>
        (AllSorted(routeTable) <==> HasKey(list, key) || list == [] || list[|list| - 1].rtt <= defaultRtt)
    {
      ghost var before := View();
      var list := List(id);
      routeKeyOwner := routeKeyOwner[key := id];
      routeKeyTime := routeKeyTime[(id, key) := now];
      if HasKey(list, key) {
        assert routeTable == routeTable[id := list];
      } else {
        InsertKeys(list, |list|, Route(key, 1, defaultRtt));
        assert Insert(list, |list|, Route(key, 1, defaultRtt)) == list + [Route(key, 1, defaultRtt)];
        routeTable := routeTable[id := list + [Route(key, 1, defaultRtt)]];
      }
      ListReplaced(before, View(), id, key, now);
      if AllSorted(before.table) {
        AppendKeepsSortedIff(list, Route(key, 1, defaultRtt));
      }
    }

    /** A measured route: refused for an unknown peer unless direct, else written in its place. */
    method AddRoute(id: Ip, r: Route, now: nat)
      requires Valid()
      modifies this
      ensures Valid()
      ensures r.metric != 1 && id !in old(routeTable) ==> View() == old(View())
      ensures r.metric == 1 || id in old(routeTable) ==>
        && id in routeTable && Updated(old(List(id)), r, routeTable[id])
        && routeTable == old(routeTable)[id := routeTable[id]]
        && routeKeyTime == old(routeKeyTime)[(id, r.key) := now]
        && routeKeyOwner == if r.metric == 1 && r.key !in old(routeKeyOwner)
                            then old(routeKeyOwner)[r.key := id] else old(routeKeyOwner)
      ensures old(AllSorted(routeTable)) ==> AllSorted(routeTable)
    {
      ghost var before := View();
      if r.IsDirect() {
        if r.key !in routeKeyOwner {
          routeKeyOwner := routeKeyOwner[r.key := id];
        }
      } else if id !in routeTable {
        return;
      }
      routeKeyTime := routeKeyTime[(id, r.key) := now];
      var list' := Put(List(id), r);
      routeTable := routeTable[id := list'];
      RoutePut(before, View(), id, r, now);
    }

    /** Like `AddRoute`, but only for a peer without any route. */
    method AddRouteIfAbsent(id: Ip, r: Route, now: nat)
      requires Valid()
      modifies this
      ensures Valid()
      ensures id in old(routeTable) || r.metric != 1 ==> View() == old(View())
      ensures id !in old(routeTable) && r.metric == 1 ==>
        && routeTable == old(routeTable)[id := [r]]
        && routeKeyTime == old(routeKeyTime)[(id, r.key) := now]
        && routeKeyOwner == if r.key in old(routeKeyOwner) then old(routeKeyOwner)
                            else old(routeKeyOwner)[r.key := id]
    {
      if id in routeTable { return; }
      AddRoute(id, r, now);
      if r.IsDirect() {
        assert routeTable[id] == [r];
      }
    }

    method RemoveRoute(id: Ip, key: RouteKey)
      requires Valid()
      modifies this
      ensures Valid() && View() == Removed(old(View()), {(id, key)})
      ensures old(AllSorted(routeTable)) ==> AllSorted(routeTable)
    {
      ghost var before := View();
      ForgetRoute(id, key);
      routeKeyTime := routeKeyTime - {(id, key)};
      RemovedIsValid(before, {(id, key)});
    }

    /** Takes one route out of its list and its key from its owner, if that is `id`. */
    method ForgetRoute(id: Ip, key: RouteKey)
      requires forall i :: i in routeTable ==> routeTable[i] != []
      modifies this`routeTable, this`routeKeyOwner
      ensures routeTable == Prune(old(routeTable), {(id, key)})
      ensures routeKeyOwner == Disown(old(routeKeyOwner), {(id, key)})
    {
      routeTable := DropPair(routeTable, id, key);
      if key in routeKeyOwner && routeKeyOwner[key] == id {
        routeKeyOwner := routeKeyOwner - {key};
      }
    }

    /** Removes exactly the routes that were last refreshed at or before `expired`. */
    method RemoveOldestRoute(expired: nat)
      requires Valid()
      modifies this
      ensures Valid()
      ensures View() == Removed(old(View()), Stale(old(routeKeyTime), expired))
      ensures forall id: Ip, key: RouteKey :: Routed(routeTable, id, key) <==>
        Routed(old(routeTable), id, key) && old(routeKeyTime)[(id, key)] > expired
      ensures old(AllSorted(routeTable)) ==> AllSorted(routeTable)
    {
      ghost var before := View();
      var gone := Stale(routeKeyTime, expired);
      routeKeyTime := routeKeyTime - gone;
      ForgetRoutes(gone);
      RemovedIsValid(before, gone);
      RemovedRoutes(before, gone);
    }

    method ForgetRoutes(gone: set<Pair>)
      requires forall i :: i in routeTable ==> routeTable[i] != []
      modifies this`routeTable, this`routeKeyOwner
      ensures routeTable == Prune(old(routeTable), gone)
      ensures routeKeyOwner == Disown(old(routeKeyOwner), gone)
    {
      ghost var table, owner := routeTable, routeKeyOwner;
      PruneNothing(routeTable);
      var rest := gone;
      ghost var done: set<Pair> := {};
      while rest != {}
        invariant rest <= gone && done == gone - rest
        invariant routeTable == Prune(table, done) && routeKeyOwner == Disown(owner, done)
        decreases |rest|
      {
        var p :| p in rest;
        rest := rest - {p};
        PruneTwice(table, done, {p});
        DisownTwice(owner, done, {p});
        ForgetRoute(p.0, p.1);
        done := done + {p};
      }
      assert done == gone;
    }

    /** The first direct route, else the first route. */
    function GetById(id: Ip): Option<Route>
      reads this
    {
      if id !in routeTable || routeTable[id] == [] then None
      else Some(FirstDirect(routeTable[id]))
    }

    /** While the lists are in order, the route chosen for a peer is its fastest direct one, or its
        fastest of all if none is direct; there is a choice exactly for the peers in the table. */
    lemma GetByIdIsFastest(id: Ip)
      requires Valid() && AllSorted(routeTable)
      ensures GetById(id).Some? <==> id in routeTable
      ensures id in routeTable ==>
        var r := GetById(id).value;
        && r in routeTable[id]
        && (forall x :: x in routeTable[id] && x.metric == 1 ==> r.metric == 1 && r.rtt <= x.rtt)
        && (r.metric != 1 ==> forall x :: x in routeTable[id] ==> r.rtt <= x.rtt)
    {
      if id in routeTable {
        ChoiceIsFastest(routeTable[id]);
      }
    }
  }

  lemma ListReplaced(m: Maps, n: Maps, id: Ip, key: RouteKey, now: nat)
    requires Agree(m)
    requires id in n.table && n.table == m.table[id := n.table[id]]
    requires n.table[id] != [] && DistinctKeys(n.table[id])
    requires forall k :: HasKey(n.table[id], k) <==> Routed(m.table, id, k) || k == key
    requires n.time == m.time[(id, key) := now]
    requires n.owner == m.owner || n.owner == m.owner[key := id]
    ensures Agree(n)
  {
    forall i, k ensures Routed(n.table, i, k) <==> Routed(m.table, i, k) || (i == id && k == key) {
    }
  }

  lemma RoutePut(m: Maps, n: Maps, id: Ip, r: Route, now: nat)
    requires Agree(m)
    requires id in n.table && n.table == m.table[id := n.table[id]]
    requires Updated(if id in m.table then m.table[id] else [], r, n.table[id])
    requires n.time == m.time[(id, r.key) := now]
    requires n.owner == m.owner || n.owner == m.owner[r.key := id]
    ensures Agree(n)
    ensures AllSorted(m.table) ==> AllSorted(n.table)
  {
    UpdatedList(if id in m.table then m.table[id] else [], r, n.table[id]);
    ListReplaced(m, n, id, r.key, now);
  }

  function Stale(time: map<Pair, nat>, expired: nat): set<Pair> {
    set p | p in time && time[p] <= expired
  }

  /** One list loses the route with the given key, and goes if that was its last. */
  method DropPair(table: map<Ip, seq<Route>>, id: Ip, key: RouteKey) returns (r: map<Ip, seq<Route>>)
    requires forall i :: i in table ==> table[i] != []
    ensures r == Prune(table, {(id, key)})
  {
    forall i | i in table && i != id ensures Keep(table[i], i, {(id, key)}) == table[i] {
      KeepAll(table[i], i, {(id, key)});
    }
    r := table;
    if id in table {
      var list := Keep(table[id], id, {(id, key)});
      r := if list == [] then table - {id} else table[id := list];
    }
  }

  function FirstDirect(list: seq<Route>): Route
    requires list != []
  {
    if exists i :: 0 <= i < |list| && list[i].IsDirect()
    then DirectFrom(list, 0)
    else list[0]
  }

  function DirectFrom(list: seq<Route>, k: nat): (r: Route)
    requires exists i :: k <= i < |list| && list[i].IsDirect()
    ensures r.IsDirect()
    ensures exists i :: k <= i < |list| && list[i] == r && forall j :: k <= j < i ==> !list[j].IsDirect()
    decreases |list| - k
  {
    if list[k].IsDirect() then list[k] else DirectFrom(list, k + 1)
  }

  /** In an ordered list the chosen route is the fastest direct one, or the fastest of all if none
      is direct. */
  lemma ChoiceIsFastest(list: seq<Route>)
    requires list != [] && Sorted(list)
    ensures var r := FirstDirect(list);
      && r in list
      && (forall x :: x in list && x.IsDirect() ==> r.IsDirect() && r.rtt <= x.rtt)
      && (!r.IsDirect() ==> forall x :: x in list ==> r.rtt <= x.rtt)
  {
  }

  /** Appending a route of the default time keeps a list ordered if and only if the last route is
      no slower than that. */
  lemma AppendKeepsSortedIff(list: seq<Route>, r: Route)
    requires Sorted(list)
    ensures Sorted(list + [r]) <==> list == [] || list[|list| - 1].rtt <= r.rtt
  {
    if list != [] {
      assert (list + [r])[|list| - 1] == list[|list| - 1] && (list + [r])[|list|] == r;
    }
  }

  /** A list whose only route is slower than the default: a punched route goes behind it, and from
      then on the slower of two direct routes is chosen. */
  lemma AppendExample(defaultRtt: nat)
    ensures var list, punched := [Route(1, 1, defaultRtt + 1)], Route(2, 1, defaultRtt);
      && Sorted(list) && !Sorted(list + [punched])
      && punched.IsDirect() && FirstDirect(list + [punched]).rtt > punched.rtt
  {
    var list := [Route(1, 1, defaultRtt + 1), Route(2, 1, defaultRtt)];
    assert [Route(1, 1, defaultRtt + 1)] + [Route(2, 1, defaultRtt)] == list;
    assert list[0].IsDirect() && list[0].rtt > list[1].rtt;
    assert DirectFrom(list, 0) == list[0];
  }
}
