/**
 The sharded store: every node publishes the items of its own shard and follows the shards of the
 others.  Beside the shards it keeps a flat index of all items and a map from items to shards.
 */
module ShardedStore {
  import opened Common
  import opened Etcd
  import opened Notifications
  import opened Stores

  datatype State<T> = State(
    shards: map<string, map<string, T>>,
    data: map<string, T>,
    itemToShard: map<string, string>)

  datatype Operation<T> =
    | AddOrUpdate(id: string, item: T)
    | Delete(id: string)
    | Sync(localItems: map<string, T>, loaded: map<string, map<string, T>>)
    | WatchPut(shard: string, id: string, item: T)
    | WatchDelete(shard: string, id: string)

  predicate HeldIn<T>(shards: map<string, map<string, T>>, shard: string, id: string) {
    shard in shards && id in shards[shard]
  }

  ghost predicate Held<T>(shards: map<string, map<string, T>>, id: string) {
    exists shard :: HeldIn(shards, shard, id)
  }

  /** The flat index holds exactly the items of the shards, each with the value it has there. */
  ghost predicate Flat<T>(s: State<T>) {
    && (forall id :: id in s.data <==> Held(s.shards, id))
    && (forall shard, id | HeldIn(s.shards, shard, id) :: id in s.data && s.data[id] == s.shards[shard][id])
  }

  /** What rebuilding the index from the shards may give, in whatever order they are walked. */
  ghost predicate Rebuilt<T>(s: State<T>) {
    && (forall id :: id in s.data <==> Held(s.shards, id))
    && (forall id | id in s.data ::
          id in s.itemToShard && HeldIn(s.shards, s.itemToShard[id], id)
            && s.data[id] == s.shards[s.itemToShard[id]][id])
  }

  /** The shards after a synchronisation: ours from the caller, the others from etcd. */
  function SyncedShards<T>(local: string, shards: map<string, map<string, T>>,
    op: Operation<T>): map<string, map<string, T>>
    requires op.Sync?
  {
    shards[local := op.localItems] + (op.loaded - {local})
  }

  ghost predicate Transition<T(!new)>(local: string, s: State<T>, op: Operation<T>, s': State<T>)
    requires local in s.shards
  {
    match op
    case AddOrUpdate(id, item) =>
      s' == State(s.shards[local := s.shards[local][id := item]], s.data[id := item], s.itemToShard[id := local])
    case Delete(id) =>
      s' == State(s.shards[local := s.shards[local] - {id}], s.data - {id}, s.itemToShard - {id})
    case Sync(_, _) =>
      s'.shards == SyncedShards(local, s.shards, op) && Rebuilt(s')
    case WatchPut(shard, id, item) =>
      if shard == local then s' == s
      else
        var items := if shard in s.shards then s.shards[shard] else map[];
        s' == State(s.shards[shard := items[id := item]], s.data[id := item], s.itemToShard)
    case WatchDelete(shard, id) =>
      if shard == local then s' == s
      else
        var shards := if shard in s.shards then s.shards[shard := s.shards[shard] - {id}] else s.shards;
        s' == State(shards, s.data - {id}, s.itemToShard - {id})
  }

  // ---------- the index under a fixed home for every item ----------

  /** Every item is handled only under its home shard. */
  ghost predicate AtHome<T>(home: string -> string, local: string, op: Operation<T>) {
    match op
    case AddOrUpdate(id, _) => home(id) == local
    case Delete(id) => home(id) == local
    case Sync(items, loaded) =>
      && (forall id | id in items :: home(id) == local)
      && (forall shard, id | HeldIn(loaded, shard, id) :: home(id) == shard)
    case WatchPut(shard, id, _) => home(id) == shard
    case WatchDelete(shard, id) => home(id) == shard
  }

  ghost predicate Invariant<T>(home: string -> string, local: string, s: State<T>) {
    && local in s.shards
    && Homes(home, s.shards)
    && Flat(s)
    && (forall id | id in s.shards[local] :: id in s.itemToShard && s.itemToShard[id] == local)
  }

  ghost predicate Homes<T>(home: string -> string, shards: map<string, map<string, T>>) {
    forall shard, id | HeldIn(shards, shard, id) :: home(id) == shard
  }

  /** With fixed homes the index can be checked item by item. */
  ghost predicate HomeFlat<T>(home: string -> string, s: State<T>) {
    && (forall id :: id in s.data <==> HeldIn(s.shards, home(id), id))
    && (forall id | id in s.data :: s.data[id] == s.shards[home(id)][id])
  }

  lemma FlatAtHome<T>(home: string -> string, s: State<T>)
    requires Homes(home, s.shards)
    ensures Flat(s) <==> HomeFlat(home, s)
  {
    forall id ensures Held(s.shards, id) <==> HeldIn(s.shards, home(id), id) { }
    if HomeFlat(home, s) {
      forall shard, id | HeldIn(s.shards, shard, id) ensures id in s.data && s.data[id] == s.shards[shard][id] {
        assert home(id) == shard;
      }
    }
  }

  lemma StepKeepsHomes<T(!new)>(home: string -> string, local: string, s: State<T>, op: Operation<T>, s': State<T>)
    requires local in s.shards && Homes(home, s.shards) && AtHome(home, local, op) && Transition(local, s, op, s')
    ensures Homes(home, s'.shards)
  {
    forall shard, id | HeldIn(s'.shards, shard, id) ensures home(id) == shard {
      if HeldIn(s.shards, shard, id) { }
      if op.Sync? && shard in op.loaded && shard != local {
        assert HeldIn(op.loaded, shard, id);
      }
    }
  }

  lemma FlatIndexStep<T(!new)>(home: string -> string, local: string, s: State<T>, op: Operation<T>, s': State<T>)
    requires Invariant(home, local, s) && AtHome(home, local, op) && Transition(local, s, op, s')
    ensures Invariant(home, local, s')
  {
    StepKeepsHomes(home, local, s, op, s');
    if op.Sync? {
      RebuiltIsFlat(home, s');
      forall id | id in s'.shards[local] ensures id in s'.itemToShard && s'.itemToShard[id] == local {
        assert HeldIn(s'.shards, local, id);
      }
    } else {
      FlatAtHome(home, s);
      SingleItemStep(home, local, s, op, s');
      FlatAtHome(home, s');
    }
  }

  lemma SingleItemStep<T(!new)>(home: string -> string, local: string, s: State<T>, op: Operation<T>, s': State<T>)
    requires local in s.shards && HomeFlat(home, s) && AtHome(home, local, op) && Transition(local, s, op, s')
        && !op.Sync?
    ensures HomeFlat(home, s')
  {
    var changed := op.id;
    forall id
      ensures id in s'.data <==> HeldIn(s'.shards, home(id), id)
      ensures id in s'.data ==> s'.data[id] == s'.shards[home(id)][id]
    {
      assert id in s.data <==> HeldIn(s.shards, home(id), id);
    }
  }

  lemma RebuiltIsFlat<T>(home: string -> string, s: State<T>)
    requires Rebuilt(s) && Homes(home, s.shards)
    ensures Flat(s)
  {
    forall shard, id | HeldIn(s.shards, shard, id) ensures id in s.data && s.data[id] == s.shards[shard][id] {
      assert Held(s.shards, id);
    }
  }

  /** Over every run the flat index is the union of the shards, and local items map to the local
      shard. */
  lemma {:induction false} FlatIndexInEveryRun<T(!new)>(home: string -> string, local: string, states: seq<State<T>>,
    ops: seq<Operation<T>>, n: nat)
    requires |states| == |ops| + 1 && n < |states|
    requires Invariant(home, local, states[0])
    requires forall i | 0 <= i < |ops| ::
               local in states[i].shards && AtHome(home, local, ops[i])
                 && Transition(local, states[i], ops[i], states[i + 1])
    ensures Invariant(home, local, states[n])
  {
    if n > 0 {
      FlatIndexInEveryRun(home, local, states, ops, n - 1);
      assert Transition(local, states[n - 1], ops[n - 1], states[n - 1 + 1]);
      FlatIndexStep(home, local, states[n - 1], ops[n - 1], states[n]);
    }
  }

  lemma InitialState<T>(home: string -> string, local: string)
    ensures Invariant<T>(home, local, State(map[local := map[]], map[], map[]))
  {
  }

  /** Without fixed homes: a local delete keeps the index exact exactly when no other shard has an
      item of the same id. */
  lemma DeleteKeepsFlatIff<T(!new)>(local: string, s: State<T>, id: string, s': State<T>)
    requires local in s.shards && Flat(s) && Transition(local, s, Delete(id), s')
    ensures Flat(s') <==> forall shard | shard in s.shards && shard != local :: id !in s.shards[shard]
  {
    if shard :| shard in s.shards && shard != local && id in s.shards[shard] {
      assert HeldIn(s'.shards, shard, id);
    } else {
      DeleteKeepsFlat(local, s, id, s');
    }
  }

  lemma DeleteKeepsFlat<T(!new)>(local: string, s: State<T>, id: string, s': State<T>)
    requires local in s.shards && Flat(s) && Transition(local, s, Delete(id), s')
    requires forall shard | shard in s.shards && shard != local :: id !in s.shards[shard]
    ensures Flat(s')
  {
    forall shard, x ensures HeldIn(s'.shards, shard, x) <==> HeldIn(s.shards, shard, x) && x != id { }
    forall x ensures x in s'.data <==> Held(s'.shards, x) {
      if x in s'.data {
        var shard :| HeldIn(s.shards, shard, x);
        assert HeldIn(s'.shards, shard, x);
      }
    }
  }

  // ---------- shards that are gone from etcd ----------

  /** What the shards should be after a synchronisation: ours from the caller, the others as loaded. */
  function Current<T>(local: string, items: map<string, T>, loaded: map<string, map<string, T>>)
    : map<string, map<string, T>>
  {
    loaded[local := items]
  }

  /** A known shard of another node that etcd no longer has. */
  predicate Vanished<T>(local: string, s: State<T>, loaded: map<string, map<string, T>>, shard: string) {
    shard in s.shards && shard != local && shard !in loaded
  }

  /** A synchronisation leaves the shards as they should be exactly when every known shard of another
      node still has a key in etcd: the others stay. */
  lemma SyncedShardsAreCurrentIff<T(!new)>(
    local: string, s: State<T>, items: map<string, T>, loaded: map<string, map<string, T>>, s': State<T>)
    requires local in s.shards && local !in loaded && Transition(local, s, Sync(items, loaded), s')
    ensures s'.shards == Current(local, items, loaded) <==>
      forall shard | shard in s.shards :: !Vanished(local, s, loaded, shard)
  {
    if shard :| shard in s.shards && Vanished(local, s, loaded, shard) {
      assert shard in s'.shards && shard !in Current(local, items, loaded);
    } else {
      assert s'.shards.Keys == Current(local, items, loaded).Keys;
    }
  }

  /** With fixed homes, the index is that of the local items and of what etcd holds of the others
      exactly when no shard with items has vanished. */
  lemma SyncedIndexIsCurrentIff<T(!new)>(
    home: string -> string, local: string, s: State<T>, items: map<string, T>, loaded: map<string, map<string, T>>,
    s': State<T>)
    requires Invariant(home, local, s) && local !in loaded && AtHome(home, local, Sync(items, loaded))
    requires Transition(local, s, Sync(items, loaded), s')
    ensures Flat(State(Current(local, items, loaded), s'.data, s'.itemToShard)) <==>
            forall shard | Vanished(local, s, loaded, shard) :: s.shards[shard] == map[]
  {
    FlatIndexStep(home, local, s, Sync(items, loaded), s');
    if shard, id :| Vanished(local, s, loaded, shard) && id in s.shards[shard] {
      VanishedItemIsIndexed(home, local, s, items, loaded, s', shard, id);
    } else {
      forall shard | Vanished(local, s, loaded, shard) ensures s.shards[shard] == map[] {
        assert s.shards[shard].Keys == {};
      }
      NothingVanished(home, local, s, items, loaded, s');
    }
  }

  lemma NothingVanished<T(!new)>(
    home: string -> string, local: string, s: State<T>, items: map<string, T>, loaded: map<string, map<string, T>>,
    s': State<T>)
    requires local in s.shards && local !in loaded && Transition(local, s, Sync(items, loaded), s')
    requires Invariant(home, local, s') && forall shard | Vanished(local, s, loaded, shard) :: s.shards[shard] == map[]
    ensures Flat(State(Current(local, items, loaded), s'.data, s'.itemToShard))
  {
    var current := State(Current(local, items, loaded), s'.data, s'.itemToShard);
    forall shard, id ensures HeldIn(s'.shards, shard, id) <==> HeldIn(current.shards, shard, id) {
      assert Vanished(local, s, loaded, shard) ==> s.shards[shard] == map[];
    }
    assert Homes(home, current.shards);
    FlatAtHome(home, s');
    FlatAtHome(home, current);
  }

  lemma VanishedItemIsIndexed<T(!new)>(
    home: string -> string, local: string, s: State<T>, items: map<string, T>, loaded: map<string, map<string, T>>,
    s': State<T>, shard: string, id: string)
    requires Invariant(home, local, s) && local !in loaded && AtHome(home, local, Sync(items, loaded))
    requires Transition(local, s, Sync(items, loaded), s') && Invariant(home, local, s')
    requires Vanished(local, s, loaded, shard) && id in s.shards[shard]
    ensures s.shards[shard] != map[] && id in s'.data && !Held(Current(local, items, loaded), id)
    ensures !Flat(State(Current(local, items, loaded), s'.data, s'.itemToShard))
  {
    assert HeldIn(s.shards, shard, id) && HeldIn(s'.shards, shard, id);
    var current := Current(local, items, loaded);
    forall other ensures !HeldIn(current, other, id) {
      assert other != local ==> (HeldIn(current, other, id) <==> HeldIn(loaded, other, id));
    }
  }

  // ---------- what is reported ----------

  /** The two maps say the same about `id`. */
  ghost predicate Agree<T>(a: map<string, T>, b: map<string, T>, id: string) {
    (id in a <==> id in b) && (id in a ==> a[id] == b[id])
  }

  /** What is reported of a shard is reported of the index, if the shard has the ids `own` and
      nothing else changes. */
  lemma ShardDiffIsIndexDiff<T(!new)>(
    eq: Equality<T>, items: map<string, T>, items': map<string, T>, data: map<string, T>, data': map<string, T>,
    d: Diff<T>, own: string -> bool)
    requires Equivalence(eq) && IsDiff(eq, items, items', d)
    requires forall id | own(id) :: Agree(items, data, id) && Agree(items', data', id)
    requires forall id | !own(id) :: id !in items && id !in items' && Agree(data, data', id)
    ensures IsDiff(eq, data, data', d)
  {
  }

  function Joined<T>(d: Diff<T>, e: Diff<T>): Diff<T> {
    Diff(d.added + e.added, d.changes + e.changes, d.removed + e.removed)
  }

  /** Reports about different ids can be handed over together. */
  lemma JoinedDiff<T(!new)>(
    eq: Equality<T>, a: map<string, T>, b: map<string, T>, c: map<string, T>, d: Diff<T>, e: Diff<T>,
    own: string -> bool)
    requires Equivalence(eq) && IsDiff(eq, a, b, d) && IsDiff(eq, b, c, e)
    requires forall id :: if own(id) then Agree(a, b, id) else Agree(b, c, id)
    ensures IsDiff(eq, a, c, Joined(d, e))
  {
    var j := Joined(d, e);
    forall id, v
      ensures Item(id, v) in j.added <==> id in c && id !in a && v == c[id]
      ensures Item(id, v) in j.removed <==> id in a && id !in c && v == a[id]
    {
      assert if own(id) then Agree(a, b, id) else Agree(b, c, id);
      assert Item(id, v) in j.added <==> Item(id, v) in d.added || Item(id, v) in e.added;
      assert Item(id, v) in j.removed <==> Item(id, v) in d.removed || Item(id, v) in e.removed;
    }
    forall id, p, q
      ensures ItemChange(id, p, q) in j.changes <==> Retained(a, c, id) && p == a[id] && q == c[id] && !eq(p, q)
    {
      assert if own(id) then Agree(a, b, id) else Agree(b, c, id);
      assert ItemChange(id, p, q) in j.changes <==>
        ItemChange(id, p, q) in d.changes || ItemChange(id, p, q) in e.changes;
    }
    JoinedIsDistinct(eq, a, b, c, d, e, own);
  }

  lemma JoinedIsDistinct<T(!new)>(
    eq: Equality<T>, a: map<string, T>, b: map<string, T>, c: map<string, T>, d: Diff<T>, e: Diff<T>,
    own: string -> bool)
    requires Equivalence(eq) && IsDiff(eq, a, b, d) && IsDiff(eq, b, c, e)
    requires forall id :: if own(id) then Agree(a, b, id) else Agree(b, c, id)
    ensures var j := Joined(d, e);
            && (forall i, k | 0 <= i < k < |j.added| :: j.added[i].id != j.added[k].id)
            && (forall i, k | 0 <= i < k < |j.changes| :: j.changes[i].id != j.changes[k].id)
            && (forall i, k | 0 <= i < k < |j.removed| :: j.removed[i].id != j.removed[k].id)
  {
    OnlyAbout(eq, a, b, d, id => !own(id));
    OnlyAbout(eq, b, c, e, own);
  }

  /** A report mentions only ids about which the two maps differ. */
  lemma OnlyAbout<T(!new)>(eq: Equality<T>, a: map<string, T>, b: map<string, T>, d: Diff<T>, about: string -> bool)
    requires Equivalence(eq) && IsDiff(eq, a, b, d) && forall id | !about(id) :: Agree(a, b, id)
    ensures forall i | 0 <= i < |d.added| :: about(d.added[i].id)
    ensures forall i | 0 <= i < |d.changes| :: about(d.changes[i].id)
    ensures forall i | 0 <= i < |d.removed| :: about(d.removed[i].id)
  {
    forall i | 0 <= i < |d.added| ensures about(d.added[i].id) {
      assert Item(d.added[i].id, d.added[i].value) in d.added;
    }
    forall i | 0 <= i < |d.changes| ensures about(d.changes[i].id) {
      assert ItemChange(d.changes[i].id, d.changes[i].previous, d.changes[i].current) in d.changes;
    }
    forall i | 0 <= i < |d.removed| ensures about(d.removed[i].id) {
      assert Item(d.removed[i].id, d.removed[i].value) in d.removed;
    }
  }

  function Items<T>(shards: map<string, map<string, T>>, shard: string): map<string, T> {
    if shard in shards then shards[shard] else map[]
  }

  /** With fixed homes, what is reported of a changed shard is reported of the index. */
  lemma ShardReport<T(!new)>(
    home: string -> string, eq: Equality<T>, s: State<T>, s': State<T>, shard: string, items: map<string, T>,
    d: Diff<T>)
    requires Homes(home, s.shards) && Homes(home, s'.shards) && Flat(s) && Flat(s')
    requires s'.shards == s.shards[shard := items]
    requires Equivalence(eq) && IsDiff(eq, Items(s.shards, shard), items, d)
    ensures IsDiff(eq, s.data, s'.data, d)
    ensures forall id | home(id) != shard :: Agree(s.data, s'.data, id)
  {
    FlatAtHome(home, s);
    FlatAtHome(home, s');
    var before := Items(s.shards, shard);
    forall id | home(id) == shard ensures Agree(before, s.data, id) && Agree(items, s'.data, id) {
      assert HeldIn(s.shards, shard, id) <==> id in before;
      assert HeldIn(s'.shards, shard, id) <==> id in items;
    }
    forall id | home(id) != shard ensures id !in before && id !in items && Agree(s.data, s'.data, id) {
      assert HeldIn(s'.shards, home(id), id) <==> HeldIn(s.shards, home(id), id);
      assert id in before ==> HeldIn(s.shards, shard, id);
      assert id in items ==> HeldIn(s'.shards, shard, id);
    }
    ShardDiffIsIndexDiff(eq, before, items, s.data, s'.data, d, id => home(id) == shard);
  }

  // ---------- merging the loaded shards ----------

  /** The loaded shards, except ours and those still to come. */
  function Merged<T>(loaded: map<string, map<string, T>>, local: string,
    left: set<string>): map<string, map<string, T>> {
    map shard | shard in loaded && shard != local && shard !in left :: loaded[shard]
  }

  lemma MergedGrows<T>(
    shards: map<string, map<string, T>>, loaded: map<string, map<string, T>>, local: string, left: set<string>,
    shard: string)
    requires shard in left && shard in loaded
    ensures shard != local ==>
      shards + Merged(loaded, local, left - {shard}) == (shards + Merged(loaded, local, left))[shard := loaded[shard]]
    ensures shard == local ==> Merged(loaded, local, left - {shard}) == Merged(loaded, local, left)
  {
  }

  /** With fixed homes: the index is exact, `d` is what has changed in it since `origin`, and nothing
      has changed about the shards still to come. */
  ghost predicate Reported<T(!new)>(
    home: string -> string, eq: Equality<T>, local: string, origin: map<string, T>, left: set<string>, s: State<T>,
    d: Diff<T>)
  {
    && Homes(home, s.shards) && Flat(s) && IsDiff(eq, origin, s.data, d)
    && forall id | home(id) in left && home(id) != local :: Agree(origin, s.data, id)
  }

  lemma ReportOneShard<T(!new)>(
    home: string -> string, eq: Equality<T>, local: string, origin: map<string, T>, left: set<string>, s: State<T>,
    d: Diff<T>,
    shard: string, items: map<string, T>, s': State<T>, e: Diff<T>)
    requires Equivalence(eq) && Reported(home, eq, local, origin, left, s, d) && shard in left && shard != local
    requires (forall id | id in items :: home(id) == shard) && s'.shards == s.shards[shard := items] && Rebuilt(s')
    requires IsDiff(eq, Items(s.shards, shard), items, e)
    ensures Reported(home, eq, local, origin, left - {shard}, s', Joined(d, e))
  {
    assert Homes(home, s'.shards) by {
      forall other, id | HeldIn(s'.shards, other, id) ensures home(id) == other {
        if other != shard { assert HeldIn(s.shards, other, id); }
      }
    }
    RebuiltIsFlat(home, s');
    ShardReport(home, eq, s, s', shard, items, e);
    JoinedDiff(eq, origin, s.data, s'.data, d, e, id => home(id) == shard);
  }

  lemma ReportMore<T(!new)>(
    home: string -> string, eq: Equality<T>, local: string, origin: map<string, T>, left: set<string>, s: State<T>,
    d: Diff<T>,
    shard: string, loaded: map<string, map<string, T>>, s': State<T>, e: Diff<T>)
    requires Equivalence(eq) && shard in left && shard in loaded && shard != local
    requires s'.shards == s.shards[shard := loaded[shard]] && Rebuilt(s')
    requires IsDiff(eq, Items(s.shards, shard), loaded[shard], e)
    ensures Homes(home, Merged(loaded, local, left - {shard})) ==> Homes(home, Merged(loaded, local, left))
    ensures Homes(home, Merged(loaded, local, left - {shard})) && Reported(home, eq, local, origin, left, s, d) ==>
      Reported(home, eq, local, origin, left - {shard}, s', Joined(d, e))
  {
    var more := Merged(loaded, local, left - {shard});
    if Homes(home, more) {
      forall other, id | HeldIn(Merged(loaded, local, left), other, id) ensures home(id) == other {
        assert HeldIn(more, other, id);
      }
      if Reported(home, eq, local, origin, left, s, d) {
        forall id | id in loaded[shard] ensures home(id) == shard {
          assert HeldIn(more, shard, id);
        }
        ReportOneShard(home, eq, local, origin, left, s, d, shard, loaded[shard], s', e);
      }
    }
  }

  /** Taking over our own items, the first thing a synchronisation does. */
  lemma LocalReport<T(!new)>(
    home: string -> string, eq: Equality<T>, local: string, s: State<T>, items: map<string, T>, s': State<T>,
    d: Diff<T>,
    left: set<string>)
    requires Equivalence(eq) && local in s.shards && s'.shards == s.shards[local := items] && Rebuilt(s')
    requires IsDiff(eq, Items(s.shards, local), items, d)
    ensures Invariant(home, local, s) && (forall id | id in items :: home(id) == local) ==>
      Reported(home, eq, local, s.data, left, s', d)
  {
    if Invariant(home, local, s) && (forall id | id in items :: home(id) == local) {
      assert Homes(home, s'.shards) by {
        forall other, id | HeldIn(s'.shards, other, id) ensures home(id) == other {
          if other != local { assert HeldIn(s.shards, other, id); }
        }
      }
      RebuiltIsFlat(home, s');
      ShardReport(home, eq, s, s', local, items, d);
    }
  }

  /** What a synchronisation does, from its three parts. */
  lemma SyncOutcome<T(!new)>(
    home: string -> string, eq: Equality<T>, local: string, s: State<T>, items: map<string, T>, start: State<T>,
    d: Diff<T>,
    shards: map<string, map<string, T>>, left: set<string>, s': State<T>, d': Diff<T>)
    requires Equivalence(eq) && local in s.shards && start.shards == s.shards[local := items] && Rebuilt(start)
    requires IsDiff(eq, Items(s.shards, local), items, d)
    requires s'.shards == start.shards + Merged(shards, local, left) && Rebuilt(s')
    requires Reported(home, eq, local, s.data, shards.Keys, start, d) && Homes(home, Merged(shards, local, left)) ==>
               Reported(home, eq, local, s.data, left, s', d')
    ensures left == {} ==> Merged(shards, local, left) == shards - {local}
    ensures var op := Sync(items, Merged(shards, local, left));
            && local in s'.shards && Transition(local, s, op, s')
            && (Invariant(home, local, s) && AtHome(home, local, op) ==>
                  Invariant(home, local, s') && IsDiff(eq, s.data, s'.data, d'))
  {
    var merged := Merged(shards, local, left);
    LocalReport(home, eq, local, s, items, start, d, shards.Keys);
    assert merged - {local} == merged;
    if Invariant(home, local, s) && AtHome(home, local, Sync(items, merged)) {
      FlatIndexStep(home, local, s, Sync(items, merged), s');
    }
  }

  // ---------- what etcd holds ----------

  /** An item is stored under its shard and its id. */
  datatype ItemKey = ItemKey(shard: string, id: string)

  predicate AllDecode<T>(c: Codec<T>, kv: map<ItemKey, string>) {
    forall k | k in kv :: c.decode(kv[k]).Some?
  }

  function ShardIn<T>(c: Codec<T>, kv: map<ItemKey, string>, shard: string): map<string, T>
    requires AllDecode(c, kv)
  {
    var ids := set k | k in kv && k.shard == shard :: k.id;
    map id | id in ids :: c.decode(kv[ItemKey(shard, id)]).value
  }

  function Grouped<T>(c: Codec<T>, kv: map<ItemKey, string>): map<string, map<string, T>>
    requires AllDecode(c, kv)
  {
    var shards := set k | k in kv :: k.shard;
    map shard | shard in shards :: ShardIn(c, kv, shard)
  }

  /** All shards; a single item that cannot be decoded spoils the load. */
  function Loaded<T>(c: Codec<T>, kv: map<ItemKey, string>): Option<map<string, map<string, T>>> {
    if AllDecode(c, kv) then Some(Grouped(c, kv)) else None
  }

  function SetShardedItem<T>(shards: map<string, map<string, T>>, k: ItemKey, item: T): map<string, map<string, T>> {
    shards[k.shard := Items(shards, k.shard)[k.id := item]]
  }

  /** `shards` has exactly the items of the keys outside `left`, and no empty shard. */
  ghost predicate Groups<T>(c: Codec<T>, kv: map<ItemKey, string>, left: set<ItemKey>,
    shards: map<string, map<string, T>>) {
    && (forall k | k in kv && k !in left :: c.decode(kv[k]).Some?)
    && (forall k: ItemKey :: HeldIn(shards, k.shard, k.id) <==> k in kv && k !in left)
    && (forall k: ItemKey | HeldIn(shards, k.shard, k.id) :: c.decode(kv[k]) == Some(shards[k.shard][k.id]))
    && (forall shard | shard in shards :: shards[shard] != map[])
  }

  lemma GroupsAll<T>(c: Codec<T>, kv: map<ItemKey, string>, shards: map<string, map<string, T>>)
    requires Groups(c, kv, {}, shards)
    ensures AllDecode(c, kv) && shards == Grouped(c, kv)
  {
    forall shard ensures shard in shards <==> shard in Grouped(c, kv) {
      LoadedShard(c, kv, shard);
      if shard in shards {
        var id :| id in shards[shard];
        assert HeldIn(shards, ItemKey(shard, id).shard, ItemKey(shard, id).id);
      }
    }
    forall shard | shard in shards ensures shards[shard] == ShardIn(c, kv, shard) {
      GroupsShard(c, kv, shards, shard);
    }
  }

  lemma GroupsShard<T>(c: Codec<T>, kv: map<ItemKey, string>, shards: map<string, map<string, T>>, shard: string)
    requires Groups(c, kv, {}, shards) && AllDecode(c, kv) && shard in shards
    ensures shards[shard] == ShardIn(c, kv, shard)
  {
    LoadedShard(c, kv, shard);
    forall id
      ensures id in shards[shard] <==> id in ShardIn(c, kv, shard)
      ensures id in shards[shard] ==> shards[shard][id] == ShardIn(c, kv, shard)[id]
    {
      assert HeldIn(shards, ItemKey(shard, id).shard, ItemKey(shard, id).id) <==> id in shards[shard];
    }
  }

  lemma GroupOneMore<T>(
    c: Codec<T>, kv: map<ItemKey, string>, left: set<ItemKey>, shards: map<string, map<string, T>>, k: ItemKey)
    requires Groups(c, kv, left, shards) && k in left && k in kv && c.decode(kv[k]).Some?
    ensures Groups(c, kv, left - {k}, SetShardedItem(shards, k, c.decode(kv[k]).value))
  {
    var more := SetShardedItem(shards, k, c.decode(kv[k]).value);
    forall k': ItemKey ensures HeldIn(more, k'.shard, k'.id) <==> k' == k || HeldIn(shards, k'.shard, k'.id) { }
  }

  method LoadShards<T>(c: Codec<T>, kv: map<ItemKey, string>) returns (result: Option<map<string, map<string, T>>>)
    ensures result == Loaded(c, kv)
  {
    var shards: map<string, map<string, T>> := map[];
    var left := kv.Keys;
    while left != {}
      invariant left <= kv.Keys && Groups(c, kv, left, shards)
      decreases |left|
    {
      var k :| k in left;
      var item := c.decode(kv[k]);
      if item.None? {
        return None;
      }
      GroupOneMore(c, kv, left, shards, k);
      shards := SetShardedItem(shards, k, item.value);
      left := left - {k};
    }
    GroupsAll(c, kv, shards);
    return Some(shards);
  }

  /** The keys of a shard. */
  predicate HasShard(kv: map<ItemKey, string>, shard: string) { exists k :: k in kv && k.shard == shard }

  lemma LoadedShard<T>(c: Codec<T>, kv: map<ItemKey, string>, shard: string)
    requires AllDecode(c, kv)
    ensures shard in Loaded(c, kv).value <==> HasShard(kv, shard)
    ensures forall id :: id in ShardIn(c, kv, shard) <==> ItemKey(shard, id) in kv
  {
    forall id ensures id in ShardIn(c, kv, shard) <==> ItemKey(shard, id) in kv {
      if ItemKey(shard, id) in kv {
        assert ItemKey(shard, id).id == id;
      }
    }
  }

  /** The part of etcd that belongs to a shard holds exactly these items. */
  ghost predicate ShardHolds<T>(c: Codec<T>, kv: map<ItemKey, string>, shard: string, items: map<string, T>) {
    && (forall id | id in items :: ItemKey(shard, id) in kv && kv[ItemKey(shard, id)] == c.encode(items[id]))
    && (forall id | ItemKey(shard, id) in kv :: id in items)
  }

  ghost predicate SameElsewhere(kv: map<ItemKey, string>, kv': map<ItemKey, string>, shard: string) {
    forall k: ItemKey | k.shard != shard && (k in kv || k in kv') :: k in kv && k in kv' && kv[k] == kv'[k]
  }

  /** The contents after storing the items of a shard and deleting what else is held of it. */
  function Updated<T>(c: Codec<T>, shard: string, items: map<string, T>, held: set<string>, kv: map<ItemKey, string>)
    : map<ItemKey, string>
  {
    map k | k in (kv.Keys - KeysOf(shard, held)) + KeysOf(shard, items.Keys) ::
      if k.shard == shard && k.id in items then c.encode(items[k.id]) else kv[k]
  }

  function KeysOf(shard: string, ids: set<string>): set<ItemKey> { set id | id in ids :: ItemKey(shard, id) }

  lemma StoredOne<T>(c: Codec<T>, shard: string, items: map<string, T>, left: set<string>, id: string,
    kv: map<ItemKey, string>)
    requires id in left && id in items
    ensures Updated(c, shard, items - (left - {id}), {}, kv) ==
            Updated(c, shard, items - left, {}, kv)[ItemKey(shard, id) := c.encode(items[id])]
  {
  }

  lemma DroppedAfterStored<T>(c: Codec<T>, shard: string, items: map<string, T>, held: set<string>,
    kv: map<ItemKey, string>)
    ensures Updated(c, shard, items, {}, kv) - KeysOf(shard, held - items.Keys) == Updated(c, shard, items, held, kv)
  {
  }

  /** What the loop over the loaded shards has done to etcd. */
  ghost predicate PublishedBy<T>(
    c: Codec<T>, local: string, shards: map<string, map<string, T>>, left: set<string>, items: map<string, T>,
    kv: map<ItemKey, string>, kv': map<ItemKey, string>)
  {
    kv' == if local in shards && local !in left then Updated(c, local, items, shards[local].Keys, kv) else kv
  }

  lemma UpdatedHolds<T>(c: Codec<T>, shard: string, items: map<string, T>, held: set<string>, kv: map<ItemKey, string>)
    requires forall id | ItemKey(shard, id) in kv :: id in held
    ensures ShardHolds(c, Updated(c, shard, items, held, kv), shard, items)
    ensures SameElsewhere(kv, Updated(c, shard, items, held, kv), shard)
  {
  }

  lemma NothingHeld<T>(c: Codec<T>, shard: string, items: map<string, T>, kv: map<ItemKey, string>)
    requires !HasShard(kv, shard)
    ensures ShardHolds(c, kv, shard, items) <==> items == map[]
  {
    forall id ensures ItemKey(shard, id) !in kv {
      assert ItemKey(shard, id).shard == shard;
    }
    if items != map[] {
      var id :| id in items;
    }
  }

  /** Our items are published exactly if etcd had something of our shard, or there is nothing to
      publish; nothing else changes. */
  ghost predicate Publishes<T>(
    c: Codec<T>, local: string, items: map<string, T>, kv: map<ItemKey, string>, kv': map<ItemKey, string>)
  {
    && SameElsewhere(kv, kv', local)
    && (!HasShard(kv, local) ==> kv' == kv)
    && (ShardHolds(c, kv', local, items) <==> HasShard(kv, local) || items == map[])
  }

  lemma LoopPublishes<T>(
    c: Codec<T>, local: string, items: map<string, T>, kv: map<ItemKey, string>, kv': map<ItemKey, string>)
    requires AllDecode(c, kv) && PublishedBy(c, local, Loaded(c, kv).value, {}, items, kv, kv')
    ensures Publishes(c, local, items, kv, kv')
  {
    LoadedShard(c, kv, local);
    if HasShard(kv, local) {
      UpdatedHolds(c, local, items, ShardIn(c, kv, local).Keys, kv);
    } else {
      NothingHeld(c, local, items, kv);
    }
  }

  // ---------- the store ----------

  class ShardedDistributedStore<T(!new)> {
    const server: Server<ItemKey, string>
    const eq: Equality<T>
    const codec: Codec<T>
    const localShardKey: string
    var shardedData: map<string, map<string, T>>
    var data: map<string, T>
    var itemToShardKey: map<string, string>
    var notified: seq<Event<T>>
    ghost const home: string -> string

    ghost function Abs(): State<T> reads this { State(shardedData, data, itemToShardKey) }

    ghost predicate Valid() reads this, server {
      server.Valid() && Equivalence(eq) && RoundTrips(codec) && localShardKey in shardedData
    }

    /** The index is exact. */
    ghost predicate Tidy() reads this { Invariant(home, localShardKey, Abs()) }

    constructor (server: Server<ItemKey, string>, eq: Equality<T>, codec: Codec<T>, localShardKey: string,
      ghost home: string -> string)
      requires server.Valid() && Equivalence(eq) && RoundTrips(codec)
      ensures Valid() && Tidy() && notified == [] && data == map[]
      ensures this.server == server && this.eq == eq && this.codec == codec && this.localShardKey == localShardKey
          && this.home == home
    {
      this.server, this.eq, this.codec, this.localShardKey, this.home := server, eq, codec, localShardKey, home;
      shardedData, data, itemToShardKey, notified := map[localShardKey := map[]], map[], map[], [];
      InitialState<T>(home, localShardKey);
    }

    method AddOrUpdateItem(id: string, item: T)
      returns (ok: bool, ghost d: Diff<T>, ghost path: seq<map<ItemKey, string>>)
      requires Valid()
      modifies this, server
      ensures Valid() && Transition(localShardKey, old(Abs()), AddOrUpdate(id, item), Abs())
      ensures server.reliable ==> ok
      ensures PutEffect(server, old(server.kv), ItemKey(localShardKey, id), codec.encode(item), path, ok, server.kv)
      ensures server.Quiet() ==> server.kv == old(server.kv)[ItemKey(localShardKey, id) := codec.encode(item)]
      ensures notified == old(notified) + (if ok then EventsOf(d) else [])
      ensures old(Tidy()) && home(id) == localShardKey ==> Tidy() && IsDiff(eq, old(data), data, d)
    {
      var items := shardedData[localShardKey];
      var report := PutDiff(eq, items, id, item);
      d := report;
      shardedData := shardedData[localShardKey := items[id := item]];
      data := data[id := item];
      itemToShardKey := itemToShardKey[id := localShardKey];
      if old(Tidy()) && home(id) == localShardKey {
        FlatIndexStep(home, localShardKey, old(Abs()), AddOrUpdate(id, item), Abs());
        PutDiffIsDiff(eq, items, id, item);
        ShardReport(home, eq, old(Abs()), Abs(), localShardKey, items[id := item], d);
      }
      var written;
      ok, written, path := PutIfNewOrChanged(server, ItemKey(localShardKey, id), codec.encode(item));
      if ok {
        notified := notified + EventsOf(report);
      }
    }

    method DeleteItem(id: string) returns (ok: bool, ghost d: Diff<T>, ghost at: map<ItemKey, string>)
      requires Valid()
      modifies this, server
      ensures Valid() && Transition(localShardKey, old(Abs()), Delete(id), Abs())
      ensures server.reliable ==> ok
      ensures DeleteEffect(server, old(server.kv), ItemKey(localShardKey, id), at, ok, server.kv)
      ensures server.Quiet() ==> server.kv == old(server.kv) - {ItemKey(localShardKey, id)}
      ensures notified == old(notified) + (if ok then EventsOf(d) else [])
      ensures old(Tidy()) && home(id) == localShardKey ==> Tidy() && IsDiff(eq, old(data), data, d)
    {
      var items := shardedData[localShardKey];
      var report := DeleteDiff(items, id);
      d := report;
      shardedData := shardedData[localShardKey := items - {id}];
      data := data - {id};
      itemToShardKey := itemToShardKey - {id};
      if old(Tidy()) && home(id) == localShardKey {
        FlatIndexStep(home, localShardKey, old(Abs()), Delete(id), Abs());
        DeleteDiffIsDiff(eq, items, id);
        ShardReport(home, eq, old(Abs()), Abs(), localShardKey, items - {id}, d);
      }
      ok, at := DeleteKey(server, ItemKey(localShardKey, id));
      if ok {
        notified := notified + EventsOf(report);
      }
    }

    /** A put in another shard.  What cannot be decoded, or is of our own shard, is ignored. */
    method HandlePut(shard: string, id: string, value: string) returns (ghost d: Diff<T>)
      requires Valid()
      modifies this
      ensures Valid() && notified == old(notified) + EventsOf(d)
      ensures codec.decode(value).None? ==> Abs() == old(Abs()) && d == Diff([], [], [])
      ensures codec.decode(value).Some? ==>
        Transition(localShardKey, old(Abs()), WatchPut(shard, id, codec.decode(value).value), Abs())
      ensures old(Tidy()) && home(id) == shard ==> Tidy() && IsDiff(eq, old(data), data, d)
    {
      d := Diff([], [], []);
      var item := codec.decode(value);
      if shard == localShardKey || item.None? {
        assert IsDiff(eq, data, data, d);
        return;
      }
      var items := Items(shardedData, shard);
      var report := PutDiff(eq, items, id, item.value);
      d := report;
      shardedData := shardedData[shard := items[id := item.value]];
      data := data[id := item.value];
      if old(Tidy()) && home(id) == shard {
        FlatIndexStep(home, localShardKey, old(Abs()), WatchPut(shard, id, item.value), Abs());
        PutDiffIsDiff(eq, items, id, item.value);
        ShardReport(home, eq, old(Abs()), Abs(), shard, items[id := item.value], d);
      }
      notified := notified + EventsOf(report);
    }

    /** A delete in another shard. */
    method HandleDelete(shard: string, id: string) returns (ghost d: Diff<T>)
      requires Valid()
      modifies this
      ensures Valid() && notified == old(notified) + EventsOf(d)
      ensures Transition(localShardKey, old(Abs()), WatchDelete(shard, id), Abs())
      ensures IsDiff(eq, old(data), data, d)
      ensures old(Tidy()) && home(id) == shard ==> Tidy()
    {
      d := Diff([], [], []);
      if shard == localShardKey {
        assert IsDiff(eq, data, data, d);
        return;
      }
      var report := DeleteDiff(data, id);
      d := report;
      DeleteDiffIsDiff(eq, data, id);
      if shard in shardedData {
        shardedData := shardedData[shard := shardedData[shard] - {id}];
      }
      data := data - {id};
      itemToShardKey := itemToShardKey - {id};
      if old(Tidy()) && home(id) == shard {
        FlatIndexStep(home, localShardKey, old(Abs()), WatchDelete(shard, id), Abs());
      }
      notified := notified + EventsOf(report);
    }

    /** Our shard from the caller, the others from etcd.  What etcd has of our shard is brought in line
        with the items, if it has any.  `at` is what was read, `loaded` the other shards as far as
        they were taken over. */
    method Synchronize(localItems: map<string, T>, callHandlers: bool)
      returns (ok: bool, ghost d: Diff<T>, ghost loaded: map<string, map<string, T>>, ghost at: map<ItemKey, string>)
      requires Valid()
      modifies this, server
      ensures Valid() && Transition(localShardKey, old(Abs()), Sync(localItems, loaded), Abs())
      ensures server.rely(old(server.kv), at) && (server.reliable ==> (ok <==> AllDecode(codec, at)))
      ensures ok ==> AllDecode(codec, at) && loaded == Loaded(codec, at).value - {localShardKey}
      ensures notified == old(notified) + (if ok && callHandlers then EventsOf(d) else [])
      ensures old(Tidy()) && AtHome(home, localShardKey, Sync(localItems, loaded)) ==>
        Tidy() && IsDiff(eq, old(data), data, d)
      // our items are published exactly if etcd had something of our shard, or there is nothing to publish
      ensures server.Quiet() && ok ==> Publishes(codec, localShardKey, localItems, old(server.kv), server.kv)
    {
      var report;
      ok, report, loaded, at := SyncShards(localItems);
      d := report;
      if ok && callHandlers {
        notified := notified + EventsOf(report);
      }
    }

    method SyncShards(localItems: map<string, T>)
      returns (ok: bool, d: Diff<T>, ghost loaded: map<string, map<string, T>>, ghost at: map<ItemKey, string>)
      requires Valid()
      modifies this`shardedData, this`data, this`itemToShardKey, server
      ensures Valid() && Transition(localShardKey, old(Abs()), Sync(localItems, loaded), Abs())
      ensures server.rely(old(server.kv), at) && (server.reliable ==> (ok <==> AllDecode(codec, at)))
      ensures ok ==> AllDecode(codec, at) && loaded == Loaded(codec, at).value - {localShardKey}
      ensures old(Tidy()) && AtHome(home, localShardKey, Sync(localItems, loaded)) ==>
        Tidy() && IsDiff(eq, old(data), data, d)
      ensures server.Quiet() && ok ==> Publishes(codec, localShardKey, localItems, old(server.kv), server.kv)
    {
      ghost var origin := Abs();
      d := SyncToInternalState(localShardKey, localItems);
      ghost var start, d0 := Abs(), d;
      var shards;
      shards, at := LoadData();
      if shards.None? {
        loaded := map[];
        SyncOutcome(home, eq, localShardKey, origin, localItems, start, d0, map[], {}, start, d0);
        return false, d, loaded, at;
      }
      ghost var left;
      ok, d, loaded, left := TakeOver(shards.value, localItems, d, origin.data);
      SyncOutcome(home, eq, localShardKey, origin, localItems, start, d0, shards.value, left, Abs(), d);
      if server.Quiet() {
        LoopPublishes(codec, localShardKey, localItems, at, server.kv);
      }
    }

    method LoadData() returns (shards: Option<map<string, map<string, T>>>, ghost at: map<ItemKey, string>)
      requires server.Valid()
      modifies server
      ensures server.rely(old(server.kv), at) && server.kv == at
      ensures shards.Some? ==> AllDecode(codec, at) && shards == Loaded(codec, at)
      ensures server.reliable ==> (shards.Some? <==> AllDecode(codec, at))
    {
      var contents := server.Read();
      at := server.kv;
      if contents.None? {
        return None, at;
      }
      shards := LoadShards(codec, contents.value);
    }

    /** The loop over the loaded shards; `left` are those it did not come to. */
    method TakeOver(shards: map<string, map<string, T>>, localItems: map<string, T>, d: Diff<T>,
      ghost origin: map<string, T>)
      returns (ok: bool, d': Diff<T>, ghost loaded: map<string, map<string, T>>, ghost left': set<string>)
      requires Valid() && Rebuilt(Abs())
      modifies this`shardedData, this`data, this`itemToShardKey, server
      ensures shardedData == old(shardedData) + loaded && Rebuilt(Abs())
      ensures loaded == Merged(shards, localShardKey, left') && (ok ==> left' == {}) && (server.reliable ==> ok)
      ensures old(Reported(home, eq, localShardKey, origin, shards.Keys, Abs(), d)) && Homes(home, loaded) ==>
        Reported(home, eq, localShardKey, origin, left', Abs(), d')
      ensures server.Quiet() ==> PublishedBy(codec, localShardKey, shards, {}, localItems, old(server.kv), server.kv)
    {
      var left := shards.Keys;
      ok, d' := true, d;
      ghost var start := Abs();
      loaded := Merged(shards, localShardKey, left);
      assert shardedData + loaded == shardedData;
      while left != {}
        invariant left <= shards.Keys && Rebuilt(Abs())
        invariant loaded == Merged(shards, localShardKey, left) && shardedData == start.shards + loaded
        invariant Reported(home, eq, localShardKey, origin, shards.Keys, start, d) && Homes(home, loaded) ==>
                    Reported(home, eq, localShardKey, origin, left, Abs(), d')
        invariant server.Quiet() ==> PublishedBy(codec, localShardKey, shards, left, localItems, old(server.kv),
            server.kv)
        decreases |left|
      {
        var shard :| shard in left;
        MergedGrows(start.shards, shards, localShardKey, left, shard);
        if shard != localShardKey {
          ghost var before := Abs();
          var e := SyncToInternalState(shard, shards[shard]);
          ReportMore(home, eq, localShardKey, origin, left, before, d', shard, shards, Abs(), e);
          d' := Joined(d', e);
        } else {
          ok := PublishLocal(localItems, shards[shard].Keys);
          if !ok {
            return ok, d', loaded, left;
          }
        }
        left := left - {shard};
        loaded := Merged(shards, localShardKey, left);
      }
      left' := left;
    }

    /** Store the items of our shard, and delete what else etcd holds of it. */
    method PublishLocal(items: map<string, T>, held: set<string>) returns (ok: bool)
      requires Valid()
      modifies server
      ensures server.reliable ==> ok
      ensures server.Quiet() ==> server.kv == Updated(codec, localShardKey, items, held, old(server.kv))
    {
      ok := StoreItems(items);
      if ok {
        ok := DropItems(held - items.Keys);
      }
      DroppedAfterStored(codec, localShardKey, items, held, old(server.kv));
    }

    method StoreItems(items: map<string, T>) returns (ok: bool)
      requires Valid()
      modifies server
      ensures server.reliable ==> ok
      ensures server.Quiet() ==> server.kv == Updated(codec, localShardKey, items, {}, old(server.kv))
    {
      var left := items.Keys;
      assert server.kv == Updated(codec, localShardKey, items - left, {}, server.kv);
      while left != {}
        invariant left <= items.Keys
        invariant server.Quiet() ==> server.kv == Updated(codec, localShardKey, items - left, {}, old(server.kv))
        decreases |left|
      {
        var id :| id in left;
        var stored, written, path := PutIfNewOrChanged(server, ItemKey(localShardKey, id), codec.encode(items[id]));
        if !stored {
          return false;
        }
        StoredOne(codec, localShardKey, items, left, id, old(server.kv));
        left := left - {id};
      }
      assert items - left == items;
      return true;
    }

    method DropItems(ids: set<string>) returns (ok: bool)
      requires Valid()
      modifies server
      ensures server.reliable ==> ok
      ensures server.Quiet() ==> server.kv == old(server.kv) - KeysOf(localShardKey, ids)
    {
      var left := ids;
      assert server.kv == server.kv - KeysOf(localShardKey, ids - left);
      while left != {}
        invariant left <= ids
        invariant server.Quiet() ==> server.kv == old(server.kv) - KeysOf(localShardKey, ids - left)
        decreases |left|
      {
        var id :| id in left;
        var deleted, at := DeleteKey(server, ItemKey(localShardKey, id));
        if !deleted {
          return false;
        }
        assert KeysOf(localShardKey, ids - (left - {id})) ==
          KeysOf(localShardKey, ids - left) + {ItemKey(localShardKey, id)};
        left := left - {id};
      }
      assert ids - left == ids;
      return true;
    }

    /** Replace a shard and rebuild the index from all shards. */
    method SyncToInternalState(shardKey: string, truth: map<string, T>) returns (d: Diff<T>)
      modifies this`shardedData, this`data, this`itemToShardKey
      ensures shardedData == old(shardedData)[shardKey := truth] && Rebuilt(Abs())
      ensures IsDiff(eq, Items(old(shardedData), shardKey), truth, d)
    {
      d := ComputeDiff(eq, Items(shardedData, shardKey), truth);
      shardedData := shardedData[shardKey := truth];
      Rebuild();
    }

    method Rebuild()
      modifies this`data, this`itemToShardKey
      ensures Rebuilt(Abs())
    {
      data := map[];
      var left := shardedData.Keys;
      while left != {}
        invariant left <= shardedData.Keys
        invariant IndexOf(shardedData, left, data, itemToShardKey)
        decreases |left|
      {
        var shard :| shard in left;
        label before:
        var ids := shardedData[shard].Keys;
        while ids != {}
          invariant ids <= shardedData[shard].Keys
          invariant Indexed(shardedData, data, itemToShardKey)
          invariant forall id :: id in data <==> id in old@before(data) || (id in shardedData[shard] && id !in ids)
          decreases |ids|
        {
          var id :| id in ids;
          data := data[id := shardedData[shard][id]];
          itemToShardKey := itemToShardKey[id := shard];
          ids := ids - {id};
          assert HeldIn(shardedData, shard, id);
        }
        left := left - {shard};
        assert IndexOf(shardedData, left, data, itemToShardKey) by {
          forall id ensures id in data <==> exists other :: other !in left && HeldIn(shardedData, other, id) {
            if id in data && id !in old@before(data) { assert HeldIn(shardedData, shard, id); }
          }
        }
      }
      forall id ensures id in data <==> Held(shardedData, id) {
        if Held(shardedData, id) {
          var other :| HeldIn(shardedData, other, id);
          assert other !in left && HeldIn(shardedData, other, id);
        }
      }
    }
  }

  /** Every indexed item stands for one of the shards that hold it. */
  ghost predicate Indexed<T>(shards: map<string, map<string, T>>, data: map<string, T>,
    itemToShard: map<string, string>) {
    forall id | id in data ::
      id in itemToShard && HeldIn(shards, itemToShard[id], id) && data[id] == shards[itemToShard[id]][id]
  }

  /** The items of the shards outside `left` are indexed, and no others. */
  ghost predicate IndexOf<T>(
    shards: map<string, map<string, T>>, left: set<string>, data: map<string, T>, itemToShard: map<string, string>)
  {
    && Indexed(shards, data, itemToShard)
    && (forall id :: id in data <==> exists other :: other !in left && HeldIn(shards, other, id))
  }
}
