/**
 The stores that keep a map of items in step with an etcd prefix: one that only reads and
 follows a watch, and one that only writes.  Every operation that changes the map reports the
 difference to the handlers; `notified` is the log of the handler calls.
 */
module Stores {
  import opened Common
  import opened Etcd
  import opened Notifications

  /** How items are written to etcd (JSON in the source). */
  datatype Codec<!T> = Codec(encode: T -> string, decode: string -> Option<T>)

  ghost predicate RoundTrips<T(!new)>(c: Codec<T>) {
    forall x: T :: c.decode(c.encode(x)) == Some(x)
  }

  /** A key below the prefix that is nested deeper is ignored. */
  predicate IsItemKey(key: string) { '/' !in key }

  predicate Readable<T>(c: Codec<T>, kv: map<string, string>, key: string) {
    key in kv && IsItemKey(key) && c.decode(kv[key]).Some?
  }

  /** The decodable contents under the prefix. */
  function Contents<T>(c: Codec<T>, kv: map<string, string>): map<string, T> {
    map key | key in kv && Readable(c, kv, key) :: c.decode(kv[key]).value
  }

  method LoadData<T>(c: Codec<T>, kv: map<string, string>) returns (result: map<string, T>)
    ensures result == Contents(c, kv)
    ensures forall key :: key in result <==> key in kv && '/' !in key && c.decode(kv[key]).Some?
    ensures forall key | key in result :: c.decode(kv[key]) == Some(result[key])
  {
    result := map[];
    var left := kv.Keys;
    while left != {}
      invariant left <= kv.Keys
      invariant forall id :: id in result <==> id !in left && Readable(c, kv, id)
      invariant forall id | id in result :: result[id] == c.decode(kv[id]).value
      decreases |left|
    {
      var key :| key in left;
      if IsItemKey(key) {
        var item := c.decode(kv[key]);
        if item.Some? {
          result := result[key := item.value];
        }
      }
      left := left - {key};
    }
  }

  /** The lists of added, changed and removed items, in whatever order the maps are walked. */
  method ComputeDiff<T(!new)>(eq: Equality<T>, data: map<string, T>, truth: map<string, T>) returns (d: Diff<T>)
    ensures IsDiff(eq, data, truth, d)
  {
    var added, changes := AddedAndChanged(eq, data, truth);
    var removed := RemovedItems(data, truth);
    d := Diff(added, changes, removed);
  }

  method AddedAndChanged<T(!new)>(eq: Equality<T>, data: map<string, T>, truth: map<string, T>)
    returns (added: seq<Item<T>>, changes: seq<ItemChange<T>>)
    ensures forall i, j | 0 <= i < j < |added| :: added[i].id != added[j].id
    ensures forall i, j | 0 <= i < j < |changes| :: changes[i].id != changes[j].id
    ensures forall id, v :: Item(id, v) in added <==> id in truth && id !in data && v == truth[id]
    ensures forall id, p, c :: ItemChange(id, p, c) in changes <==>
              Retained(data, truth, id) && p == data[id] && c == truth[id] && !eq(p, c)
  {
    added, changes := [], [];
    var left := truth.Keys;
    while left != {}
      invariant left <= truth.Keys
      invariant forall i, j | 0 <= i < j < |added| :: added[i].id != added[j].id
      invariant forall i, j | 0 <= i < j < |changes| :: changes[i].id != changes[j].id
      invariant forall i | 0 <= i < |added| :: added[i].id !in left
      invariant forall i | 0 <= i < |changes| :: changes[i].id !in left
      invariant forall id, v :: Item(id, v) in added <==> id in truth && id !in left && id !in data && v == truth[id]
      invariant forall id, p, c :: ItemChange(id, p, c) in changes <==>
                  Retained(data, truth, id) && id !in left && p == data[id] && c == truth[id] && !eq(p, c)
      decreases |left|
    {
      var id :| id in left;
      if id in data {
        if !eq(data[id], truth[id]) {
          changes := changes + [ItemChange(id, data[id], truth[id])];
        }
      } else {
        added := added + [Item(id, truth[id])];
      }
      left := left - {id};
    }
  }

  method RemovedItems<T(!new)>(data: map<string, T>, truth: map<string, T>) returns (removed: seq<Item<T>>)
    ensures forall i, j | 0 <= i < j < |removed| :: removed[i].id != removed[j].id
    ensures forall id, v :: Item(id, v) in removed <==> id in data && id !in truth && v == data[id]
  {
    removed := [];
    var left := data.Keys - truth.Keys;
    while left != {}
      invariant left <= data.Keys - truth.Keys
      invariant forall i, j | 0 <= i < j < |removed| :: removed[i].id != removed[j].id
      invariant forall i | 0 <= i < |removed| :: removed[i].id !in left
      invariant forall id, v :: Item(id, v) in removed <==> id in data && id !in truth && id !in left && v == data[id]
      decreases |left|
    {
      var id :| id in left;
      removed := removed + [Item(id, data[id])];
      left := left - {id};
    }
  }

  /** The report of a single put. */
  function PutDiff<T>(eq: Equality<T>, data: map<string, T>, id: string, item: T): Diff<T> {
    if id !in data then Diff([Item(id, item)], [], [])
    else if eq(data[id], item) then Diff([], [], [])
    else Diff([], [ItemChange(id, data[id], item)], [])
  }

  lemma PutDiffIsDiff<T(!new)>(eq: Equality<T>, data: map<string, T>, id: string, item: T)
    requires Equivalence(eq)
    ensures IsDiff(eq, data, data[id := item], PutDiff(eq, data, id, item))
  {
  }

  function DeleteDiff<T>(data: map<string, T>, id: string): Diff<T> {
    if id in data then Diff([], [], [Item(id, data[id])]) else Diff([], [], [])
  }

  lemma DeleteDiffIsDiff<T(!new)>(eq: Equality<T>, data: map<string, T>, id: string)
    requires Equivalence(eq)
    ensures IsDiff(eq, data, data - {id}, DeleteDiff(data, id))
  {
  }

  /** Equal contents leave nothing to report. */
  lemma NoNews<T(!new)>(eq: Equality<T>, data: map<string, T>, d: Diff<T>)
    requires Equivalence(eq) && IsDiff(eq, data, data, d)
    ensures d == Diff([], [], []) && EventsOf(d) == []
  {
    forall id ensures !Mentions(d.added, id) && !Mentions(Currents(d.changes), id) && !Mentions(d.removed, id) {
      DiffAt(eq, data, data, d, id);
    }
    UnmentionedIsEmpty(d.added);
    UnmentionedIsEmpty(Currents(d.changes));
    UnmentionedIsEmpty(d.removed);
  }

  lemma UnmentionedIsEmpty<T>(items: seq<Item<T>>)
    ensures items == [] || Mentions(items, items[0].id)
  {
  }

  // ---------- the reading store ----------

  datatype WatchEvent = PutEvent(key: string, value: string) | DeleteEvent(key: string)

  class ReadOnlyStore<T(!new)> {
    const server: Server<string, string>
    const eq: Equality<T>
    const codec: Codec<T>
    var data: map<string, T>
    var notified: seq<Event<T>>

    ghost predicate Valid() reads server {
      server.Valid() && Equivalence(eq) && RoundTrips(codec)
    }

    constructor (server: Server<string, string>, eq: Equality<T>, codec: Codec<T>)
      requires server.Valid() && Equivalence(eq) && RoundTrips(codec)
      ensures Valid() && data == map[] && notified == [] && this.server == server && this.eq == eq
          && this.codec == codec
    {
      this.server, this.eq, this.codec, data, notified := server, eq, codec, map[], [];
    }

    method Sync(callHandlers: bool) returns (ok: bool, ghost d: Diff<T>)
      requires Valid()
      modifies this, server
      ensures ok ==>
        && data == Contents(codec, server.kv) && IsDiff(eq, old(data), data, d)
        && notified == old(notified) + (if callHandlers then EventsOf(d) else [])
      ensures !ok ==> data == old(data) && notified == old(notified) && d == Diff([], [], [])
      ensures server.rely(old(server.kv), server.kv) && (server.reliable ==> ok)
    {
      var contents := server.Read();
      d := Diff([], [], []);
      if contents.None? {
        return false, d;
      }
      var truth := LoadData(codec, contents.value);
      var diff := ComputeDiff(eq, data, truth);
      data := truth;
      if callHandlers {
        notified := notified + EventsOf(diff);
      }
      return true, diff;
    }

    /** One event of the watch.  A put that cannot be read changes nothing. */
    method HandleEvent(e: WatchEvent) returns (ghost d: Diff<T>)
      requires Valid()
      modifies this
      ensures IsDiff(eq, old(data), data, d) && notified == old(notified) + EventsOf(d)
      ensures e.DeleteEvent? ==> data == old(data) - {e.key}
      ensures e.PutEvent? && '/' !in e.key && codec.decode(e.value).Some? ==>
        data == old(data)[e.key := codec.decode(e.value).value]
      ensures e.PutEvent? && !('/' !in e.key && codec.decode(e.value).Some?) ==> data == old(data)
    {
      match e {
        case PutEvent(key, value) =>
          var item := codec.decode(value);
          if !IsItemKey(key) || item.None? {
            d := Diff([], [], []);
            assert IsDiff(eq, data, data, d);
            return;
          }
          PutDiffIsDiff(eq, data, key, item.value);
          d := PutDiff(eq, data, key, item.value);
          notified := notified + EventsOf(PutDiff(eq, data, key, item.value));
          data := data[key := item.value];
        case DeleteEvent(key) =>
          DeleteDiffIsDiff(eq, data, key);
          d := DeleteDiff(data, key);
          notified := notified + EventsOf(DeleteDiff(data, key));
          data := data - {key};
      }
    }
  }

  /** A change of etcd, as the watch reports it. */
  function Apply(kv: map<string, string>, e: WatchEvent): map<string, string> {
    match e
    case PutEvent(k, v) => kv[k := v]
    case DeleteEvent(k) => kv - {k}
  }

  function Follow<T>(c: Codec<T>, data: map<string, T>, e: WatchEvent): map<string, T> {
    match e
    case DeleteEvent(k) => data - {k}
    case PutEvent(k, v) => if IsItemKey(k) && c.decode(v).Some? then data[k := c.decode(v).value] else data
  }

  predicate Decodes<T>(c: Codec<T>, e: WatchEvent) {
    e.PutEvent? && IsItemKey(e.key) ==> c.decode(e.value).Some?
  }

  /** A store that follows the watch keeps holding the decodable contents, exactly as long as no
      unreadable value is put in the place of an item. */
  lemma FollowingTheWatchIff<T>(c: Codec<T>, kv: map<string, string>, e: WatchEvent)
    ensures Follow(c, Contents(c, kv), e) == Contents(c, Apply(kv, e))
            <==> Decodes(c, e) || (e.PutEvent? && !Readable(c, kv, e.key))
  {
    var held, current := Follow(c, Contents(c, kv), e), Contents(c, Apply(kv, e));
    if e.PutEvent? && IsItemKey(e.key) && c.decode(e.value).None? {
      assert e.key !in current;
      assert held == Contents(c, kv);
      if Readable(c, kv, e.key) {
        assert e.key in held;
      } else {
        assert held == current;
      }
    } else {
      assert held == current;
    }
  }

  // ---------- the writing store ----------

  /** What the two transactions of a put did: create the key or else, if it is there, replace another
      value.  `path` are the contents that they met. */
  ghost predicate PutEffect<K(!new), V(!new)>(
    server: Server<K, V>, before: map<K, V>, key: K, value: V, path: seq<map<K, V>>, ok: bool, after: map<K, V>)
  {
    && server.Chain(before, path) && 1 <= |path| <= 2 && (|path| == 2 ==> key in path[0])
    && var at := path[|path| - 1];
       if !ok then !server.reliable && (after == at || after == at[key := value])
       else (|path| == 1 ==> key !in at) && after == if WritesOn(key, value, path) then at[key := value] else at
  }

  /** The put writes something. */
  predicate WritesOn<K, V(==)>(key: K, value: V, path: seq<map<K, V>>)
    requires 1 <= |path| <= 2
  {
    |path| == 1 || (key in path[1] && path[1][key] != value)
  }

  /** A put that reports success has stored the value exactly if the key was not deleted between its
      two transactions. */
  lemma PutStoresIff<K(!new), V(!new)>(
    server: Server<K, V>, before: map<K, V>, key: K, value: V, path: seq<map<K, V>>, after: map<K, V>)
    requires PutEffect(server, before, key, value, path, true, after)
    ensures key in after && after[key] == value <==> |path| == 1 || key in path[1]
  {
  }

  /** `written` tells whether anything was written. */
  method PutIfNewOrChanged<K(==, !new)>(server: Server<K, string>, key: K, value: string)
    returns (ok: bool, written: bool, ghost path: seq<map<K, string>>)
    requires server.Valid()
    modifies server
    ensures server.reliable ==> ok
    ensures PutEffect(server, old(server.kv), key, value, path, ok, server.kv)
    ensures ok ==> (written <==> WritesOn(key, value, path))
    ensures server.Quiet() ==>
      && server.kv == old(server.kv)[key := value]
      && (written <==> server.kv != old(server.kv))
      && server.revision == old(server.revision) + (if written then 1 else 0)
  {
    var create := Txn([Absent(key)], map[key := value], {});
    var reply, at := server.Commit(create);
    path := [at];
    assert Holds(at, create.guards[0]) <==> Passes(at, create);
    if reply.Failed? {
      return false, false, path;
    }
    if !reply.succeeded {
      var replace := Txn([ValueIsNot(key, value)], map[key := value], {});
      reply, at := server.Commit(replace);
      server.ChainGrows(old(server.kv), path, at);
      path := path + [at];
      assert Holds(at, replace.guards[0]) <==> Passes(at, replace);
      if reply.Failed? {
        return false, false, path;
      }
    }
    return true, reply.succeeded, path;
  }

  ghost predicate DeleteEffect<K(!new), V(!new)>(
    server: Server<K, V>, before: map<K, V>, key: K, at: map<K, V>, ok: bool, after: map<K, V>)
  {
    && server.rely(before, at)
    && if ok then after == at - {key} else (!server.reliable && (after == at || after == at - {key}))
  }

  method DeleteKey<K(==, !new)>(server: Server<K, string>, key: K) returns (ok: bool, ghost at: map<K, string>)
    requires server.Valid()
    modifies server
    ensures server.reliable ==> ok
    ensures DeleteEffect(server, old(server.kv), key, at, ok, server.kv)
    ensures server.Quiet() ==>
      server.kv == old(server.kv) - {key}
      && server.revision == old(server.revision) + (if key in old(server.kv) then 1 else 0)
  {
    var reply;
    reply, at := server.Commit(Txn([], map[], {key}));
    assert {key} * at.Keys == if key in at then {key} else {};
    ok := reply.Committed?;
  }

  /** etcd holds these items, and no other item that can be read. */
  ghost predicate Published<T>(c: Codec<T>, kv: map<string, string>, items: map<string, T>) {
    && (forall id | id in items :: id in kv && kv[id] == c.encode(items[id]))
    && (forall key | key in kv && Readable(c, kv, key) :: key in items)
  }

  /** Published items with a proper id are exactly the decodable contents. */
  lemma PublishedContents<T(!new)>(c: Codec<T>, kv: map<string, string>, items: map<string, T>)
    requires RoundTrips(c) && Published(c, kv, items)
    ensures Contents(c, kv) == map id | id in items && '/' !in id :: items[id]
    ensures (forall id | id in items :: '/' !in id) ==> Contents(c, kv) == items
  {
    forall id | id in items ensures c.decode(kv[id]) == Some(items[id]) {
      assert c.decode(c.encode(items[id])) == Some(items[id]);
    }
  }

  class WriteOnlyStore<T(!new)> {
    const server: Server<string, string>
    const eq: Equality<T>
    const codec: Codec<T>
    var data: map<string, T>
    var notified: seq<Event<T>>

    ghost predicate Valid() reads server {
      server.Valid() && Equivalence(eq) && RoundTrips(codec)
    }

    constructor (server: Server<string, string>, eq: Equality<T>, codec: Codec<T>)
      requires server.Valid() && Equivalence(eq) && RoundTrips(codec)
      ensures Valid() && data == map[] && notified == [] && this.server == server && this.eq == eq
          && this.codec == codec
    {
      this.server, this.eq, this.codec, data, notified := server, eq, codec, map[], [];
    }

    /** The map is changed even if the write fails; the handlers then hear nothing.  `path` are the
        contents that the write met. */
    method AddOrUpdateItem(id: string, item: T)
      returns (ok: bool, ghost d: Diff<T>, ghost path: seq<map<string, string>>)
      requires Valid()
      modifies this, server
      ensures data == old(data)[id := item] && IsDiff(eq, old(data), data, d)
      ensures notified == old(notified) + (if ok then EventsOf(d) else [])
      ensures server.reliable ==> ok
      ensures PutEffect(server, old(server.kv), id, codec.encode(item), path, ok, server.kv)
      ensures server.Quiet() ==> server.kv == old(server.kv)[id := codec.encode(item)]
    {
      PutDiffIsDiff(eq, data, id, item);
      var report := PutDiff(eq, data, id, item);
      d := report;
      data := data[id := item];
      var written;
      ok, written, path := PutIfNewOrChanged(server, id, codec.encode(item));
      if ok {
        notified := notified + EventsOf(report);
      }
    }

    method DeleteItem(id: string) returns (ok: bool, ghost d: Diff<T>, ghost at: map<string, string>)
      requires Valid()
      modifies this, server
      ensures data == old(data) - {id} && IsDiff(eq, old(data), data, d)
      ensures notified == old(notified) + (if ok then EventsOf(d) else [])
      ensures server.reliable ==> ok
      ensures DeleteEffect(server, old(server.kv), id, at, ok, server.kv)
      ensures server.Quiet() ==> server.kv == old(server.kv) - {id}
    {
      DeleteDiffIsDiff(eq, data, id);
      var report := DeleteDiff(data, id);
      d := report;
      data := data - {id};
      ok, at := DeleteKey(server, id);
      if ok {
        notified := notified + EventsOf(report);
      }
    }

    /** Make the map and etcd hold exactly the given items. */
    method Sync(items: map<string, T>, callHandlers: bool) returns (ok: bool, ghost d: Diff<T>)
      requires Valid()
      modifies this, server
      ensures data == items && IsDiff(eq, old(data), data, d)
      ensures notified == old(notified) + (if ok && callHandlers then EventsOf(d) else [])
      ensures server.reliable ==> ok
      // without another writer etcd converges to the items, and a store that is there already
      // writes nothing and reports nothing
      ensures server.Quiet() ==> Published(codec, server.kv, items)
      ensures server.Quiet() ==> forall key | key !in items && !Readable(codec, old(server.kv), key) ::
                                   key in server.kv <==> key in old(server.kv)
      ensures server.Quiet() ==> forall key | key !in items && key in server.kv ::
                                   key in old(server.kv) && server.kv[key] == old(server.kv)[key]
      ensures server.Quiet() && old(Published(codec, server.kv, items)) ==>
        server.kv == old(server.kv) && server.revision == old(server.revision)
      ensures old(data) == items ==> notified == old(notified)
    {
      var diff := ComputeDiff(eq, data, items);
      d := diff;
      if data == items {
        NoNews(eq, data, diff);
      }
      data := items;
      var contents := server.Read();
      if contents.None? {
        return false, d;
      }
      var held := LoadData(codec, contents.value);
      ok := StoreAll(items);
      if !ok {
        return false, d;
      }
      ok := DeleteAll(held.Keys - items.Keys);
      if !ok {
        return false, d;
      }
      if callHandlers {
        notified := notified + EventsOf(diff);
      }
    }

    method StoreAll(items: map<string, T>) returns (ok: bool)
      requires Valid()
      modifies server
      ensures server.reliable ==> ok
      ensures server.Quiet() ==>
        && (forall id | id in items :: id in server.kv && server.kv[id] == codec.encode(items[id]))
        && (forall key | key !in items :: key in server.kv <==> key in old(server.kv))
        && (forall key | key !in items && key in server.kv :: server.kv[key] == old(server.kv)[key])
      ensures server.Quiet() && (forall id | id in items ::
        id in old(server.kv) && old(server.kv)[id] == codec.encode(items[id])) ==>
        server.kv == old(server.kv) && server.revision == old(server.revision)
    {
      var left := items.Keys;
      while left != {}
        invariant left <= items.Keys
        invariant server.Quiet() ==>
          && (forall id | id in items && id !in left :: id in server.kv && server.kv[id] == codec.encode(items[id]))
          && (forall key | key !in items || key in left :: key in server.kv <==> key in old(server.kv))
          && (forall key | (key !in items || key in left) && key in server.kv :: server.kv[key] == old(server.kv)[key])
        invariant server.Quiet() && (forall id | id in items ::
            id in old(server.kv) && old(server.kv)[id] == codec.encode(items[id])) ==>
          server.kv == old(server.kv) && server.revision == old(server.revision)
        decreases |left|
      {
        var id :| id in left;
        var stored, written, path := PutIfNewOrChanged(server, id, codec.encode(items[id]));
        if !stored {
          return false;
        }
        left := left - {id};
      }
      return true;
    }

    method DeleteAll(keys: set<string>) returns (ok: bool)
      requires Valid()
      modifies server
      ensures server.reliable ==> ok
      ensures server.Quiet() ==> server.kv == old(server.kv) - keys
      ensures server.Quiet() && keys == {} ==> server.revision == old(server.revision)
    {
      var left := keys;
      while left != {}
        invariant left <= keys
        invariant server.Quiet() ==> server.kv == old(server.kv) - (keys - left)
        invariant keys == {} ==> server.revision == old(server.revision)
        decreases |left|
      {
        var id :| id in left;
        var deleted, at := DeleteKey(server, id);
        if !deleted {
          return false;
        }
        left := left - {id};
      }
      return true;
    }
  }

  // ---------- runs ----------

  datatype ReadOperation = Resync | Watched(event: WatchEvent)

  /** What an operation of the reading store does to its map and to etcd; `ok` is its answer. */
  ghost predicate ReadStep<T>(
    server: Server<string, string>, c: Codec<T>, op: ReadOperation, ok: bool, kv: map<string, string>,
    before: map<string, T>, kv': map<string, string>, after: map<string, T>)
  {
    && (server.reliable ==> ok)
    && match op
       case Resync => server.rely(kv, kv') && after == (if ok then Contents(c, kv') else before)
       case Watched(e) => ok && kv' == kv && after == Follow(c, before, e)
  }

  /** A run of a store: the contents of its map and of etcd from before the first operation to after
      the last one, and what each operation had to report. */
  datatype History<T> = History(contents: seq<map<string, T>>, kvs: seq<map<string, string>>, diffs: seq<Diff<T>>)

  ghost predicate Reports<T(!new)>(eq: Equality<T>, h: History<T>) {
    && |h.contents| == |h.kvs| == |h.diffs| + 1
    && forall i | 0 <= i < |h.diffs| :: IsDiff(eq, h.contents[i], h.contents[i + 1], h.diffs[i])
  }

  function Longer<T>(h: History<T>, kv: map<string, string>, data: map<string, T>, d: Diff<T>): History<T> {
    History(h.contents + [data], h.kvs + [kv], h.diffs + [d])
  }

  lemma ReportsGrow<T(!new)>(eq: Equality<T>, h: History<T>, kv: map<string, string>, data: map<string, T>, d: Diff<T>)
    requires Reports(eq, h) && IsDiff(eq, h.contents[|h.diffs|], data, d)
    ensures Reports(eq, Longer(h, kv, data, d))
    ensures AllEvents(Longer(h, kv, data, d).diffs) == AllEvents(h.diffs) + EventsOf(d)
  {
    var longer := Longer(h, kv, data, d);
    assert longer.diffs[..|h.diffs|] == h.diffs;
    forall i | 0 <= i < |longer.diffs| ensures IsDiff(eq, longer.contents[i], longer.contents[i + 1], longer.diffs[i]) {
      if i < |h.diffs| {
        assert IsDiff(eq, h.contents[i], h.contents[i + 1], h.diffs[i]);
      }
    }
  }

  /** Whoever mirrored the map at the start of a run, and heard all that was reported, mirrors it at
      every point of the run. */
  lemma MirrorsAllAlong<T(!new)>(eq: Equality<T>, h: History<T>, replica: map<string, T>, i: nat)
    requires Equivalence(eq) && Reports(eq, h) && Mirrors(eq, replica, h.contents[0]) && i <= |h.diffs|
    ensures Mirrors(eq, Listen(replica, AllEvents(h.diffs[..i])), h.contents[i])
  {
    var contents, diffs := h.contents[..i + 1], h.diffs[..i];
    forall k | 0 <= k < |diffs| ensures IsDiff(eq, contents[k], contents[k + 1], diffs[k]) {
      assert IsDiff(eq, h.contents[k], h.contents[k + 1], h.diffs[k]);
    }
    FaithfulReplica(eq, replica, contents, diffs);
  }

  ghost predicate IsReadRun<T(!new)>(
    server: Server<string, string>, c: Codec<T>, eq: Equality<T>, ops: seq<ReadOperation>, oks: seq<bool>,
    h: History<T>)
  {
    && |oks| == |ops| == |h.diffs| && Reports(eq, h)
    && forall i | 0 <= i < |ops| ::
         ReadStep(server, c, ops[i], oks[i], h.kvs[i], h.contents[i], h.kvs[i + 1], h.contents[i + 1])
  }

  lemma ReadRunGrows<T(!new)>(
    server: Server<string, string>, c: Codec<T>, eq: Equality<T>, ops: seq<ReadOperation>, oks: seq<bool>,
    h: History<T>,
    op: ReadOperation, ok: bool, kv: map<string, string>, data: map<string, T>, d: Diff<T>)
    requires IsReadRun(server, c, eq, ops, oks, h)
    requires ReadStep(server, c, op, ok, h.kvs[|ops|], h.contents[|ops|], kv, data)
    requires IsDiff(eq, h.contents[|ops|], data, d)
    ensures IsReadRun(server, c, eq, ops + [op], oks + [ok], Longer(h, kv, data, d))
    ensures AllEvents(Longer(h, kv, data, d).diffs) == AllEvents(h.diffs) + EventsOf(d)
  {
    ReportsGrow(eq, h, kv, data, d);
    var longer, ops', oks' := Longer(h, kv, data, d), ops + [op], oks + [ok];
    forall i | 0 <= i < |ops'|
      ensures ReadStep(server, c, ops'[i], oks'[i], longer.kvs[i], longer.contents[i], longer.kvs[i + 1],
          longer.contents[i + 1])
    {
      if i < |ops| {
        assert ReadStep(server, c, ops[i], oks[i], h.kvs[i], h.contents[i], h.kvs[i + 1], h.contents[i + 1]);
      }
    }
  }

  /** Any run of syncs and watch events.  Every operation has its effect and reports exactly the
      difference, so whoever folds the notifications holds a replica of the store. */
  method RunReadOnly<T(!new)>(store: ReadOnlyStore<T>, ops: seq<ReadOperation>)
    returns (oks: seq<bool>, ghost h: History<T>)
    requires store.Valid()
    modifies store, store.server
    ensures IsReadRun(store.server, store.codec, store.eq, ops, oks, h)
    ensures h.contents[0] == old(store.data) && h.contents[|ops|] == store.data
    ensures h.kvs[0] == old(store.server.kv) && h.kvs[|ops|] == store.server.kv
    ensures store.notified == old(store.notified) + AllEvents(h.diffs)
    ensures forall replica | Mirrors(store.eq, replica, old(store.data)) ::
              Mirrors(store.eq, Listen(replica, AllEvents(h.diffs)), store.data)
  {
    oks, h := ReadAll(store, ops);
    forall replica | Mirrors(store.eq, replica, h.contents[0])
      ensures Mirrors(store.eq, Listen(replica, AllEvents(h.diffs)), h.contents[|ops|])
    {
      assert h.diffs[..|ops|] == h.diffs;
      MirrorsAllAlong(store.eq, h, replica, |ops|);
    }
  }

  /** The store is where the run of `ops` has brought it. */
  ghost predicate HasReadSoFar<T(!new)>(
    store: ReadOnlyStore<T>, ops: seq<ReadOperation>, oks: seq<bool>, h: History<T>, start: History<T>,
    log: seq<Event<T>>)
    reads store, store.server
  {
    && IsReadRun(store.server, store.codec, store.eq, ops, oks, h)
    && |start.contents| == |start.kvs| == 1 && h.contents[0] == start.contents[0] && h.kvs[0] == start.kvs[0]
    && h.contents[|ops|] == store.data && h.kvs[|ops|] == store.server.kv
    && store.notified == log + AllEvents(h.diffs)
  }

  method ReadAll<T(!new)>(store: ReadOnlyStore<T>, ops: seq<ReadOperation>)
    returns (oks: seq<bool>, ghost h: History<T>)
    requires store.Valid()
    modifies store, store.server
    ensures HasReadSoFar(store, ops, oks, h, History([old(store.data)], [old(store.server.kv)], []),
        old(store.notified))
  {
    ghost var start := History([store.data], [store.server.kv], []);
    oks, h := [], start;
    for k := 0 to |ops|
      invariant HasReadSoFar(store, ops[..k], oks, h, start, old(store.notified))
    {
      oks, h := ReadNext(store, ops[..k], oks, h, start, old(store.notified), ops[k]);
      assert ops[..k + 1] == ops[..k] + [ops[k]];
    }
    assert ops[..|ops|] == ops;
  }

  method ReadNext<T(!new)>(
    store: ReadOnlyStore<T>, ghost ops: seq<ReadOperation>, oks: seq<bool>, ghost h: History<T>,
    ghost start: History<T>,
    ghost log: seq<Event<T>>, op: ReadOperation)
    returns (oks': seq<bool>, ghost h': History<T>)
    requires store.Valid() && HasReadSoFar(store, ops, oks, h, start, log)
    modifies store, store.server
    ensures HasReadSoFar(store, ops + [op], oks', h', start, log)
  {
    var ok, d := PerformRead(store, op);
    ReadRunGrows(store.server, store.codec, store.eq, ops, oks, h, op, ok, store.server.kv, store.data, d);
    h' := Longer(h, store.server.kv, store.data, d);
    oks' := oks + [ok];
  }

  method PerformRead<T(!new)>(store: ReadOnlyStore<T>, op: ReadOperation) returns (ok: bool, ghost d: Diff<T>)
    requires store.Valid()
    modifies store, store.server
    ensures ReadStep(store.server, store.codec, op, ok, old(store.server.kv), old(store.data), store.server.kv,
        store.data)
    ensures IsDiff(store.eq, old(store.data), store.data, d) && store.notified == old(store.notified) + EventsOf(d)
  {
    match op {
      case Resync =>
        ok, d := store.Sync(true);
        if !ok {
          assert IsDiff(store.eq, store.data, store.data, d);
        }
      case Watched(e) =>
        ok := true;
        d := store.HandleEvent(e);
    }
  }

  /** End to end, with nobody else writing: what a writing store has synced is what a reading store holds
      that syncs afterwards, and what the listeners of the reading store hold up to `Equals`. */
  method WriteThenRead<T(!new)>(
    writer: WriteOnlyStore<T>, reader: ReadOnlyStore<T>, items: map<string, T>, ghost replica: map<string, T>)
    requires writer.Valid() && reader.Valid() && writer.server == reader.server && writer.server.Quiet()
    requires writer.codec == reader.codec && (forall id | id in items :: '/' !in id)
    requires Mirrors(reader.eq, replica, reader.data)
    modifies writer, reader, writer.server
    ensures reader.data == items && writer.data == items
    ensures exists events ::
              reader.notified == old(reader.notified) + events && Mirrors(reader.eq, Listen(replica, events), items)
  {
    var written, d := writer.Sync(items, true);
    PublishedContents(writer.codec, writer.server.kv, items);
    var read, e := reader.Sync(true);
    ReplicaStep(reader.eq, replica, old(reader.data), reader.data, e);
  }

  datatype WriteOperation<T> = PutItem(id: string, item: T) | RemoveItem(id: string) | SyncTo(items: map<string, T>)

  function WriteEffect<T>(data: map<string, T>, op: WriteOperation<T>): map<string, T> {
    match op
    case PutItem(id, item) => data[id := item]
    case RemoveItem(id) => data - {id}
    case SyncTo(items) => items
  }

  /** What an operation of the writing store does to etcd. */
  ghost predicate WritesThrough<T>(
    server: Server<string, string>, c: Codec<T>, op: WriteOperation<T>, ok: bool, kv: map<string, string>,
    kv': map<string, string>)
  {
    match op
    case PutItem(id, item) => exists path :: PutEffect(server, kv, id, c.encode(item), path, ok, kv')
    case RemoveItem(id) => exists at :: DeleteEffect(server, kv, id, at, ok, kv')
    case SyncTo(items) => true
  }

  /** What an operation of the writing store does: the map always changes, and etcd follows exactly as
      the only writer. */
  ghost predicate WriteStep<T>(
    server: Server<string, string>, c: Codec<T>, op: WriteOperation<T>, ok: bool, kv: map<string, string>,
    before: map<string, T>, kv': map<string, string>, after: map<string, T>)
  {
    && (server.reliable ==> ok) && after == WriteEffect(before, op) && WritesThrough(server, c, op, ok, kv, kv')
    && (server.Quiet() ==>
          match op
          case PutItem(id, item) => kv' == kv[id := c.encode(item)]
          case RemoveItem(id) => kv' == kv - {id}
          case SyncTo(items) => Published(c, kv', items))
  }

  /** What the handlers hear: nothing of a failed call. */
  function Heard<T>(diffs: seq<Diff<T>>, oks: seq<bool>): seq<Event<T>>
    requires |diffs| == |oks|
  {
    if diffs == [] then []
    else
      Heard(diffs[..|diffs| - 1], oks[..|oks| - 1]) + (if oks[|oks| - 1] then EventsOf(diffs[|diffs| - 1]) else [])
  }

  lemma {:induction false} HeardAllOf<T>(diffs: seq<Diff<T>>, oks: seq<bool>)
    requires |diffs| == |oks| && forall i | 0 <= i < |oks| :: oks[i]
    ensures Heard(diffs, oks) == AllEvents(diffs)
  {
    if diffs != [] {
      HeardAllOf(diffs[..|diffs| - 1], oks[..|oks| - 1]);
    }
  }

  lemma HeardGrows<T>(diffs: seq<Diff<T>>, oks: seq<bool>, d: Diff<T>, ok: bool)
    requires |diffs| == |oks|
    ensures Heard(diffs + [d], oks + [ok]) == Heard(diffs, oks) + (if ok then EventsOf(d) else [])
  {
    assert (diffs + [d])[..|diffs|] == diffs && (oks + [ok])[..|oks|] == oks;
  }

  ghost predicate IsWriteRun<T(!new)>(
    server: Server<string, string>, c: Codec<T>, eq: Equality<T>, ops: seq<WriteOperation<T>>, oks: seq<bool>,
    h: History<T>)
  {
    && |oks| == |ops| == |h.diffs| && Reports(eq, h)
    && forall i | 0 <= i < |ops| ::
         WriteStep(server, c, ops[i], oks[i], h.kvs[i], h.contents[i], h.kvs[i + 1], h.contents[i + 1])
  }

  lemma WriteRunGrows<T(!new)>(
    server: Server<string, string>, c: Codec<T>, eq: Equality<T>, ops: seq<WriteOperation<T>>, oks: seq<bool>,
    h: History<T>,
    op: WriteOperation<T>, ok: bool, kv: map<string, string>, data: map<string, T>, d: Diff<T>)
    requires IsWriteRun(server, c, eq, ops, oks, h)
    requires WriteStep(server, c, op, ok, h.kvs[|ops|], h.contents[|ops|], kv, data)
    requires IsDiff(eq, h.contents[|ops|], data, d)
    ensures IsWriteRun(server, c, eq, ops + [op], oks + [ok], Longer(h, kv, data, d))
    ensures Heard(Longer(h, kv, data, d).diffs, oks + [ok]) == Heard(h.diffs, oks) + (if ok then EventsOf(d) else [])
  {
    ReportsGrow(eq, h, kv, data, d);
    HeardGrows(h.diffs, oks, d, ok);
    var longer, ops', oks' := Longer(h, kv, data, d), ops + [op], oks + [ok];
    forall i | 0 <= i < |ops'|
      ensures WriteStep(server, c, ops'[i], oks'[i], longer.kvs[i], longer.contents[i], longer.kvs[i + 1],
          longer.contents[i + 1])
    {
      if i < |ops| {
        assert WriteStep(server, c, ops[i], oks[i], h.kvs[i], h.contents[i], h.kvs[i + 1], h.contents[i + 1]);
      }
    }
  }

  /** As the only writer, the writing store keeps etcd holding its items in every state of a run. */
  lemma {:induction false} PublishedAllAlong<T(!new)>(
    server: Server<string, string>, c: Codec<T>, eq: Equality<T>, ops: seq<WriteOperation<T>>, oks: seq<bool>,
    h: History<T>,
    i: nat)
    requires IsWriteRun(server, c, eq, ops, oks, h) && i <= |ops|
    requires server.Quiet() && Published(c, h.kvs[0], h.contents[0])
    ensures Published(c, h.kvs[i], h.contents[i])
  {
    if i > 0 {
      PublishedAllAlong(server, c, eq, ops, oks, h, i - 1);
      var k := i - 1;
      assert WriteStep(server, c, ops[k], oks[k], h.kvs[k], h.contents[k], h.kvs[k + 1], h.contents[k + 1]);
    }
  }

  /** Any run of puts, deletes and syncs.  Listeners hear of every call that does not fail; if none
      fails they hold a replica. */
  method RunWriteOnly<T(!new)>(store: WriteOnlyStore<T>, ops: seq<WriteOperation<T>>)
    returns (oks: seq<bool>, ghost h: History<T>)
    requires store.Valid()
    modifies store, store.server
    ensures IsWriteRun(store.server, store.codec, store.eq, ops, oks, h)
    ensures h.contents[0] == old(store.data) && h.contents[|ops|] == store.data
    ensures h.kvs[0] == old(store.server.kv) && h.kvs[|ops|] == store.server.kv
    ensures store.notified == old(store.notified) + Heard(h.diffs, oks)
    ensures (forall i | 0 <= i < |ops| :: oks[i]) ==>
              forall replica | Mirrors(store.eq, replica, old(store.data)) ::
                Mirrors(store.eq, Listen(replica, Heard(h.diffs, oks)), store.data)
  {
    oks, h := WriteAll(store, ops);
    if forall i | 0 <= i < |ops| :: oks[i] {
      HeardAllOf(h.diffs, oks);
      forall replica | Mirrors(store.eq, replica, h.contents[0])
        ensures Mirrors(store.eq, Listen(replica, AllEvents(h.diffs)), h.contents[|ops|])
      {
        assert h.diffs[..|ops|] == h.diffs;
        MirrorsAllAlong(store.eq, h, replica, |ops|);
      }
    }
  }

  /** The store is where the run of `ops` has brought it. */
  ghost predicate WrittenSoFar<T(!new)>(
    store: WriteOnlyStore<T>, ops: seq<WriteOperation<T>>, oks: seq<bool>, h: History<T>, start: History<T>,
    log: seq<Event<T>>)
    reads store, store.server
  {
    && IsWriteRun(store.server, store.codec, store.eq, ops, oks, h)
    && |start.contents| == |start.kvs| == 1 && h.contents[0] == start.contents[0] && h.kvs[0] == start.kvs[0]
    && h.contents[|ops|] == store.data && h.kvs[|ops|] == store.server.kv
    && store.notified == log + Heard(h.diffs, oks)
  }

  method WriteAll<T(!new)>(store: WriteOnlyStore<T>, ops: seq<WriteOperation<T>>)
    returns (oks: seq<bool>, ghost h: History<T>)
    requires store.Valid()
    modifies store, store.server
    ensures WrittenSoFar(store, ops, oks, h, History([old(store.data)], [old(store.server.kv)], []),
        old(store.notified))
  {
    ghost var start := History([store.data], [store.server.kv], []);
    oks, h := [], start;
    for k := 0 to |ops|
      invariant WrittenSoFar(store, ops[..k], oks, h, start, old(store.notified))
    {
      oks, h := WriteNext(store, ops[..k], oks, h, start, old(store.notified), ops[k]);
      assert ops[..k + 1] == ops[..k] + [ops[k]];
    }
    assert ops[..|ops|] == ops;
  }

  method WriteNext<T(!new)>(
    store: WriteOnlyStore<T>, ghost ops: seq<WriteOperation<T>>, oks: seq<bool>, ghost h: History<T>,
    ghost start: History<T>,
    ghost log: seq<Event<T>>, op: WriteOperation<T>)
    returns (oks': seq<bool>, ghost h': History<T>)
    requires store.Valid() && WrittenSoFar(store, ops, oks, h, start, log)
    modifies store, store.server
    ensures WrittenSoFar(store, ops + [op], oks', h', start, log)
  {
    var ok, d := PerformWrite(store, op);
    WriteRunGrows(store.server, store.codec, store.eq, ops, oks, h, op, ok, store.server.kv, store.data, d);
    h' := Longer(h, store.server.kv, store.data, d);
    oks' := oks + [ok];
  }

  method PerformWrite<T(!new)>(store: WriteOnlyStore<T>, op: WriteOperation<T>) returns (ok: bool, ghost d: Diff<T>)
    requires store.Valid()
    modifies store, store.server
    ensures WriteStep(store.server, store.codec, op, ok, old(store.server.kv), old(store.data), store.server.kv,
        store.data)
    ensures IsDiff(store.eq, old(store.data), store.data, d)
    ensures store.notified == old(store.notified) + (if ok then EventsOf(d) else [])
  {
    match op {
      case PutItem(id, item) =>
        ghost var path;
        ok, d, path := store.AddOrUpdateItem(id, item);
      case RemoveItem(id) =>
        ghost var at;
        ok, d, at := store.DeleteItem(id);
      case SyncTo(items) =>
        ok, d := store.Sync(items, true);
    }
  }
}
