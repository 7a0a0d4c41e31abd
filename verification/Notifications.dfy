/**
 What a store tells its listeners: the difference between two contents as lists of added,
 changed and removed items.  Two values that are `Equals` are not reported as a change, so a
 listener that folds the notifications holds a replica whose values are related by `Equals`.
 */
module Notifications {

  datatype Item<T> = Item(id: string, value: T)
  datatype ItemChange<T> = ItemChange(id: string, previous: T, current: T)
  datatype Diff<T> = Diff(added: seq<Item<T>>, changes: seq<ItemChange<T>>, removed: seq<Item<T>>)

  /** One call of a handler. */
  datatype Event<T> =
    | OnAdded(added: seq<Item<T>>)
    | OnChanged(changes: seq<ItemChange<T>>)
    | OnRemoved(removed: seq<Item<T>>)

  type Equality<!T> = (T, T) -> bool

  ghost predicate Equivalence<T(!new)>(eq: Equality<T>) {
    && (forall x :: eq(x, x))
    && (forall x, y :: eq(x, y) ==> eq(y, x))
    && (forall x, y, z :: eq(x, y) && eq(y, z) ==> eq(x, z))
  }

  /** The handlers are called in this order, and only if there is something to report. */
  function EventsOf<T>(d: Diff<T>): seq<Event<T>> {
    (if d.added == [] then [] else [OnAdded(d.added)])
    + (if d.changes == [] then [] else [OnChanged(d.changes)])
    + (if d.removed == [] then [] else [OnRemoved(d.removed)])
  }

  /** Which of two handlers is called first. */
  function Rank<T>(e: Event<T>): nat {
    match e
    case OnAdded(_) => 0
    case OnChanged(_) => 1
    case OnRemoved(_) => 2
  }

  /** Every handler is called at most once, with the whole list and only if it is not empty; additions
      before changes before removals. */
  lemma HandlerCalls<T>(d: Diff<T>)
    ensures forall e :: e in EventsOf(d) <==>
      match e
      case OnAdded(items) => items == d.added && items != []
      case OnChanged(changes) => changes == d.changes && changes != []
      case OnRemoved(items) => items == d.removed && items != []
    ensures forall i, j | 0 <= i < j < |EventsOf(d)| :: Rank(EventsOf(d)[i]) < Rank(EventsOf(d)[j])
  {
    var added: seq<Event<T>> := if d.added == [] then [] else [OnAdded(d.added)];
    var changed: seq<Event<T>> := if d.changes == [] then [] else [OnChanged(d.changes)];
    var removed: seq<Event<T>> := if d.removed == [] then [] else [OnRemoved(d.removed)];
    assert EventsOf(d) == added + changed + removed;
  }

  predicate Retained<T>(before: map<string, T>, after: map<string, T>, id: string) { id in before && id in after }

  /** `d` reports, each item once, exactly the difference between `before` and `after`. */
  ghost predicate IsDiff<T(!new)>(eq: Equality<T>, before: map<string, T>, after: map<string, T>, d: Diff<T>) {
    && (forall i, j | 0 <= i < j < |d.added| :: d.added[i].id != d.added[j].id)
    && (forall i, j | 0 <= i < j < |d.changes| :: d.changes[i].id != d.changes[j].id)
    && (forall i, j | 0 <= i < j < |d.removed| :: d.removed[i].id != d.removed[j].id)
    && (forall id, v :: Item(id, v) in d.added <==> id in after && id !in before && v == after[id])
    && (forall id, p, c :: ItemChange(id, p, c) in d.changes <==>
          Retained(before, after, id) && p == before[id] && c == after[id] && !eq(p, c))
    && (forall id, v :: Item(id, v) in d.removed <==> id in before && id !in after && v == before[id])
  }

  // ---------- the listener ----------

  function Put<T>(replica: map<string, T>, items: seq<Item<T>>): map<string, T> {
    if items == [] then replica
    else Put(replica, items[..|items| - 1])[items[|items| - 1].id := items[|items| - 1].value]
  }

  function Currents<T>(changes: seq<ItemChange<T>>): seq<Item<T>> {
    seq(|changes|, i requires 0 <= i < |changes| => Item(changes[i].id, changes[i].current))
  }

  function Remove<T>(replica: map<string, T>, items: seq<Item<T>>): map<string, T> {
    if items == [] then replica else Remove(replica, items[..|items| - 1]) - {items[|items| - 1].id}
  }

  function Hear<T>(replica: map<string, T>, e: Event<T>): map<string, T> {
    match e
    case OnAdded(items) => Put(replica, items)
    case OnChanged(changes) => Put(replica, Currents(changes))
    case OnRemoved(items) => Remove(replica, items)
  }

  /** Folding all notifications. */
  function Listen<T>(replica: map<string, T>, events: seq<Event<T>>): map<string, T> {
    if events == [] then replica else Hear(Listen(replica, events[..|events| - 1]), events[|events| - 1])
  }

  lemma {:induction false} ListenConcat<T>(replica: map<string, T>, a: seq<Event<T>>, b: seq<Event<T>>)
    ensures Listen(replica, a + b) == Listen(Listen(replica, a), b)
  {
    if b == [] {
      assert a + b == a;
    } else {
      ListenConcat(replica, a, b[..|b| - 1]);
      assert (a + b)[..|a + b| - 1] == a + b[..|b| - 1];
    }
  }

  predicate Mentions<T>(items: seq<Item<T>>, id: string) {
    exists i :: 0 <= i < |items| && items[i].id == id
  }

  lemma MentionsInitOrLast<T>(items: seq<Item<T>>, id: string)
    requires items != []
    ensures Mentions(items, id) <==> Mentions(items[..|items| - 1], id) || items[|items| - 1].id == id
  {
    var init := items[..|items| - 1];
    assert forall i | 0 <= i < |init| :: items[i] == init[i];
    if Mentions(init, id) {
      var i :| 0 <= i < |init| && init[i].id == id;
      assert items[i].id == id;
    }
  }

  /** Items that agree on the value of `id` put that value there. */
  lemma {:induction false} PutAt<T>(replica: map<string, T>, items: seq<Item<T>>, id: string, v: T)
    requires forall i | 0 <= i < |items| :: items[i].id == id ==> items[i].value == v
    ensures id in Put(replica, items) <==> id in replica || Mentions(items, id)
    ensures Mentions(items, id) ==> Put(replica, items)[id] == v
    ensures id in replica && !Mentions(items, id) ==> Put(replica, items)[id] == replica[id]
  {
    if items != [] {
      MentionsInitOrLast(items, id);
      PutAt(replica, items[..|items| - 1], id, v);
    }
  }

  lemma {:induction false} RemoveAt<T>(replica: map<string, T>, items: seq<Item<T>>, id: string)
    ensures id in Remove(replica, items) <==> id in replica && !Mentions(items, id)
    ensures id in Remove(replica, items) ==> Remove(replica, items)[id] == replica[id]
  {
    if items != [] {
      MentionsInitOrLast(items, id);
      RemoveAt(replica, items[..|items| - 1], id);
    }
  }

  lemma ListenToDiff<T>(replica: map<string, T>, d: Diff<T>)
    ensures Listen(replica, EventsOf(d)) == Remove(Put(Put(replica, d.added), Currents(d.changes)), d.removed)
  {
    var a: seq<Event<T>> := if d.added == [] then [] else [OnAdded(d.added)];
    var c: seq<Event<T>> := if d.changes == [] then [] else [OnChanged(d.changes)];
    var r: seq<Event<T>> := if d.removed == [] then [] else [OnRemoved(d.removed)];
    ListenConcat(replica, a + c, r);
    ListenConcat(replica, a, c);
    ListenOne(replica, a);
    ListenOne(Put(replica, d.added), c);
    ListenOne(Put(Put(replica, d.added), Currents(d.changes)), r);
  }

  lemma ListenOne<T>(replica: map<string, T>, e: seq<Event<T>>)
    ensures |e| == 1 ==> Listen(replica, e) == Hear(replica, e[0])
    ensures e == [] ==> Listen(replica, e) == replica
  {
    if |e| == 1 {
      assert e[..0] == [];
    }
  }

  /** Which lists of a diff mention an id, and with which value. */
  lemma DiffAt<T(!new)>(eq: Equality<T>, before: map<string, T>, after: map<string, T>, d: Diff<T>, id: string)
    requires IsDiff(eq, before, after, d)
    ensures Mentions(d.added, id) <==> id in after && id !in before
    ensures Mentions(Currents(d.changes), id) <==> Retained(before, after, id) && !eq(before[id], after[id])
    ensures Mentions(d.removed, id) <==> id in before && id !in after
    ensures forall i | 0 <= i < |d.added| && d.added[i].id == id :: id in after && d.added[i].value == after[id]
    ensures forall i | 0 <= i < |d.changes| && d.changes[i].id == id :: id in after && d.changes[i].current == after[id]
  {
    forall i | 0 <= i < |d.added| && d.added[i].id == id
      ensures id in after && id !in before && d.added[i].value == after[id] {
      assert Item(id, d.added[i].value) in d.added;
    }
    forall i | 0 <= i < |d.changes| && d.changes[i].id == id
      ensures Retained(before, after, id) && d.changes[i].current == after[id] && !eq(before[id], after[id])
    {
      assert ItemChange(id, d.changes[i].previous, d.changes[i].current) in d.changes;
    }
    forall i | 0 <= i < |d.removed| && d.removed[i].id == id ensures id in before && id !in after {
      assert Item(id, d.removed[i].value) in d.removed;
    }
    if id in after && id !in before {
      assert Item(id, after[id]) in d.added;
    }
    if id in before && id !in after {
      assert Item(id, before[id]) in d.removed;
    }
    if Retained(before, after, id) && !eq(before[id], after[id]) {
      var i :| 0 <= i < |d.changes| && d.changes[i] == ItemChange(id, before[id], after[id]);
      assert Currents(d.changes)[i].id == id;
    }
  }

  lemma HeardAt<T(!new)>(eq: Equality<T>, replica: map<string, T>, before: map<string, T>, after: map<string, T>,
    d: Diff<T>, id: string)
    requires IsDiff(eq, before, after, d) && (id in replica <==> id in before)
    ensures id in Listen(replica, EventsOf(d)) <==> id in after
    ensures id in after ==>
              Listen(replica, EventsOf(d))[id]
              == (if Retained(before, after, id) && eq(before[id], after[id]) then replica[id] else after[id])
  {
    ListenToDiff(replica, d);
    DiffAt(eq, before, after, d, id);
    var r1 := Put(replica, d.added);
    var r2 := Put(r1, Currents(d.changes));
    if id in after {
      PutAt(replica, d.added, id, after[id]);
      PutAt(r1, Currents(d.changes), id, after[id]);
    } else if id in before {
      PutAt(replica, d.added, id, before[id]);
      PutAt(r1, Currents(d.changes), id, before[id]);
    } else {
      NotMentionedNotPut(replica, d.added, id);
      NotMentionedNotPut(r1, Currents(d.changes), id);
    }
    RemoveAt(r2, d.removed, id);
  }

  lemma {:induction false} NotMentionedNotPut<T>(replica: map<string, T>, items: seq<Item<T>>, id: string)
    requires id !in replica && !Mentions(items, id)
    ensures id !in Put(replica, items)
  {
    if items != [] {
      MentionsInitOrLast(items, id);
      NotMentionedNotPut(replica, items[..|items| - 1], id);
    }
  }

  /** What a listener holds after hearing a diff: reported items are as in `after`, the others
      are as before. */
  lemma HeardDiff<T(!new)>(eq: Equality<T>, replica: map<string, T>, before: map<string, T>, after: map<string, T>,
    d: Diff<T>)
    requires IsDiff(eq, before, after, d) && replica.Keys == before.Keys
    ensures Listen(replica, EventsOf(d)).Keys == after.Keys
    ensures forall id | id in after :: Listen(replica, EventsOf(d))[id] ==
              if Retained(before, after, id) && eq(before[id], after[id]) then replica[id] else after[id]
  {
    var r := Listen(replica, EventsOf(d));
    forall id
      ensures id in r <==> id in after
      ensures id in after ==>
                r[id] == (if Retained(before, after, id) && eq(before[id], after[id]) then replica[id] else after[id])
    {
      HeardAt(eq, replica, before, after, d, id);
    }
  }

  /** Same keys, and values related by `Equals`. */
  ghost predicate Mirrors<T>(eq: Equality<T>, replica: map<string, T>, data: map<string, T>) {
    replica.Keys == data.Keys && forall id | id in data :: eq(replica[id], data[id])
  }

  lemma ReplicaStep<T(!new)>(eq: Equality<T>, replica: map<string, T>, before: map<string, T>, after: map<string, T>,
    d: Diff<T>)
    requires Equivalence(eq) && Mirrors(eq, replica, before) && IsDiff(eq, before, after, d)
    ensures Mirrors(eq, Listen(replica, EventsOf(d)), after)
  {
    HeardDiff(eq, replica, before, after, d);
    var r := Listen(replica, EventsOf(d));
    forall id | id in after ensures eq(r[id], after[id]) {
      if Retained(before, after, id) && eq(before[id], after[id]) {
        assert eq(replica[id], before[id]);
      }
    }
  }

  /** All the notifications of a run of operations, in order. */
  function AllEvents<T>(diffs: seq<Diff<T>>): seq<Event<T>> {
    if diffs == [] then [] else AllEvents(diffs[..|diffs| - 1]) + EventsOf(diffs[|diffs| - 1])
  }

  /** Listeners are faithful replicas over every run: `contents` are the store's contents after
      each operation, `diffs` what the operations reported. */
  lemma {:induction false} FaithfulReplica<T(!new)>(eq: Equality<T>, replica: map<string, T>,
    contents: seq<map<string, T>>, diffs: seq<Diff<T>>)
    requires Equivalence(eq) && |contents| == |diffs| + 1
    requires forall i | 0 <= i < |diffs| :: IsDiff(eq, contents[i], contents[i + 1], diffs[i])
    requires Mirrors(eq, replica, contents[0])
    ensures Mirrors(eq, Listen(replica, AllEvents(diffs)), contents[|diffs|])
  {
    if diffs != [] {
      var n := |diffs| - 1;
      FaithfulReplica(eq, replica, contents[..n + 1], diffs[..n]);
      var r := Listen(replica, AllEvents(diffs[..n]));
      ListenConcat(replica, AllEvents(diffs[..n]), EventsOf(diffs[n]));
      assert IsDiff(eq, contents[n], contents[n + 1], diffs[n]);
      ReplicaStep(eq, r, contents[n], contents[n + 1], diffs[n]);
    }
  }

  /** A report that is withheld from the listeners leaves them with a replica exactly when it was
      empty. */
  lemma WithheldDiffIff<T(!new)>(eq: Equality<T>, replica: map<string, T>, before: map<string, T>,
    after: map<string, T>, d: Diff<T>)
    requires Equivalence(eq) && Mirrors(eq, replica, before) && IsDiff(eq, before, after, d)
    ensures Mirrors(eq, replica, after) <==> EventsOf(d) == []
  {
    if EventsOf(d) == [] {
      ReplicaStep(eq, replica, before, after, d);
    } else if d.added != [] {
      DiffAt(eq, before, after, d, d.added[0].id);
    } else if d.changes != [] {
      var id := d.changes[0].id;
      DiffAt(eq, before, after, d, id);
      assert Currents(d.changes)[0].id == id;
      assert Retained(before, after, id) && !eq(before[id], after[id]) && eq(replica[id], before[id]);
    } else {
      DiffAt(eq, before, after, d, d.removed[0].id);
    }
  }

  /** A listener that held exactly the data still does exactly when no retained item changed to
      another value that counts as equal. */
  lemma ExactReplicaIff<T(!new)>(eq: Equality<T>, before: map<string, T>, after: map<string, T>, d: Diff<T>)
    requires IsDiff(eq, before, after, d)
    ensures Listen(before, EventsOf(d)) == after <==>
            forall id | Retained(before, after, id) && eq(before[id], after[id]) :: before[id] == after[id]
  {
    HeardDiff(eq, before, before, after, d);
    ExactIff(eq, before, after, Listen(before, EventsOf(d)));
  }

  lemma ExactIff<T(!new)>(eq: Equality<T>, before: map<string, T>, after: map<string, T>, r: map<string, T>)
    requires r.Keys == after.Keys
    requires forall id | id in after ::
      r[id] == if Retained(before, after, id) && eq(before[id], after[id]) then before[id] else after[id]
    ensures r == after <==> forall id | Retained(before, after, id) && eq(before[id], after[id]) ::
      before[id] == after[id]
  {
    if forall id | Retained(before, after, id) && eq(before[id], after[id]) :: before[id] == after[id] {
      assert forall id | id in after :: r[id] == after[id];
    } else {
      var id :| Retained(before, after, id) && eq(before[id], after[id]) && before[id] != after[id];
      assert r[id] != after[id];
    }
  }
}
