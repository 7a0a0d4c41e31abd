/**
 The etcd semantics that the control plane relies on: a flat key-value map that is changed
 only by atomic guarded transactions.

 `Server` is the one shared object.  What the other clients of the cluster may do between two
 calls of the client under study is a parameter, the relation `rely`; a theorem about a single
 writer instantiates it with the identity, a theorem about interference leaves it open.
 */
module Etcd {
  import opened Common

  /** One comparison of a transaction.  `Absent` is `CreateRevision(key) = 0`.  A comparison of
      a value is false when the key is absent, whether it asks for equality or inequality. */
  datatype Cmp<K, V> = Absent(key: K) | ValueIs(key: K, value: V) | ValueIsNot(key: K, value: V)

  predicate Holds<K, V(==)>(kv: map<K, V>, c: Cmp<K, V>) {
    match c
    case Absent(k) => k !in kv
    case ValueIs(k, v) => k in kv && kv[k] == v
    case ValueIsNot(k, v) => k in kv && kv[k] != v
  }

  /** If all guards hold, delete `deletes` and write `puts`, in one atomic step. */
  datatype Txn<K, V> = Txn(guards: seq<Cmp<K, V>>, puts: map<K, V>, deletes: set<K>)

  predicate Passes<K, V(==)>(kv: map<K, V>, t: Txn<K, V>) {
    forall i | 0 <= i < |t.guards| :: Holds(kv, t.guards[i])
  }

  function After<K, V(==)>(kv: map<K, V>, t: Txn<K, V>): map<K, V> {
    if Passes(kv, t) then (kv - t.deletes) + t.puts else kv
  }

  /** A committed transaction that puts or really deletes something makes a new revision. */
  predicate Writes<K, V(==)>(kv: map<K, V>, t: Txn<K, V>) {
    Passes(kv, t) && (t.puts != map[] || t.deletes * kv.Keys != {})
  }

  /** Without a new revision nothing has changed; with one, something was put or deleted. */
  lemma WritesMeaning<K, V>(kv: map<K, V>, t: Txn<K, V>)
    ensures !Writes(kv, t) ==> After(kv, t) == kv
    ensures Writes(kv, t) ==> t.puts != map[] || exists k :: k in t.deletes && k in kv
  {
    if Writes(kv, t) && t.puts == map[] {
      var k :| k in t.deletes * kv.Keys;
    }
    if Passes(kv, t) && !Writes(kv, t) {
      assert forall k | k in t.deletes :: k !in t.deletes * kv.Keys;
      assert kv - t.deletes == kv;
    }
  }

  /** What preceded contents i. */
  function Before<T>(start: T, seen: seq<T>, i: nat): T
    requires i <= |seen|
  {
    if i == 0 then start else seen[i - 1]
  }

  datatype Reply = Failed | Committed(succeeded: bool)

  class Server<K(==, !new), V(==, !new)> {
    var kv: map<K, V>
    var revision: nat
    /** rely(s, t): the other clients may turn contents s into t between two of our steps */
    const rely: (map<K, V>, map<K, V>) -> bool
    /** no call fails with a connection error or a timeout */
    const reliable: bool

    constructor (kv: map<K, V>, rely: (map<K, V>, map<K, V>) -> bool, reliable: bool)
      ensures this.kv == kv && this.rely == rely && this.reliable == reliable
    {
      this.kv, this.rely, this.reliable := kv, rely, reliable;
      this.revision := 0;
    }

    ghost predicate Valid() {
      forall s :: rely(s, s)
    }

    /** Nobody else writes here. */
    ghost predicate Alone() {
      forall s, t :: rely(s, t) ==> s == t
    }

    /** Nobody else writes here, and calls do not fail. */
    ghost predicate Quiet() {
      reliable && Alone()
    }

    /** Contents met one after the other, with only the other clients acting in between. */
    ghost predicate Chain(start: map<K, V>, seen: seq<map<K, V>>) {
      forall i | 0 <= i < |seen| :: rely(Before(start, seen, i), seen[i])
    }

    lemma ChainGrows(start: map<K, V>, seen: seq<map<K, V>>, next: map<K, V>)
      requires Chain(start, seen) && rely(Before(start, seen, |seen|), next)
      ensures Chain(start, seen + [next])
    {
      var longer := seen + [next];
      forall i | 0 <= i < |longer| ensures rely(Before(start, longer, i), longer[i]) {
        assert Before(start, longer, i) == Before(start, seen, i);
      }
    }

    /** Any number of steps of the other clients. */
    method Interfere()
      requires Valid()
      modifies this
      ensures rely(old(kv), kv)
      ensures kv == old(kv) ==> revision == old(revision)
    {
      var next: map<K, V> := *;
      if rely(kv, next) && kv != next {
        kv, revision := next, revision + 1;
      }
    }

    /** One transaction.  `at` is what it found.  A call that fails may or may not have been
        carried out by the server. */
    method Commit(t: Txn<K, V>) returns (reply: Reply, ghost at: map<K, V>)
      requires Valid()
      modifies this
      ensures rely(old(kv), at)
      ensures reply.Committed? ==> kv == After(at, t) && reply.succeeded == Passes(at, t)
      ensures reply.Failed? ==> kv == at || kv == After(at, t)
      ensures reliable ==> reply.Committed?
      ensures Quiet() ==> revision == old(revision) + (if Writes(at, t) then 1 else 0)
    {
      Interfere();
      at := kv;
      var lost, carriedOut: bool := *, *;
      lost := lost && !reliable;
      if !lost || carriedOut {
        revision := revision + (if Writes(kv, t) then 1 else 0);
        reply := Committed(Passes(kv, t));
        kv := After(kv, t);
      }
      if lost {
        reply := Failed;
      }
    }

    /** A delete of the whole prefix, one atomic step. */
    method DeletePrefix() returns (reply: Reply, ghost at: map<K, V>)
      requires Valid()
      modifies this
      ensures rely(old(kv), at)
      ensures reply.Committed? ==> kv == map[]
      ensures reply.Failed? ==> kv == at || kv == map[]
      ensures reliable ==> reply.Committed?
    {
      Interfere();
      at := kv;
      var lost, carriedOut: bool := *, *;
      lost := lost && !reliable;
      if !lost || carriedOut {
        revision := revision + (if kv != map[] then 1 else 0);
        kv := map[];
      }
      reply := if lost then Failed else Committed(true);
    }

    /** A range read: all the contents at one moment, or nothing when the call fails. */
    method Read() returns (contents: Option<map<K, V>>)
      requires Valid()
      modifies this
      ensures rely(old(kv), kv)
      ensures contents.Some? ==> contents.value == kv
      ensures reliable ==> contents.Some?
      ensures kv == old(kv) ==> revision == old(revision)
    {
      Interfere();
      var lost: bool := *;
      contents := if lost && !reliable then None else Some(kv);
    }
  }
}
