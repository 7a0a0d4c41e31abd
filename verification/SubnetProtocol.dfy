/**
 Which pool holds which subnet.  In etcd a subnet is one key whose value is the id of the pool.
 Any number of nodes reserve and release subnets, one transaction at a time, each acting on a
 list of its own that may be arbitrarily stale.
 */
module SubnetProtocol {
  import opened Etcd

  datatype Subnet = Subnet(base: nat, prefixLength: nat)
  type PoolID = string
  type Store = map<Subnet, PoolID>

  function ReserveTxn(subnet: Subnet, id: PoolID): Txn<Subnet, PoolID> {
    Txn([Absent(subnet)], map[subnet := id], {})
  }

  function ReleaseTxn(subnet: Subnet, id: PoolID): Txn<Subnet, PoolID> {
    Txn([ValueIs(subnet, id)], map[], {subnet})
  }

  datatype Action = Reserve(subnet: Subnet, id: PoolID) | Release(subnet: Subnet, id: PoolID)

  function TxnOf(a: Action): Txn<Subnet, PoolID> {
    if a.Reserve? then ReserveTxn(a.subnet, a.id) else ReleaseTxn(a.subnet, a.id)
  }

  function Act(st: Store, a: Action): Store { After(st, TxnOf(a)) }

  /** A reservation also counts as successful if the pool holds the subnet already. */
  predicate Reserved(st: Store, a: Action) {
    a.Reserve? && (Passes(st, TxnOf(a)) || (a.subnet in st && st[a.subnet] == a.id))
  }

  /** The pool can have the subnet: nobody holds it, or it does already. */
  predicate Free(st: Store, s: Subnet, id: PoolID) { s !in st || st[s] == id }

  predicate ReleaseCommits(st: Store, a: Action) {
    a.Release? && Passes(st, TxnOf(a))
  }

  ghost predicate IsRun(states: seq<Store>, actions: seq<Action>) {
    && |states| == |actions| + 1
    && forall i | 0 <= i < |actions| :: states[i + 1] == Act(states[i], actions[i])
  }

  /** What one transaction does to the holder of a subnet. */
  lemma StepMeaning(st: Store, a: Action, s: Subnet)
    ensures Reserved(st, a) <==> a.Reserve? && (a.subnet !in st || st[a.subnet] == a.id)
    ensures Reserved(st, a) ==> a.subnet in Act(st, a) && Act(st, a)[a.subnet] == a.id
    ensures ReleaseCommits(st, a) <==> a.Release? && a.subnet in st && st[a.subnet] == a.id
    ensures s in st && !(ReleaseCommits(st, a) && a.subnet == s) ==> s in Act(st, a) && Act(st, a)[s] == st[s]
    ensures Act(st, a) == if a.Reserve? && a.subnet !in st then st[a.subnet := a.id]
                          else if a.Release? && a.subnet in st && st[a.subnet] == a.id then st - {a.subnet}
                          else st
  {
    assert Holds(st, TxnOf(a).guards[0]) <==> Passes(st, TxnOf(a));
  }

  lemma {:induction false} HolderStays(states: seq<Store>, actions: seq<Action>, i: nat, j: nat, s: Subnet, x: PoolID)
    requires IsRun(states, actions) && i < j < |states|
    requires Reserved(states[i], actions[i]) && actions[i] == Reserve(s, x)
    requires forall k | i < k < j :: !(ReleaseCommits(states[k], actions[k]) && actions[k] == Release(s, x))
    ensures s in states[j] && states[j][s] == x
  {
    assert states[j - 1 + 1] == Act(states[j - 1], actions[j - 1]);
    StepMeaning(states[j - 1], actions[j - 1], s);
    if i < j - 1 {
      HolderStays(states, actions, i, j - 1, s, x);
    }
  }

  /** In every interleaved run: if a subnet is reserved for X and later for another pool Y, then
      X released it in between. */
  lemma SubnetSafety(states: seq<Store>, actions: seq<Action>, i: nat, j: nat, s: Subnet, x: PoolID, y: PoolID)
    requires IsRun(states, actions) && i < j < |actions| && x != y
    requires actions[i] == Reserve(s, x) && Reserved(states[i], actions[i])
    requires actions[j] == Reserve(s, y) && Reserved(states[j], actions[j])
    ensures exists k :: i < k < j && actions[k] == Release(s, x) && ReleaseCommits(states[k], actions[k])
  {
    if forall k | i < k < j :: !(ReleaseCommits(states[k], actions[k]) && actions[k] == Release(s, x)) {
      HolderStays(states, actions, i, j, s, x);
      StepMeaning(states[j], actions[j], s);
      assert false;
    }
  }
}
