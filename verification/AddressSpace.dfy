/**
 The bookkeeping of one node over the subnets of the address space: the list of subnets it
 believes to be unused and the pools it knows.  Nothing here depends on what the other nodes do
 in etcd.
 */
module AddressSpace {
  import opened Common
  import opened Etcd
  import opened SubnetProtocol
  import Subnets

  predicate Injective(pools: map<PoolID, Subnet>) {
    forall p, q | p in pools && q in pools && p != q :: pools[p] != pools[q]
  }

  predicate Apart(pools: map<PoolID, Subnet>, unused: seq<Subnet>) {
    forall p | p in pools :: pools[p] !in unused
  }

  /** Who was found to hold the subnets that could not be reserved: subnet i was held, by
      another pool than `id`, in the contents seen[i]. */
  ghost predicate HeldByOthers(subnets: seq<Subnet>, seen: seq<Store>, id: PoolID) {
    |seen| <= |subnets| && forall i | 0 <= i < |seen| :: subnets[i] in seen[i] && seen[i][subnets[i]] != id
  }

  /** `found` records, for every pool that was met, one of the subnets it was met with. */
  ghost predicate RecordsOf(found: map<PoolID, Subnet>, subnets: seq<Subnet>, seen: seq<Store>) {
    && |seen| <= |subnets|
    && (forall i | 0 <= i < |seen| :: subnets[i] in seen[i] && seen[i][subnets[i]] in found)
    && (forall p | p in found ::
          exists i :: 0 <= i < |seen| && found[p] == subnets[i] && subnets[i] in seen[i] && seen[i][subnets[i]] == p)
  }

  lemma FoundIsInjective(found: map<PoolID, Subnet>, subnets: seq<Subnet>, seen: seq<Store>)
    requires RecordsOf(found, subnets, seen) && Distinct(subnets)
    ensures Injective(found)
    ensures forall p | p in found :: found[p] in subnets[..|seen|]
  {
    forall p, q | p in found && q in found && p != q ensures found[p] != found[q] {
      var i :| 0 <= i < |seen| && found[p] == subnets[i] && subnets[i] in seen[i] && seen[i][subnets[i]] == p;
      var j :| 0 <= j < |seen| && found[q] == subnets[j] && subnets[j] in seen[j] && seen[j][subnets[j]] == q;
      assert i != j;
    }
  }

  lemma OneMoreFound(found: map<PoolID, Subnet>, subnets: seq<Subnet>, seen: seq<Store>, contents: Store)
    requires RecordsOf(found, subnets, seen) && |seen| < |subnets| && subnets[|seen|] in contents
    ensures RecordsOf(found[contents[subnets[|seen|]] := subnets[|seen|]], subnets, seen + [contents])
  {
    var seen', holder := seen + [contents], contents[subnets[|seen|]];
    var found' := found[holder := subnets[|seen|]];
    forall p | p in found'
      ensures exists i ::
                0 <= i < |seen'| && found'[p] == subnets[i] && subnets[i] in seen'[i] && seen'[i][subnets[i]] == p
    {
      if p == holder {
        assert seen'[|seen|] == contents;
      } else {
        var i :| 0 <= i < |seen| && found[p] == subnets[i] && subnets[i] in seen[i] && seen[i][subnets[i]] == p;
        assert seen'[i] == seen[i];
      }
    }
  }

  /** Learning about the pools that hold former unused subnets keeps the bookkeeping consistent. */
  lemma MergeKeepsBookkeeping(pools: map<PoolID, Subnet>, found: map<PoolID, Subnet>, taken: seq<Subnet>,
    rest: seq<Subnet>)
    requires Injective(pools) && Apart(pools, taken + rest) && Distinct(taken + rest)
    requires Injective(found) && forall p | p in found :: found[p] in taken
    ensures Injective(pools + found) && Apart(pools + found, rest)
  {
    assert forall s | s in taken :: s in taken + rest;
    assert forall s | s in rest :: s in taken + rest;
    forall s | s in taken ensures s !in rest {
      var i :| 0 <= i < |taken| && taken[i] == s;
      forall j | 0 <= j < |rest| ensures rest[j] != s {
        assert (taken + rest)[i] == s && (taken + rest)[|taken| + j] == rest[j];
      }
    }
  }

  datatype Answer = Got(subnet: Subnet, isNew: bool) | NoneLeft | CallError

  datatype ReleaseAnswer = Released | NoSuchPool | HeldByAnother(id: PoolID) | ReleaseError

  /** The handler of a PUT event: a pool that is known already keeps its subnet. */
  function PoolsAfterPut(pools: map<PoolID, Subnet>, subnet: Subnet, id: PoolID): map<PoolID, Subnet> {
    if id in pools then pools else pools[id := subnet]
  }

  /** PUT events keep the cached pools injective exactly when the subnet is not cached under
      another id. */
  lemma PutKeepsInjectiveIff(pools: map<PoolID, Subnet>, subnet: Subnet, id: PoolID)
    requires Injective(pools)
    ensures Injective(PoolsAfterPut(pools, subnet, id)) <==> id in pools || forall p | p in pools :: pools[p] != subnet
  {
    var after := PoolsAfterPut(pools, subnet, id);
    if id !in pools {
      if p :| p in pools && pools[p] == subnet {
        assert after[p] == after[id];
      }
    }
  }

  lemma PutCanBreakInjectivity(s: Subnet)
    ensures Injective(map["a" := s]) && !Injective(PoolsAfterPut(map["a" := s], s, "b"))
  {
    var after := PoolsAfterPut(map["a" := s], s, "b");
    assert after["a"] == after["b"] && "a" != "b";
  }

  method Filter(s: seq<Subnet>, subnet: Subnet) returns (r: seq<Subnet>)
    ensures Distinct(s) ==> Distinct(r)
    ensures forall x :: x in r <==> x in s && x != subnet
  {
    r := [];
    for i := 0 to |s|
      invariant Distinct(s) ==> Distinct(r)
      invariant forall x :: x in r <==> x in s[..i] && x != subnet
    {
      assert s[..i + 1] == s[..i] + [s[i]];
      if s[i] != subnet {
        assert Distinct(s) ==> s[i] !in r;
        r := r + [s[i]];
      }
    }
    assert s[..|s|] == s;
  }

  // ---------- one reservation and one release ----------

  /** What the reservation loop did: the listed subnets were asked for in turn, subnet i on the
      contents seen[i] that held it for another pool, and the last one on the contents `at`. */
  ghost predicate Asked(
    server: Server<Subnet, PoolID>, before: Store, listed: seq<Subnet>, id: PoolID, seen: seq<Store>, at: Store,
    answer: Answer, after: Store)
  {
    && server.Chain(before, seen) && HeldByOthers(listed, seen, id)
    && match answer
       case Got(subnet, isNew) =>
         && isNew && |seen| < |listed| && subnet == listed[|seen|]
         && server.rely(Before(before, seen, |seen|), at) && Free(at, subnet, id)
           && after == Act(at, Reserve(subnet, id))
       case NoneLeft => |seen| == |listed| && after == Before(before, seen, |seen|)
       case CallError =>
         && !server.reliable && |seen| < |listed| && server.rely(Before(before, seen, |seen|), at)
         && (after == at || after == Act(at, Reserve(listed[|seen|], id)))
  }

  /** How many listed subnets were taken off the list. */
  function Taken(answer: Answer, seen: seq<Store>): nat { if answer.Got? then |seen| + 1 else |seen| }

  function PoolsAfter(pools: map<PoolID, Subnet>, id: PoolID, answer: Answer, found: map<PoolID, Subnet>)
    : map<PoolID, Subnet>
  {
    (if answer.Got? then pools[id := answer.subnet] else pools) + found
  }

  /** The loop, between two transactions. */
  ghost predicate Asking(
    server: Server<Subnet, PoolID>, before: Store, listed: seq<Subnet>, id: PoolID, seen: seq<Store>,
    found: map<PoolID, Subnet>, kv: Store)
  {
    && server.Chain(before, seen) && HeldByOthers(listed, seen, id) && kv == Before(before, seen, |seen|)
    && RecordsOf(found, listed, seen) && id !in found
  }

  lemma OneMoreAsked(
    server: Server<Subnet, PoolID>, before: Store, listed: seq<Subnet>, id: PoolID, seen: seq<Store>,
    found: map<PoolID, Subnet>, kv: Store, at: Store)
    requires Asking(server, before, listed, id, seen, found, kv) && server.rely(kv, at)
    requires |seen| < |listed| && !Free(at, listed[|seen|], id)
    ensures Asking(server, before, listed, id, seen + [at], found[at[listed[|seen|]] := listed[|seen|]], at)
  {
    OneMoreFound(found, listed, seen, at);
    server.ChainGrows(before, seen, at);
  }

  /** Undisturbed, the pool gets the first listed subnet that it can have, and none exactly when
      there is no such subnet. */
  ghost predicate GetsFirstFree(kv: Store, listed: seq<Subnet>, id: PoolID, answer: Answer, after: Store) {
    match answer
    case Got(subnet, _) =>
      && (exists k :: 0 <= k < |listed| && subnet == listed[k] && Free(kv, subnet, id)
                      && forall i | 0 <= i < k :: !Free(kv, listed[i], id))
      && after == kv[subnet := id]
    case NoneLeft => (forall i | 0 <= i < |listed| :: !Free(kv, listed[i], id)) && after == kv
    case CallError => false
  }

  lemma {:induction false} UndisturbedChain(server: Server<Subnet, PoolID>, before: Store, seen: seq<Store>, n: nat)
    requires server.Alone() && server.Chain(before, seen) && n <= |seen|
    ensures forall i | 0 <= i < n :: seen[i] == before
    ensures Before(before, seen, n) == before
  {
    if n > 0 {
      UndisturbedChain(server, before, seen, n - 1);
      assert server.rely(Before(before, seen, n - 1), seen[n - 1]);
    }
  }

  lemma UndisturbedAsking(
    server: Server<Subnet, PoolID>, kv: Store, listed: seq<Subnet>, id: PoolID, seen: seq<Store>, at: Store,
    answer: Answer, after: Store)
    requires server.Quiet() && Asked(server, kv, listed, id, seen, at, answer, after)
    ensures GetsFirstFree(kv, listed, id, answer, after)
  {
    UndisturbedChain(server, kv, seen, |seen|);
    if answer.Got? {
      StepMeaning(kv, Reserve(answer.subnet, id), answer.subnet);
      assert answer.subnet == listed[|seen|] && forall i | 0 <= i < |seen| :: !Free(kv, listed[i], id);
    }
  }

  /** What a release did on the contents `at`.  A subnet that etcd no longer has counts as released. */
  ghost predicate Returned(
    server: Server<Subnet, PoolID>, before: Store, subnet: Subnet, id: PoolID, at: Store, answer: ReleaseAnswer,
    after: Store)
  {
    && server.rely(before, at)
    && match answer
       case NoSuchPool => false
       case Released => Free(at, subnet, id) && after == Act(at, Release(subnet, id)) && subnet !in after
       case HeldByAnother(other) => subnet in at && at[subnet] == other != id && after == at
       case ReleaseError => !server.reliable && (after == at || after == Act(at, Release(subnet, id)))
  }

  // ---------- reading the subnets in use ----------

  /** How a subnet is written in a key, and read back. */
  datatype Naming = Naming(text: Subnet -> string, parse: string -> Option<Subnet>)

  ghost predicate Faithful(n: Naming) {
    forall s: Subnet :: n.parse(n.text(s)) == Some(s) && '/' !in n.text(s)
  }

  /** Nested keys and keys that cannot be read are skipped. */
  predicate IsUsed(kvs: map<string, PoolID>, parse: string -> Option<Subnet>, key: string) {
    key in kvs && '/' !in key && parse(key).Some?
  }

  /** `key` is a record that pool `id` holds subnet `s`. */
  predicate Records(kvs: map<string, PoolID>, parse: string -> Option<Subnet>, key: string, id: PoolID, s: Subnet) {
    IsUsed(kvs, parse, key) && parse(key) == Some(s) && kvs[key] == id
  }

  /** The pools found in etcd.  If a pool holds several subnets, any one of them is remembered.  No
      two pools share a subnet unless two keys mean the same subnet. */
  method GetUsedSubnets(kvs: map<string, PoolID>, parse: string -> Option<Subnet>) returns (pools: map<PoolID, Subnet>)
    ensures forall id | id in pools :: exists key :: Records(kvs, parse, key, id, pools[id])
    ensures forall key | IsUsed(kvs, parse, key) :: kvs[key] in pools
    ensures (forall k, k' | IsUsed(kvs, parse, k) && IsUsed(kvs, parse, k') && k != k' :: parse(k) != parse(k')) ==>
              Injective(pools)
  {
    pools := map[];
    var left := kvs.Keys;
    while left != {}
      invariant left <= kvs.Keys
      invariant forall id | id in pools :: exists key :: Records(kvs, parse, key, id, pools[id])
      invariant forall key | IsUsed(kvs, parse, key) && key !in left :: kvs[key] in pools
      decreases |left|
    {
      var key :| key in left;
      if '/' !in key {
        var subnet := parse(key);
        if subnet.Some? {
          assert Records(kvs, parse, key, kvs[key], subnet.value);
          pools := pools[kvs[key] := subnet.value];
        }
      }
      left := left - {key};
    }
    if forall k, k' | IsUsed(kvs, parse, k) && IsUsed(kvs, parse, k') && k != k' :: parse(k) != parse(k') {
      RecordedIsInjective(kvs, parse, pools);
    }
  }

  lemma RecordedIsInjective(kvs: map<string, PoolID>, parse: string -> Option<Subnet>, pools: map<PoolID, Subnet>)
    requires forall k, k' | IsUsed(kvs, parse, k) && IsUsed(kvs, parse, k') && k != k' :: parse(k) != parse(k')
    requires forall id | id in pools :: exists key :: Records(kvs, parse, key, id, pools[id])
    ensures Injective(pools)
  {
    forall p, q | p in pools && q in pools && p != q ensures pools[p] != pools[q] {
      var k :| Records(kvs, parse, k, p, pools[p]);
      var k' :| Records(kvs, parse, k', q, pools[q]);
      assert k != k';
    }
  }

  /** The subnets that none of the pools uses. */
  method UnusedSubnets(allSubnets: seq<Subnet>, pools: map<PoolID, Subnet>) returns (unused: seq<Subnet>)
    ensures Distinct(allSubnets) ==> Distinct(unused)
    ensures Apart(pools, unused)
    ensures forall s :: s in unused <==> s in allSubnets && forall id | id in pools :: pools[id] != s
  {
    unused := allSubnets;
    var left := pools.Keys;
    while left != {}
      invariant left <= pools.Keys && (Distinct(allSubnets) ==> Distinct(unused))
      invariant forall s :: s in unused <==> s in allSubnets && forall id | id in pools && id !in left :: pools[id] != s
      decreases |left|
    {
      var id :| id in left;
      unused := Filter(unused, pools[id]);
      left := left - {id};
    }
  }

  /** What is read of a store: for every pool that holds any subnet one that it holds. */
  ghost predicate ReadsAs(contents: Store, pools: map<PoolID, Subnet>) {
    && (forall id | id in pools :: pools[id] in contents && contents[pools[id]] == id)
    && (forall s | s in contents :: contents[s] in pools)
  }

  method ReadPools(contents: Store, naming: Naming) returns (pools: map<PoolID, Subnet>)
    requires Faithful(naming)
    ensures ReadsAs(contents, pools) && Injective(pools)
  {
    var kvs := map s | s in contents :: naming.text(s) := contents[s];
    pools := GetUsedSubnets(kvs, naming.parse);
    forall id | id in pools ensures pools[id] in contents && contents[pools[id]] == id {
      var key :| Records(kvs, naming.parse, key, id, pools[id]);
      var s :| s in contents && naming.text(s) == key;
      assert s == pools[id];
    }
    forall s | s in contents ensures contents[s] in pools {
      assert IsUsed(kvs, naming.parse, naming.text(s));
    }
  }

  /** A new address space: its subnets are all pieces of the given space, and those that etcd does
      not hold for a pool are unused.  There is none if the pieces or the contents cannot be had. */
  method NewEtcdBasedAddressSpace(
    server: Server<Subnet, PoolID>, naming: Naming, completeSpace: seq<Subnet>, poolSize: int)
    returns (space: EtcdAddressSpace?)
    requires server.Valid() && Faithful(naming) && Subnets.PrefixesFit(completeSpace)
    modifies server
    ensures space == null && server.reliable ==>
      exists i :: 0 <= i < |completeSpace| && Subnets.Refused(completeSpace[i], poolSize)
    ensures space != null ==>
      && fresh(space) && space.server == server && space.allSubnets == Subnets.Generated(completeSpace, poolSize)
      && ReadsAs(server.kv, space.pools) && Injective(space.pools)
      && (forall s :: s in space.unusedSubnets <==>
            s in space.allSubnets && forall id | id in space.pools :: space.pools[id] != s)
      && (Subnets.PairwiseDisjoint(completeSpace) ==> space.Valid())
  {
    var all := Subnets.GenerateAllSubnets(completeSpace, poolSize);
    if all.None? {
      return null;
    }
    var contents := server.Read();
    if contents.None? {
      return null;
    }
    var used := ReadPools(contents.value, naming);
    var unused := UnusedSubnets(all.value, used);
    if Subnets.PairwiseDisjoint(completeSpace) && poolSize <= 32 {
      Subnets.GeneratedDistinct(completeSpace, poolSize);
    }
    space := new EtcdAddressSpace(server, all.value, unused, used);
  }

  class EtcdAddressSpace {
    const server: Server<Subnet, PoolID>
    const allSubnets: seq<Subnet>
    var unusedSubnets: seq<Subnet>
    var pools: map<PoolID, Subnet>

    /** The list has no duplicates, no two pools share a subnet, and no listed subnet is in use. */
    ghost predicate Valid()
      reads this, server
    {
      server.Valid() && Distinct(unusedSubnets) && Injective(pools) && Apart(pools, unusedSubnets)
    }

    constructor (server: Server<Subnet, PoolID>, allSubnets: seq<Subnet>, unused: seq<Subnet>,
      pools: map<PoolID, Subnet>)
      ensures this.server == server && this.allSubnets == allSubnets && unusedSubnets == unused && this.pools == pools
    {
      this.server, this.allSubnets, this.unusedSubnets, this.pools := server, allSubnets, unused, pools;
    }

    /** The subnet of the pool, or the first listed subnet that can be reserved for it.  `seen` are the
        contents in which a listed subnet was found taken, `at` those of the last transaction, and
        `found` the pools that were met. */
    method GetOrAddPool(id: PoolID)
      returns (answer: Answer, ghost found: map<PoolID, Subnet>, ghost seen: seq<Store>, ghost at: Store)
      requires Valid()
      modifies this, server
      ensures Valid()
      ensures id in old(pools) ==>
        && answer == Got(old(pools)[id], false)
        && pools == old(pools) && unusedSubnets == old(unusedSubnets) && server.kv == old(server.kv)
      ensures id !in old(pools) ==>
        && Asked(server, old(server.kv), old(unusedSubnets), id, seen, at, answer, server.kv)
        && unusedSubnets == old(unusedSubnets)[Taken(answer, seen)..]
        && RecordsOf(found, old(unusedSubnets), seen) && pools == PoolsAfter(old(pools), id, answer, found)
        && (id in pools <==> answer.Got?)
      ensures server.Quiet() && id !in old(pools) ==>
        GetsFirstFree(old(server.kv), old(unusedSubnets), id, answer, server.kv)
    {
      found, seen, at := map[], [], server.kv;
      if id in pools {
        return Got(pools[id], false), found, seen, at;
      }
      var met;
      answer, met, seen, at := ReserveFirstFree(id);
      found := met;
      AnswerKeepsBookkeeping(pools, id, answer, met, old(unusedSubnets), seen);
      if server.Quiet() {
        UndisturbedAsking(server, old(server.kv), old(unusedSubnets), id, seen, at, answer, server.kv);
      }
      if answer.Got? {
        pools := pools[id := answer.subnet];
      }
      pools := pools + met;
    }

    /** The reservation loop.  Every pass takes a subnet off the list. */
    method ReserveFirstFree(id: PoolID)
      returns (answer: Answer, found: map<PoolID, Subnet>, ghost seen: seq<Store>, ghost at: Store)
      requires server.Valid()
      modifies this`unusedSubnets, server
      ensures Asked(server, old(server.kv), old(unusedSubnets), id, seen, at, answer, server.kv)
      ensures RecordsOf(found, old(unusedSubnets), seen) && id !in found
      ensures unusedSubnets == old(unusedSubnets)[Taken(answer, seen)..]
    {
      ghost var listed := unusedSubnets;
      seen, found, at := [], map[], server.kv;
      while unusedSubnets != []
        invariant Asking(server, old(server.kv), listed, id, seen, found, server.kv)
        invariant unusedSubnets == listed[|seen|..]
        decreases |unusedSubnets|
      {
        var subnet := unusedSubnets[0];
        var reply;
        reply, at := server.Commit(ReserveTxn(subnet, id));
        StepMeaning(at, Reserve(subnet, id), subnet);
        if reply.Failed? {
          return CallError, found, seen, at;
        }
        unusedSubnets := unusedSubnets[1..];
        if reply.succeeded || server.kv[subnet] == id {
          return Got(subnet, true), found, seen, at;
        }
        OneMoreAsked(server, old(server.kv), listed, id, seen, found, Before(old(server.kv), seen, |seen|), at);
        seen := seen + [at];
        found := found[server.kv[subnet] := subnet];
      }
      return NoneLeft, found, seen, at;
    }

    /** Give the subnet of a pool back; `at` is what the release found. */
    method ReleasePool(id: PoolID) returns (answer: ReleaseAnswer, ghost at: Store)
      requires Valid()
      modifies this, server
      ensures Valid()
      ensures answer.NoSuchPool? <==> id !in old(pools)
      ensures answer.NoSuchPool? ==>
        pools == old(pools) && unusedSubnets == old(unusedSubnets) && server.kv == old(server.kv)
      ensures id in old(pools) ==>
        var subnet, without := old(pools)[id], old(pools) - {id};
        && Returned(server, old(server.kv), subnet, id, at, answer, server.kv)
        && unusedSubnets == old(unusedSubnets) + (if answer.Released? then [subnet] else [])
        && pools == (if answer.HeldByAnother? then without[answer.id := subnet] else without)
      // undisturbed, a subnet that is gone from etcd counts as released
      ensures server.Quiet() && id in old(pools) ==>
        answer == if Free(old(server.kv), old(pools)[id], id) then Released
          else HeldByAnother(old(server.kv)[old(pools)[id]])
    {
      at := server.kv;
      if id !in pools {
        return NoSuchPool, at;
      }
      var subnet := pools[id];
      pools := pools - {id};
      var reply;
      reply, at := server.Commit(ReleaseTxn(subnet, id));
      StepMeaning(at, Release(subnet, id), subnet);
      if reply.Failed? {
        return ReleaseError, at;
      }
      if !reply.succeeded && subnet in server.kv {
        pools := pools[server.kv[subnet] := subnet];
        return HeldByAnother(server.kv[subnet]), at;
      }
      unusedSubnets := unusedSubnets + [subnet];
      return Released, at;
    }

    /** The watch tells that `subnet` was stored for pool `id`.  The bookkeeping survives exactly
        when the subnet is not cached under another id. */
    method HandlePut(subnet: Subnet, id: PoolID)
      requires Valid()
      modifies this
      ensures pools == PoolsAfterPut(old(pools), subnet, id)
      ensures Distinct(unusedSubnets)
      ensures forall s :: s in unusedSubnets <==> s in old(unusedSubnets) && (id in old(pools) || s != subnet)
      ensures Valid() <==> id in old(pools) || forall p | p in old(pools) :: old(pools)[p] != subnet
    {
      PutKeepsInjectiveIff(pools, subnet, id);
      if id !in pools {
        pools := pools[id := subnet];
        unusedSubnets := Filter(unusedSubnets, subnet);
      }
    }
  }

  lemma AnswerKeepsBookkeeping(
    pools: map<PoolID, Subnet>, id: PoolID, answer: Answer, found: map<PoolID, Subnet>, listed: seq<Subnet>,
    seen: seq<Store>)
    requires Injective(pools) && Apart(pools, listed) && Distinct(listed)
    requires RecordsOf(found, listed, seen) && id !in found
    requires answer.Got? ==> |seen| < |listed| && answer.subnet == listed[|seen|]
    ensures var after, rest := PoolsAfter(pools, id, answer, found), listed[Taken(answer, seen)..];
            Injective(after) && Apart(after, rest) && Distinct(rest)
  {
    var cut := Taken(answer, seen);
    var learnt := if answer.Got? then found[id := answer.subnet] else found;
    LearntIsConsistent(found, learnt, listed, seen, if answer.Got? then Some(id) else None);
    MergeAt(pools, learnt, listed, cut);
    assert PoolsAfter(pools, id, answer, found) == pools + learnt;
  }

  lemma MergeAt(pools: map<PoolID, Subnet>, learnt: map<PoolID, Subnet>, listed: seq<Subnet>, cut: nat)
    requires Injective(pools) && Apart(pools, listed) && Distinct(listed) && cut <= |listed|
    requires Injective(learnt) && forall p | p in learnt :: learnt[p] in listed[..cut]
    ensures Injective(pools + learnt) && Apart(pools + learnt, listed[cut..]) && Distinct(listed[cut..])
  {
    assert listed == listed[..cut] + listed[cut..];
    MergeKeepsBookkeeping(pools, learnt, listed[..cut], listed[cut..]);
  }

  /** What a reservation learns, its own subnet included, gives every pool a subnet of its own. */
  lemma LearntIsConsistent(found: map<PoolID, Subnet>, learnt: map<PoolID, Subnet>, subnets: seq<Subnet>,
    seen: seq<Store>,
                           owner: Option<PoolID>)
    requires RecordsOf(found, subnets, seen) && Distinct(subnets)
    requires owner.Some? ==> owner.value !in found && |seen| < |subnets|
    requires learnt == if owner.Some? then found[owner.value := subnets[|seen|]] else found
    ensures Injective(learnt)
    ensures forall p | p in learnt :: learnt[p] in subnets[..if owner.Some? then |seen| + 1 else |seen|]
  {
    FoundIsInjective(found, subnets, seen);
    if owner.Some? {
      OwnSubnetIsNew(found, learnt, subnets, |seen|, owner.value);
    }
  }

  lemma OwnSubnetIsNew(found: map<PoolID, Subnet>, learnt: map<PoolID, Subnet>, subnets: seq<Subnet>, k: nat,
    id: PoolID)
    requires Injective(found) && Distinct(subnets) && k < |subnets| && id !in found
    requires forall p | p in found :: found[p] in subnets[..k]
    requires learnt == found[id := subnets[k]]
    ensures Injective(learnt)
    ensures forall p | p in learnt :: learnt[p] in subnets[..k + 1]
  {
    assert subnets[k] !in subnets[..k];
    assert subnets[..k + 1] == subnets[..k] + [subnets[k]];
  }
}
