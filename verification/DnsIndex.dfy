/**
 The inverted index of the DNS resolver, from names to the containers that answer to them.  As a
 set of tuples (name, container, network, address) it holds what the live containers claim.
 */
module DnsIndex {
  import opened Common

  datatype Entry = Entry(containerID: string, networkID: string, ip: Address)
  type Index = map<string, seq<Entry>>

  /** What the resolver needs to know of a container. */
  datatype Container = Container(id: string, dnsNames: map<string, seq<string>>, ips: map<string, int>)

  function IpOn(c: Container, network: string): Address {
    if network in c.ips then Some(c.ips[network]) else None
  }

  predicate Has(index: Index, name: string, e: Entry) { name in index && e in index[name] }

  predicate Wants(c: Container, network: string, name: string) { network in c.dnsNames && name in c.dnsNames[network] }

  function EntryOf(c: Container, network: string): Entry { Entry(c.id, network, IpOn(c, network)) }

  /** `ip` is the address of the container on the network; a container without one there has the nil
      address. */
  predicate HasAddress(c: Container, network: string, ip: Address) {
    (ip.Some? <==> network in c.ips) && (ip.Some? ==> ip.value == c.ips[network])
  }

  /** The container claims this tuple. */
  predicate Claims(c: Container, name: string, e: Entry) {
    && e.containerID == c.id && e.networkID in c.dnsNames && name in c.dnsNames[e.networkID]
    && HasAddress(c, e.networkID, e.ip)
  }

  predicate NoEmptyList(index: Index) { forall name | name in index :: index[name] != [] }

  // ---------- lists ----------

  function Add(index: Index, name: string, e: Entry): Index {
    index[name := (if name in index then index[name] else []) + [e]]
  }

  function Filter(items: seq<Entry>, drop: Entry -> bool): seq<Entry> {
    if items == [] then []
    else Filter(items[..|items| - 1], drop) + (if drop(items[|items| - 1]) then [] else [items[|items| - 1]])
  }

  lemma {:induction false} FilterMembers(items: seq<Entry>, drop: Entry -> bool)
    ensures forall e :: e in Filter(items, drop) <==> e in items && !drop(e)
  {
    if items != [] {
      FilterMembers(items[..|items| - 1], drop);
      assert items == items[..|items| - 1] + [items[|items| - 1]];
    }
  }

  /** Drop entries from the list of a name; a list that becomes empty is deleted. */
  function Remove(index: Index, name: string, drop: Entry -> bool): Index {
    var items := if name in index then Filter(index[name], drop) else [];
    if items == [] then index - {name} else index[name := items]
  }

  lemma AddMeaning(index: Index, name: string, e: Entry)
    requires NoEmptyList(index)
    ensures NoEmptyList(Add(index, name, e))
    ensures forall n, x :: Has(Add(index, name, e), n, x) <==> Has(index, n, x) || (n == name && x == e)
  {
  }

  lemma RemoveMeaning(index: Index, name: string, drop: Entry -> bool)
    requires NoEmptyList(index)
    ensures NoEmptyList(Remove(index, name, drop))
    ensures forall n, x :: Has(Remove(index, name, drop), n, x) <==> Has(index, n, x) && !(n == name && drop(x))
  {
    if name in index {
      FilterMembers(index[name], drop);
    }
  }

  // ---------- the three operations ----------

  ghost predicate Added(index: Index, c: Container, index': Index) {
    forall name, e :: Has(index', name, e) <==> Has(index, name, e) || Claims(c, name, e)
  }

  ghost predicate Named(c: Container, name: string) { exists network :: Wants(c, network, name) }

  ghost predicate Removed(index: Index, c: Container, index': Index) {
    forall name, e :: Has(index', name, e) <==> Has(index, name, e) && !(e.containerID == c.id && Named(c, name))
  }

  ghost predicate Known(index: Index, id: string, network: string, name: string) {
    exists ip :: Has(index, name, Entry(id, network, ip))
  }

  /** An update leaves the other containers alone, drops what is no longer wanted, keeps what is
      there already as it is, and adds what is new. */
  ghost predicate Updated(index: Index, c: Container, index': Index) {
    && (forall name, e: Entry | e.containerID != c.id :: Has(index', name, e) <==> Has(index, name, e))
    && (forall name, e: Entry | e.containerID == c.id && Has(index', name, e) ::
          Wants(c, e.networkID, name) && (Has(index, name, e) || Claims(c, name, e)))
    && (forall name, e: Entry | e.containerID == c.id && Has(index, name, e) && Wants(c, e.networkID, name) ::
      Has(index', name, e))
    && (forall name, e | Claims(c, name, e) && !Known(index, c.id, e.networkID, name) :: Has(index', name, e))
  }

  /** The tuples of the container are exactly the ones it claims, all others are as before. */
  ghost predicate Replaced(index: Index, c: Container, index': Index) {
    forall name, e :: Has(index', name, e) <==>
      (if e.containerID == c.id then Claims(c, name, e) else Has(index, name, e))
  }

  /** The address of every retained name and network is the one it had. */
  ghost predicate KeepsAddresses(index: Index, c: Container) {
    forall name, e | Has(index, name, e) && e.containerID == c.id && Wants(c, e.networkID, name) ::
      HasAddress(c, e.networkID, e.ip)
  }

  /** An update replaces the tuples of the container exactly when the addresses of the retained
      names have not changed; otherwise the index goes on answering the old address. */
  lemma UpdateReplacesIff(index: Index, c: Container, index': Index)
    requires Updated(index, c, index')
    ensures Replaced(index, c, index') <==> KeepsAddresses(index, c)
  {
    if KeepsAddresses(index, c) {
      forall name, e: Entry | e.containerID == c.id ensures Has(index', name, e) <==> Claims(c, name, e) {
        if Claims(c, name, e) && Known(index, c.id, e.networkID, name) {
          var ip :| Has(index, name, Entry(c.id, e.networkID, ip));
          assert Entry(c.id, e.networkID, ip) == e;
        }
      }
    } else {
      var name, e :| Has(index, name, e) && e.containerID == c.id && Wants(c, e.networkID, name)
        && !HasAddress(c, e.networkID, e.ip);
      assert Has(index', name, e) && !Claims(c, name, e);
    }
  }

  // ---------- runs ----------

  datatype Operation = AddContainer(c: Container) | UpdateContainer(c: Container) | RemoveContainer(c: Container)

  type Live = map<string, Container>

  /** The index holds the tuples of the live containers, and nothing else. */
  ghost predicate Indexes(index: Index, live: Live) {
    && NoEmptyList(index)
    && (forall id | id in live :: live[id].id == id)
    && (forall name, e :: Has(index, name, e) <==> e.containerID in live && Claims(live[e.containerID], name, e))
  }

  ghost predicate Transition(index: Index, op: Operation, index': Index) {
    && NoEmptyList(index')
    && match op
       case AddContainer(c) => Added(index, c, index')
       case UpdateContainer(c) => Updated(index, c, index')
       case RemoveContainer(c) => Removed(index, c, index')
  }

  function LiveAfter(live: Live, op: Operation): Live {
    if op.RemoveContainer? then live - {op.c.id} else live[op.c.id := op.c]
  }

  /** Containers are added once, removed with what was last known of them, and an update keeps the
      address of every retained name and network. */
  ghost predicate Consistent(live: Live, op: Operation) {
    match op
    case AddContainer(c) => c.id !in live
    case RemoveContainer(c) => c.id in live ==> live[c.id] == c
    case UpdateContainer(c) => c.id in live ==>
      forall network, name | Wants(live[c.id], network, name) && Wants(c, network, name) ::
        (network in live[c.id].ips <==> network in c.ips)
        && (network in c.ips ==> live[c.id].ips[network] == c.ips[network])
  }

  lemma IndexStep(index: Index, live: Live, op: Operation, index': Index)
    requires Indexes(index, live) && Consistent(live, op) && Transition(index, op, index')
    ensures Indexes(index', LiveAfter(live, op))
  {
    match op {
      case AddContainer(c) =>
      case UpdateContainer(c) =>
        assert KeepsAddresses(index, c);
        UpdateReplacesIff(index, c, index');
      case RemoveContainer(c) =>
        forall name, e | Has(index, name, e) && e.containerID == c.id ensures Named(c, name) {
          assert Wants(c, e.networkID, name);
        }
    }
  }

  ghost predicate IsRun(states: seq<Index>, lives: seq<Live>, ops: seq<Operation>) {
    && |states| == |lives| == |ops| + 1
    && Indexes(states[0], lives[0])
    && forall i | 0 <= i < |ops| ::
         Consistent(lives[i], ops[i]) && Transition(states[i], ops[i], states[i + 1])
           && lives[i + 1] == LiveAfter(lives[i], ops[i])
  }

  /** After any run the index is that of the live containers. */
  lemma {:induction false} IndexInEveryRun(states: seq<Index>, lives: seq<Live>, ops: seq<Operation>, n: nat)
    requires IsRun(states, lives, ops) && n < |states|
    ensures Indexes(states[n], lives[n])
  {
    if n > 0 {
      IndexInEveryRun(states, lives, ops, n - 1);
      assert Transition(states[n - 1], ops[n - 1], states[n - 1 + 1])
        && lives[n - 1 + 1] == LiveAfter(lives[n - 1], ops[n - 1]);
      IndexStep(states[n - 1], lives[n - 1], ops[n - 1], states[n]);
    }
  }

  /** What is indexed of a live container under a name on a network: its address there, and only that;
      the nil address exactly if it has none. */
  lemma LiveEntries(index: Index, live: Live, id: string, network: string, name: string, e: Entry)
    requires Indexes(index, live) && id in live && e.containerID == id && e.networkID == network
    ensures Has(index, name, e) <==>
            var c := live[id];
            && network in c.dnsNames && name in c.dnsNames[network]
            && e.ip == if network in c.ips then Some(c.ips[network]) else None
  {
    assert e == Entry(id, network, e.ip);
  }

  /** Updating a live container is the same as removing and adding it. */
  lemma UpdateIsRemoveThenAdd(index: Index, live: Live, c: Container, updated: Index, removed: Index, readded: Index)
    requires Indexes(index, live) && c.id in live && Consistent(live, UpdateContainer(c))
    requires Transition(index, UpdateContainer(c), updated)
    requires Transition(index, RemoveContainer(live[c.id]), removed) && Transition(removed, AddContainer(c), readded)
    ensures forall name, e :: Has(updated, name, e) <==> Has(readded, name, e)
  {
    IndexStep(index, live, UpdateContainer(c), updated);
    IndexStep(index, live, RemoveContainer(live[c.id]), removed);
    IndexStep(removed, live - {c.id}, AddContainer(c), readded);
    assert (live - {c.id})[c.id := c] == live[c.id := c];
  }

  /** A container that moves to another address on a network keeps being found at the old one. */
  lemma MovedContainerKeepsOldAddress(index': Index)
    requires Updated(map["web" := [Entry("c", "net", Some(1))]], Container("c", map["net" := ["web"]], map["net" := 2]),
        index')
    ensures Has(index', "web", Entry("c", "net", Some(1)))
  {
    assert Has(map["web" := [Entry("c", "net", Some(1))]], "web", Entry("c", "net", Some(1)));
    assert "web" in ["web"];
  }

  // ---------- the loops ----------

  /** The pairs of a network and a name that the container wants. */
  function Pairs(c: Container): set<(string, string)> {
    set network, name | network in c.dnsNames && name in c.dnsNames[network] :: (network, name)
  }

  lemma PairsMeaning(c: Container, network: string, name: string)
    ensures (network, name) in Pairs(c) <==> Wants(c, network, name)
  {
  }

  method AddAll(index: Index, c: Container) returns (result: Index)
    requires NoEmptyList(index)
    ensures NoEmptyList(result) && Added(index, c, result)
  {
    result := index;
    var networks := c.dnsNames.Keys;
    while networks != {}
      invariant networks <= c.dnsNames.Keys && NoEmptyList(result)
      invariant forall name, e :: Has(result, name, e) <==>
          Has(index, name, e) || (Claims(c, name, e) && e.networkID !in networks)
      decreases |networks|
    {
      var network :| network in networks;
      ghost var before := result;
      var names := c.dnsNames[network];
      for i := 0 to |names|
        invariant NoEmptyList(result)
        invariant forall name, e :: Has(result, name, e) <==>
            Has(before, name, e) || (name in names[..i] && e == EntryOf(c, network))
      {
        assert names[..i + 1] == names[..i] + [names[i]];
        AddMeaning(result, names[i], EntryOf(c, network));
        result := Add(result, names[i], EntryOf(c, network));
      }
      assert names[..|names|] == names;
      networks := networks - {network};
    }
  }

  method RemoveAll(index: Index, c: Container) returns (result: Index)
    requires NoEmptyList(index)
    ensures NoEmptyList(result) && Removed(index, c, result)
  {
    result := index;
    var networks := c.dnsNames.Keys;
    ghost var done: set<string> := {};
    while networks != {}
      invariant networks <= c.dnsNames.Keys && NoEmptyList(result)
      invariant forall name :: name in done <==> exists network :: network !in networks && Wants(c, network, name)
      invariant forall name, e :: Has(result, name, e) <==>
          Has(index, name, e) && !(e.containerID == c.id && name in done)
      decreases |networks|
    {
      var network :| network in networks;
      var names := c.dnsNames[network];
      ghost var before, doneBefore := result, done;
      for i := 0 to |names|
        invariant NoEmptyList(result)
        invariant forall name, e :: Has(result, name, e) <==>
            Has(before, name, e) && !(e.containerID == c.id && name in names[..i])
      {
        assert names[..i + 1] == names[..i] + [names[i]];
        RemoveMeaning(result, names[i], (e: Entry) => e.containerID == c.id);
        result := Remove(result, names[i], (e: Entry) => e.containerID == c.id);
      }
      assert names[..|names|] == names;
      networks := networks - {network};
      done := done + (set name | name in names);
      forall name ensures name in done <==> exists network :: network !in networks && Wants(c, network, name) {
        if name in names { assert Wants(c, network, name); }
      }
    }
  }

  /** The pairs of a network and a name under which the container is indexed. */
  method KnownPairs(index: Index, id: string) returns (known: set<(string, string)>)
    ensures forall network, name :: (network, name) in known <==> Known(index, id, network, name)
  {
    known := {};
    var names := index.Keys;
    while names != {}
      invariant names <= index.Keys
      invariant forall network, name :: (network, name) in known <==> name !in names && Known(index, id, network, name)
      decreases |names|
    {
      var name :| name in names;
      var found := NetworksOf(index[name], id);
      forall network ensures network in found <==> Known(index, id, network, name) {
        if network in found {
          var e :| e in index[name] && e.containerID == id && e.networkID == network;
          assert Has(index, name, Entry(id, network, e.ip));
        }
      }
      known := known + (set network | network in found :: (network, name));
      names := names - {name};
    }
  }

  method NetworksOf(items: seq<Entry>, id: string) returns (networks: set<string>)
    ensures forall network :: network in networks <==>
      exists e :: e in items && e.containerID == id && e.networkID == network
  {
    networks := {};
    for i := 0 to |items|
      invariant forall network :: network in networks <==>
          exists e :: e in items[..i] && e.containerID == id && e.networkID == network
    {
      assert items[..i + 1] == items[..i] + [items[i]];
      if items[i].containerID == id {
        networks := networks + {items[i].networkID};
      }
    }
    assert items[..|items|] == items;
  }

  /** Add the wanted pairs that are not known; what remains of the known ones is not wanted. */
  method AddMissing(index: Index, c: Container, known: set<(string, string)>)
    returns (result: Index, left: set<(string, string)>)
    requires NoEmptyList(index)
    ensures NoEmptyList(result)
    ensures left == known - Pairs(c)
    ensures forall name, e | Has(index, name, e) :: Has(result, name, e)
    ensures forall name, e | Has(result, name, e) :: Has(index, name, e) || Claims(c, name, e)
    ensures forall name, e | Claims(c, name, e) && (e.networkID, name) !in known :: Has(result, name, e)
  {
    result, left := index, known;
    var networks := c.dnsNames.Keys;
    ghost var done: set<(string, string)> := {};
    while networks != {}
      invariant networks <= c.dnsNames.Keys && NoEmptyList(result)
      invariant forall network, name :: (network, name) in done <==> network !in networks && Wants(c, network, name)
      invariant left == known - done
      invariant forall name, e | Has(index, name, e) :: Has(result, name, e)
      invariant forall name, e | Has(result, name, e) :: Has(index, name, e) || Claims(c, name, e)
      invariant forall name, e | Claims(c, name, e) && (e.networkID, name) in done - known :: Has(result, name, e)
      decreases |networks|
    {
      var network :| network in networks;
      var names := c.dnsNames[network];
      ghost var before := done;
      for i := 0 to |names|
        invariant NoEmptyList(result)
        invariant done == before + (set name | name in names[..i] :: (network, name))
        invariant left == known - done
        invariant forall name, e | Has(index, name, e) :: Has(result, name, e)
        invariant forall name, e | Has(result, name, e) :: Has(index, name, e) || Claims(c, name, e)
        invariant forall name, e | Claims(c, name, e) && (e.networkID, name) in done - known :: Has(result, name, e)
      {
        assert names[..i + 1] == names[..i] + [names[i]];
        var pair := (network, names[i]);
        AddMeaning(result, names[i], EntryOf(c, network));
        if pair in left {
          left := left - {pair};
        } else {
          result := Add(result, names[i], EntryOf(c, network));
        }
        done := done + {pair};
      }
      assert names[..|names|] == names;
      networks := networks - {network};
    }
    assert done == Pairs(c) by {
      forall p: (string, string) ensures p in done <==> p in Pairs(c) {
        assert p == (p.0, p.1);
        PairsMeaning(c, p.0, p.1);
      }
    }
  }

  method DropPairs(index: Index, id: string, pairs: set<(string, string)>) returns (result: Index)
    requires NoEmptyList(index)
    ensures NoEmptyList(result)
    ensures forall name, e :: Has(result, name, e) <==>
      Has(index, name, e) && !(e.containerID == id && (e.networkID, name) in pairs)
  {
    result := index;
    var left := pairs;
    while left != {}
      invariant left <= pairs && NoEmptyList(result)
      invariant forall name, e :: Has(result, name, e) <==>
          Has(index, name, e) && !(e.containerID == id && (e.networkID, name) in pairs - left)
      decreases |left|
    {
      var pair :| pair in left;
      var drop := (e: Entry) => e.containerID == id && e.networkID == pair.0;
      RemoveMeaning(result, pair.1, drop);
      result := Remove(result, pair.1, drop);
      left := left - {pair};
    }
  }

  method UpdateAll(index: Index, c: Container) returns (result: Index)
    requires NoEmptyList(index)
    ensures NoEmptyList(result) && Updated(index, c, result)
  {
    var known := KnownPairs(index, c.id);
    var grown, left := AddMissing(index, c, known);
    result := DropPairs(grown, c.id, left);
    forall network, name ensures (network, name) in left <==>
      Known(index, c.id, network, name) && !Wants(c, network, name) {
      PairsMeaning(c, network, name);
    }
    forall name, e: Entry | e.containerID == c.id && Has(result, name, e) ensures Wants(c, e.networkID, name) {
      if Has(index, name, e) {
        assert e == Entry(c.id, e.networkID, e.ip);
        assert Known(index, c.id, e.networkID, name);
      }
    }
  }
}
