/**
 The DNS resolver.  A query is split into a name and a network in every possible way, the longest
 name first; the first split with any match answers.
 */
module Resolver {
  import opened Common
  import opened Text
  import opened DnsIndex

  /** The addresses of the containers of a DNSRR service are listed container by container. */
  datatype Service = Service(endpointMode: string, vips: map<string, Address>, containers: seq<map<string, Address>>)

  /** What a lookup reads. */
  datatype View = View(networkNameToID: map<string, string>, containerData: Index, serviceData: map<string, Service>)

  // ---------- one name on one network ----------

  function FilterByNetwork(ips: map<string, Address>, network: string): seq<Address> {
    if network in ips then [ips[network]] else []
  }

  function OfContainers(entries: seq<Entry>, network: string): seq<Address> {
    if entries == [] then []
    else OfContainers(entries[..|entries| - 1], network)
         + (if entries[|entries| - 1].networkID == network then [entries[|entries| - 1].ip] else [])
  }

  function OfBackends(containers: seq<map<string, Address>>, network: string): seq<Address> {
    if containers == [] then []
    else OfBackends(containers[..|containers| - 1], network) + FilterByNetwork(containers[|containers| - 1], network)
  }

  function ResolveContainerName(v: View, name: string, network: string): seq<Address> {
    if name in v.containerData then OfContainers(v.containerData[name], network) else []
  }

  function ResolveServiceName(v: View, name: string, network: string): seq<Address> {
    if name !in v.serviceData then []
    else
      var s := v.serviceData[name];
      if s.endpointMode == "vip" then FilterByNetwork(s.vips, network)
      else if s.endpointMode == "dnsrr" then OfBackends(s.containers, network)
      else []
  }

  function ResolveOn(v: View, name: string, networkName: string, network: string): seq<Address> {
    if networkName != "" && (networkName !in v.networkNameToID || v.networkNameToID[networkName] != network) then []
    else ResolveServiceName(v, name, network) + ResolveContainerName(v, name, network)
  }

  /** `ip` answers to `name` on `network`, where `networkName`, if given, has to be its name. */
  ghost predicate Matches(v: View, name: string, networkName: string, network: string, ip: Address) {
    && (networkName == "" || (networkName in v.networkNameToID && v.networkNameToID[networkName] == network))
    && (|| (exists e :: Has(v.containerData, name, e) && e.networkID == network && e.ip == ip)
        || (name in v.serviceData
            && var s := v.serviceData[name];
               || (s.endpointMode == "vip" && network in s.vips && s.vips[network] == ip)
               || (s.endpointMode == "dnsrr" && exists b :: b in s.containers && network in b && b[network] == ip)))
  }

  lemma {:induction false} OfContainersMeaning(entries: seq<Entry>, network: string, ip: Address)
    ensures ip in OfContainers(entries, network) <==> exists e :: e in entries && e.networkID == network && e.ip == ip
  {
    if entries != [] {
      var init, last := entries[..|entries| - 1], entries[|entries| - 1];
      OfContainersMeaning(init, network, ip);
      assert entries == init + [last];
    }
  }

  lemma {:induction false} OfBackendsMeaning(containers: seq<map<string, Address>>, network: string, ip: Address)
    ensures ip in OfBackends(containers, network) <==> exists b :: b in containers && network in b && b[network] == ip
  {
    if containers != [] {
      var init, last := containers[..|containers| - 1], containers[|containers| - 1];
      OfBackendsMeaning(init, network, ip);
      assert containers == init + [last];
    }
  }

  lemma ResolveMeaning(v: View, name: string, networkName: string, network: string, ip: Address)
    ensures ip in ResolveOn(v, name, networkName, network) <==> Matches(v, name, networkName, network, ip)
  {
    if name in v.containerData {
      OfContainersMeaning(v.containerData[name], network, ip);
      assert forall e :: e in v.containerData[name] <==> Has(v.containerData, name, e);
    }
    if name in v.serviceData {
      OfBackendsMeaning(v.serviceData[name].containers, network, ip);
    }
  }

  // ---------- the levels of a query ----------

  /** At level i the last i parts are the name of the network. */
  function NameAt(parts: seq<string>, i: nat): string
    requires i <= |parts|
  {
    Join(parts[..|parts| - i], '.')
  }

  function NetworkAt(parts: seq<string>, i: nat): string
    requires i <= |parts|
  {
    Join(parts[|parts| - i..], '.')
  }

  ghost predicate MatchesAt(v: View, parts: seq<string>, i: nat, network: string, ip: Address)
    requires i <= |parts|
  {
    Matches(v, NameAt(parts, i), NetworkAt(parts, i), network, ip)
  }

  ghost predicate LevelHas(v: View, parts: seq<string>, i: nat, networks: seq<string>, ip: Address)
    requires i <= |parts|
  {
    exists network :: network in networks && MatchesAt(v, parts, i, network, ip)
  }

  ghost predicate EmptyLevel(v: View, parts: seq<string>, i: nat, networks: seq<string>)
    requires i <= |parts|
  {
    forall ip :: !LevelHas(v, parts, i, networks, ip)
  }

  /** Level i is the first one with a match. */
  ghost predicate FirstLevel(v: View, parts: seq<string>, i: nat, networks: seq<string>) {
    && i < |parts| && !EmptyLevel(v, parts, i, networks)
    && forall j | 0 <= j < i :: EmptyLevel(v, parts, j, networks)
  }

  function Parts(query: string): seq<string> {
    Split(if query != "" && query[|query| - 1] == '.' then query[..|query| - 1] else query, '.')
  }

  /** The specification of an answer: nothing, if no level has a match; otherwise from the first
      level that has one: all its matches, or, in compatibility mode, those of a single network. */
  ghost predicate Answers(v: View, compatible: bool, query: string, networks: seq<string>, answer: seq<Address>) {
    var parts := Parts(query);
    && Distinct(answer)
    && (answer == [] <==> forall i | 0 <= i < |parts| :: EmptyLevel(v, parts, i, networks))
    && (answer != [] ==>
          exists i :: FirstLevel(v, parts, i, networks) && FromLevel(v, compatible, parts, i, networks, answer))
  }

  ghost predicate FromLevel(v: View, compatible: bool, parts: seq<string>, i: nat, networks: seq<string>,
    answer: seq<Address>)
    requires i <= |parts|
  {
    if compatible
    then exists network :: network in networks && forall ip :: ip in answer <==> MatchesAt(v, parts, i, network, ip)
    else forall ip :: ip in answer <==> LevelHas(v, parts, i, networks, ip)
  }

  lemma FirstLevelIsUnique(v: View, parts: seq<string>, i: nat, j: nat, networks: seq<string>)
    requires FirstLevel(v, parts, i, networks) && FirstLevel(v, parts, j, networks)
    ensures i == j
  {
  }

  lemma CompatibleLevel(v: View, parts: seq<string>, i: nat, networks: seq<string>, compatible: seq<Address>,
    complete: seq<Address>)
    requires i <= |parts|
    requires FromLevel(v, true, parts, i, networks, compatible) && FromLevel(v, false, parts, i, networks, complete)
    ensures forall ip | ip in compatible :: ip in complete
  {
    var network :| network in networks && forall ip :: ip in compatible <==> MatchesAt(v, parts, i, network, ip);
    forall ip | ip in compatible ensures ip in complete {
      assert MatchesAt(v, parts, i, network, ip);
      assert LevelHas(v, parts, i, networks, ip);
    }
  }

  /** Both modes answer from the same level, the compatible one with a part of what the other
      answers; and they answer nothing for the same queries. */
  lemma CompatibleIsSubset(v: View, query: string, networks: seq<string>, compatible: seq<Address>,
    complete: seq<Address>)
    requires Answers(v, true, query, networks, compatible) && Answers(v, false, query, networks, complete)
    ensures compatible == [] <==> complete == []
    ensures forall ip | ip in compatible :: ip in complete
  {
    var parts := Parts(query);
    if compatible != [] {
      var i :| FirstLevel(v, parts, i, networks) && FromLevel(v, true, parts, i, networks, compatible);
      var j :| FirstLevel(v, parts, j, networks) && FromLevel(v, false, parts, j, networks, complete);
      FirstLevelIsUnique(v, parts, i, j, networks);
      CompatibleLevel(v, parts, i, networks, compatible, complete);
    }
  }

  /** The complete answer is determined up to its order. */
  lemma CompleteAnswerIsUnique(v: View, query: string, networks: seq<string>, a: seq<Address>, b: seq<Address>)
    requires Answers(v, false, query, networks, a) && Answers(v, false, query, networks, b)
    ensures forall ip :: ip in a <==> ip in b
  {
    var parts := Parts(query);
    if a != [] {
      var i :| FirstLevel(v, parts, i, networks) && FromLevel(v, false, parts, i, networks, a);
      var j :| FirstLevel(v, parts, j, networks) && FromLevel(v, false, parts, j, networks, b);
      FirstLevelIsUnique(v, parts, i, j, networks);
    }
  }

  // ---------- the same in terms of the text of the query ----------

  /** The whole text is the name, or it is a name, a dot and the name of a network. */
  predicate Variation(q: string, name: string, networkName: string) {
    (name == q && networkName == "") || q == name + "." + networkName
  }

  ghost predicate HasOn(v: View, name: string, networkName: string, networks: seq<string>, ip: Address) {
    exists network :: network in networks && Matches(v, name, networkName, network, ip)
  }

  ghost predicate NoneOn(v: View, name: string, networkName: string, networks: seq<string>) {
    forall ip :: !HasOn(v, name, networkName, networks, ip)
  }

  /** The variation with the longest name that has any match. */
  ghost predicate Longest(v: View, q: string, networks: seq<string>, name: string, networkName: string) {
    && Variation(q, name, networkName) && !NoneOn(v, name, networkName, networks)
    && forall n, w | Variation(q, n, w) && |n| > |name| :: NoneOn(v, n, w, networks)
  }

  ghost predicate FromVariation(
    v: View, compatible: bool, name: string, networkName: string, networks: seq<string>, answer: seq<Address>)
  {
    if compatible
    then
      exists network ::
        network in networks && forall ip :: ip in answer <==> Matches(v, name, networkName, network, ip)
    else forall ip :: ip in answer <==> HasOn(v, name, networkName, networks, ip)
  }

  /** The specification of an answer to the text `q`. */
  ghost predicate AnswersText(v: View, compatible: bool, q: string, networks: seq<string>, answer: seq<Address>) {
    && Distinct(answer)
    && (answer == [] <==>
          forall name, networkName | Variation(q, name, networkName) :: NoneOn(v, name, networkName, networks))
    && (answer != [] ==>
          exists name, networkName ::
            && Longest(v, q, networks, name, networkName)
            && FromVariation(v, compatible, name, networkName, networks, answer))
  }

  /** A query with or without a final dot. */
  predicate TextOf(query: string, q: string) {
    query == q + "." || (query == q && (q == "" || q[|q| - 1] != '.'))
  }

  lemma PartsOfText(query: string, q: string)
    requires TextOf(query, q)
    ensures Parts(query) == Split(q, '.')
  {
    if query == q + "." {
      assert query[..|query| - 1] == q;
    }
  }

  /** Every level is a variation of the text. */
  lemma LevelIsVariation(q: string, i: nat)
    requires i < |Split(q, '.')|
    ensures Variation(q, NameAt(Split(q, '.'), i), NetworkAt(Split(q, '.'), i))
  {
    var parts := Split(q, '.');
    var cut := |parts| - i;
    JoinSplit(q, '.');
    assert parts == parts[..cut] + parts[cut..];
    if i > 0 {
      JoinConcat(parts[..cut], parts[cut..], '.');
    } else {
      assert parts[..cut] == parts && parts[cut..] == [];
    }
  }

  /** Every variation of the text is a level. */
  lemma VariationIsLevel(q: string, name: string, networkName: string) returns (i: nat)
    requires Variation(q, name, networkName)
    ensures i < |Split(q, '.')| && NameAt(Split(q, '.'), i) == name && NetworkAt(Split(q, '.'), i) == networkName
  {
    var parts := Split(q, '.');
    if name == q && networkName == "" {
      i := 0;
      JoinSplit(q, '.');
      assert parts[..|parts|] == parts && parts[|parts|..] == [];
    } else {
      var a, b := Split(name, '.'), Split(networkName, '.');
      SplitConcat(name, networkName, '.');
      i := |b|;
      assert parts == a + b && parts[..|a|] == a && parts[|a|..] == b;
      JoinSplit(name, '.');
      JoinSplit(networkName, '.');
    }
  }

  /** The names get shorter from level to level. */
  lemma NamesShrink(parts: seq<string>, i: nat, j: nat)
    requires i < j < |parts|
    ensures |NameAt(parts, i)| > |NameAt(parts, j)|
  {
    var a, b := parts[..|parts| - j], parts[|parts| - j..|parts| - i];
    assert parts[..|parts| - i] == a + b;
    JoinConcat(a, b, '.');
  }

  lemma AnswersInText(v: View, compatible: bool, query: string, q: string, networks: seq<string>, answer: seq<Address>)
    requires Answers(v, compatible, query, networks, answer) && TextOf(query, q)
    ensures AnswersText(v, compatible, q, networks, answer)
  {
    PartsOfText(query, q);
    NothingInText(v, q, networks);
    if answer != [] {
      var i :| FirstLevel(v, Parts(query), i, networks) && FromLevel(v, compatible, Parts(query), i, networks, answer);
      LongestLevel(v, q, networks, i);
      SameAnswer(v, compatible, Split(q, '.'), i, networks, answer);
    }
  }

  /** No level has a match exactly when no variation has. */
  lemma NothingInText(v: View, q: string, networks: seq<string>)
    ensures (forall i | 0 <= i < |Split(q, '.')| :: EmptyLevel(v, Split(q, '.'), i, networks)) <==>
            forall name, w | Variation(q, name, w) :: NoneOn(v, name, w, networks)
  {
    var parts := Split(q, '.');
    if forall i | 0 <= i < |parts| :: EmptyLevel(v, parts, i, networks) {
      forall name, w | Variation(q, name, w) ensures NoneOn(v, name, w, networks) {
        var i := VariationIsLevel(q, name, w);
        SameLevel(v, parts, i, networks);
      }
    } else {
      var i :| 0 <= i < |parts| && !EmptyLevel(v, parts, i, networks);
      LevelIsVariation(q, i);
      SameLevel(v, parts, i, networks);
    }
  }

  lemma SameAnswer(v: View, compatible: bool, parts: seq<string>, i: nat, networks: seq<string>, answer: seq<Address>)
    requires i <= |parts| && FromLevel(v, compatible, parts, i, networks, answer)
    ensures FromVariation(v, compatible, NameAt(parts, i), NetworkAt(parts, i), networks, answer)
  {
    SameLevel(v, parts, i, networks);
    if compatible {
      var network :| network in networks && forall ip :: ip in answer <==> MatchesAt(v, parts, i, network, ip);
      assert forall ip :: ip in answer <==> Matches(v, NameAt(parts, i), NetworkAt(parts, i), network, ip);
    }
  }

  lemma SameLevel(v: View, parts: seq<string>, i: nat, networks: seq<string>)
    requires i <= |parts|
    ensures forall ip :: LevelHas(v, parts, i, networks, ip) <==>
      HasOn(v, NameAt(parts, i), NetworkAt(parts, i), networks, ip)
    ensures EmptyLevel(v, parts, i, networks) <==> NoneOn(v, NameAt(parts, i), NetworkAt(parts, i), networks)
  {
    forall ip
      ensures LevelHas(v, parts, i, networks, ip) <==> HasOn(v, NameAt(parts, i), NetworkAt(parts, i), networks, ip)
    {
      if LevelHas(v, parts, i, networks, ip) {
        var network :| network in networks && MatchesAt(v, parts, i, network, ip);
        assert Matches(v, NameAt(parts, i), NetworkAt(parts, i), network, ip);
      }
      if HasOn(v, NameAt(parts, i), NetworkAt(parts, i), networks, ip) {
        var network :| network in networks && Matches(v, NameAt(parts, i), NetworkAt(parts, i), network, ip);
        assert MatchesAt(v, parts, i, network, ip);
      }
    }
  }

  lemma LongestLevel(v: View, q: string, networks: seq<string>, i: nat)
    requires FirstLevel(v, Split(q, '.'), i, networks)
    ensures Longest(v, q, networks, NameAt(Split(q, '.'), i), NetworkAt(Split(q, '.'), i))
  {
    var parts := Split(q, '.');
    LevelIsVariation(q, i);
    SameLevel(v, parts, i, networks);
    forall n, w | Variation(q, n, w) && |n| > |NameAt(parts, i)| ensures NoneOn(v, n, w, networks) {
      var j := VariationIsLevel(q, n, w);
      if j > i {
        NamesShrink(parts, i, j);
      }
      assert EmptyLevel(v, parts, j, networks);
      SameLevel(v, parts, j, networks);
    }
  }

  // ---------- helpers of the lookup ----------

  /** An arbitrary reordering; the order of networks and of answers is not specified. */
  method Shuffle<T(==)>(s: seq<T>) returns (r: seq<T>)
    ensures multiset(r) == multiset(s)
  {
    r := [];
    var left := s;
    while left != []
      invariant multiset(r) + multiset(left) == multiset(s)
      decreases |left|
    {
      var i :| 0 <= i < |left|;
      assert left == left[..i] + [left[i]] + left[i + 1..];
      r := r + [left[i]];
      left := left[..i] + left[i + 1..];
    }
  }

  method Unique(s: seq<Address>) returns (r: seq<Address>)
    ensures Distinct(r)
    ensures forall x :: x in r <==> x in s
  {
    r := [];
    for i := 0 to |s|
      invariant Distinct(r)
      invariant forall x :: x in r <==> x in s[..i]
    {
      assert s[..i + 1] == s[..i] + [s[i]];
      if s[i] !in r {
        r := r + [s[i]];
      }
    }
    assert s[..|s|] == s;
  }

  lemma SameMembers<T>(a: seq<T>, b: seq<T>)
    requires multiset(a) == multiset(b)
    ensures forall x :: x in a <==> x in b
  {
    forall x ensures x in a <==> x in b {
      assert x in multiset(a) <==> x in a;
      assert x in multiset(b) <==> x in b;
    }
  }

  lemma {:induction false} DistinctByCount<T>(s: seq<T>)
    ensures Distinct(s) <==> forall x :: multiset(s)[x] <= 1
  {
    if s != [] {
      var init, last := s[..|s| - 1], s[|s| - 1];
      DistinctByCount(init);
      assert s == init + [last];
      assert multiset(s) == multiset(init) + multiset{last};
      assert Distinct(s) <==> Distinct(init) && last !in init by {
        if Distinct(init) && last !in init {
          assert forall i | 0 <= i < |init| :: s[i] == init[i];
        }
      }
      assert last in init <==> last in multiset(init);
      assert forall x :: multiset(s)[x] == multiset(init)[x] + (if x == last then 1 else 0);
    }
  }

  lemma NonEmptyHasMember<T>(s: seq<T>)
    ensures s == [] || exists x :: x in s
  {
    if s != [] {
      assert s[0] in s;
    }
  }

  class DnsResolver {
    const dockerCompatibilityMode: bool
    var networkNameToID: map<string, string>
    var containerData: Index
    var serviceData: map<string, Service>

    constructor (dockerCompatibilityMode: bool)
      ensures this.dockerCompatibilityMode == dockerCompatibilityMode
      ensures containerData == map[] && serviceData == map[] && networkNameToID == map[]
      ensures Indexes(containerData, map[])
    {
      this.dockerCompatibilityMode := dockerCompatibilityMode;
      networkNameToID, containerData, serviceData := map[], map[], map[];
    }

    function Seen(): View reads this { View(networkNameToID, containerData, serviceData) }

    method AddContainer(c: Container)
      requires NoEmptyList(containerData)
      modifies this`containerData
      ensures Transition(old(containerData), Operation.AddContainer(c), containerData)
    {
      containerData := AddAll(containerData, c);
    }

    method UpdateContainer(c: Container)
      requires NoEmptyList(containerData)
      modifies this`containerData
      ensures Transition(old(containerData), Operation.UpdateContainer(c), containerData)
    {
      containerData := UpdateAll(containerData, c);
    }

    method RemoveContainer(c: Container)
      requires NoEmptyList(containerData)
      modifies this`containerData
      ensures Transition(old(containerData), Operation.RemoveContainer(c), containerData)
    {
      containerData := RemoveAll(containerData, c);
    }

    method ResolveName(query: string, validNetworkIDs: seq<string>) returns (answer: seq<Address>)
      ensures Answers(Seen(), dockerCompatibilityMode, query, validNetworkIDs, answer)
      ensures forall q | TextOf(query, q) :: AnswersText(Seen(), dockerCompatibilityMode, q, validNetworkIDs, answer)
    {
      var parts := Parts(query);
      var networks := Shuffle(validNetworkIDs);
      SameMembers(networks, validNetworkIDs);
      var found: seq<Address> := [];
      var i := 0;
      while i < |parts| && found == []
        invariant 0 <= i <= |parts|
        invariant forall j | 0 <= j < i :: found == [] || j < i - 1 ==> EmptyLevel(Seen(), parts, j, validNetworkIDs)
        invariant found != [] ==>
          i > 0 && FromLevel(Seen(), dockerCompatibilityMode, parts, i - 1, validNetworkIDs, found)
        decreases |parts| - i, found == []
      {
        found := ResolveLevel(Seen(), dockerCompatibilityMode, parts, i, networks);
        SameNetworks(Seen(), dockerCompatibilityMode, parts, i, networks, validNetworkIDs, found);
        i := i + 1;
      }
      var unique := Unique(found);
      answer := Shuffle(unique);
      SameMembers(answer, unique);
      DistinctByCount(answer);
      DistinctByCount(unique);
      FoundIsAnswer(Seen(), dockerCompatibilityMode, query, validNetworkIDs, found, answer, i);
      forall q | TextOf(query, q) ensures AnswersText(Seen(), dockerCompatibilityMode, q, validNetworkIDs, answer) {
        AnswersInText(Seen(), dockerCompatibilityMode, query, q, validNetworkIDs, answer);
      }
    }
  }

  /** All networks of one level; in compatibility mode up to the first network with a match. */
  method ResolveLevel(v: View, compatible: bool, parts: seq<string>, i: nat, networks: seq<string>)
    returns (found: seq<Address>)
    requires i <= |parts|
    ensures found == [] <==> EmptyLevel(v, parts, i, networks)
    ensures found != [] ==> FromLevel(v, compatible, parts, i, networks, found)
  {
    found := [];
    for k := 0 to |networks|
      invariant forall ip :: ip in found <==> LevelHas(v, parts, i, networks[..k], ip)
      invariant compatible ==> found == []
    {
      assert networks[..k + 1] == networks[..k] + [networks[k]];
      var here := ResolveOn(v, NameAt(parts, i), NetworkAt(parts, i), networks[k]);
      forall ip ensures ip in here <==> MatchesAt(v, parts, i, networks[k], ip) {
        ResolveMeaning(v, NameAt(parts, i), NetworkAt(parts, i), networks[k], ip);
      }
      found := found + here;
      if compatible && found != [] {
        assert networks[k] in networks && forall ip :: ip in found <==> MatchesAt(v, parts, i, networks[k], ip);
        assert LevelHas(v, parts, i, networks, found[0]) by {
          assert found[0] in here && networks[k] in networks && MatchesAt(v, parts, i, networks[k], found[0]);
        }
        return;
      }
    }
    assert networks[..|networks|] == networks;
    if found != [] {
      assert found[0] in found;
    }
  }

  lemma SameNetworks(v: View, compatible: bool, parts: seq<string>, i: nat, networks: seq<string>, valid: seq<string>,
    found: seq<Address>)
    requires i <= |parts| && forall n :: n in networks <==> n in valid
    ensures EmptyLevel(v, parts, i, networks) <==> EmptyLevel(v, parts, i, valid)
    ensures FromLevel(v, compatible, parts, i, networks, found) <==> FromLevel(v, compatible, parts, i, valid, found)
  {
    forall ip ensures LevelHas(v, parts, i, networks, ip) <==> LevelHas(v, parts, i, valid, ip) { }
  }

  lemma FoundIsAnswer(v: View, compatible: bool, query: string, networks: seq<string>, found: seq<Address>,
    answer: seq<Address>, i: nat)
    requires i <= |Parts(query)| && Distinct(answer) && forall ip :: ip in answer <==> ip in found
    requires forall j | 0 <= j < i :: found == [] || j < i - 1 ==> EmptyLevel(v, Parts(query), j, networks)
    requires found == [] ==> i == |Parts(query)|
    requires found != [] ==> i > 0 && FromLevel(v, compatible, Parts(query), i - 1, networks, found)
    ensures Answers(v, compatible, query, networks, answer)
  {
    var parts := Parts(query);
    if found == [] {
      NonEmptyHasMember(answer);
    } else {
      NonEmptyHasMember(found);
      assert answer != [];
      NonEmptyLevel(v, compatible, parts, i - 1, networks, found);
      assert FirstLevel(v, parts, i - 1, networks);
      assert FromLevel(v, compatible, parts, i - 1, networks, answer);
    }
  }

  lemma NonEmptyLevel(v: View, compatible: bool, parts: seq<string>, i: nat, networks: seq<string>, found: seq<Address>)
    requires i <= |parts| && found != [] && FromLevel(v, compatible, parts, i, networks, found)
    ensures !EmptyLevel(v, parts, i, networks)
  {
    assert found[0] in found;
    assert LevelHas(v, parts, i, networks, found[0]);
  }
}
