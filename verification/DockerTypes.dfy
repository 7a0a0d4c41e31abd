/**
 The `Equals` relations of the items that the stores hold, and what they mean for listeners.
 A Go map may be nil, which is not the same as empty.
 */
module DockerTypes {
  import opened Common
  import opened Notifications

  type GoMap<V> = Option<map<string, V>>

  // ---------- comparing maps ----------

  /** Two maps of the same size agree if one is contained in the other. */
  lemma ContainedAndSameSize<V>(a: map<string, V>, b: map<string, V>)
    requires |a| == |b|
    requires forall k | k in a :: k in b && a[k] == b[k]
    ensures a == b
  {
    assert a.Keys <= b.Keys && |a.Keys| == |b.Keys|;
    assert |b.Keys - a.Keys| == |b.Keys| - |a.Keys|;
  }

  /** CompareIPMaps and CompareStringMaps: the loop over one of the maps decides equality. */
  method CompareMaps<V(==)>(a: GoMap<V>, b: GoMap<V>) returns (same: bool)
    ensures same <==> a == b
  {
    if a.None? && b.None? {
      return true;
    }
    if a.None? || b.None? || |a.value| != |b.value| {
      return false;
    }
    var left := a.value.Keys;
    while left != {}
      invariant left <= a.value.Keys
      invariant forall k | k in a.value && k !in left :: k in b.value && a.value[k] == b.value[k]
      decreases |left|
    {
      var k :| k in left;
      if k !in b.value || a.value[k] != b.value[k] {
        return false;
      }
      left := left - {k};
    }
    ContainedAndSameSize(a.value, b.value);
    return true;
  }

  method CompareStringSlices(a: seq<string>, b: seq<string>) returns (same: bool)
    ensures same <==> a == b
  {
    if |a| != |b| {
      return false;
    }
    for i := 0 to |a|
      invariant a[..i] == b[..i]
    {
      if a[i] != b[i] {
        return false;
      }
    }
    return true;
  }

  method CompareStringArrayMaps(a: GoMap<seq<string>>, b: GoMap<seq<string>>) returns (same: bool)
    ensures same <==> a == b
  {
    if a.None? && b.None? {
      return true;
    }
    if a.None? || b.None? || |a.value| != |b.value| {
      return false;
    }
    var left := a.value.Keys;
    while left != {}
      invariant left <= a.value.Keys
      invariant forall k | k in a.value && k !in left :: k in b.value && a.value[k] == b.value[k]
      decreases |left|
    {
      var k :| k in left;
      if k !in b.value {
        return false;
      }
      var slices := CompareStringSlices(a.value[k], b.value[k]);
      if !slices {
        return false;
      }
      left := left - {k};
    }
    ContainedAndSameSize(a.value, b.value);
    return true;
  }

  // ---------- the items ----------

  datatype ContainerInfo = ContainerInfo(
    id: string, name: string, serviceID: string, serviceName: string, sandboxKey: string,
    ips: GoMap<Address>, dnsNames: GoMap<seq<string>>, endpoints: GoMap<string>, ipamIPs: GoMap<Address>)

  datatype ServiceInfo = ServiceInfo(
    id: string, name: string, endpointMode: string, networks: seq<string>, ipamVIPs: GoMap<Address>)

  predicate ServiceEquals(a: ServiceInfo, b: ServiceInfo) {
    a.id == b.id && a.name == b.name && a.ipamVIPs == b.ipamVIPs
  }

  predicate ContainerEquals(a: ContainerInfo, b: ContainerInfo) {
    && a.id == b.id && a.name == b.name && a.serviceID == b.serviceID && a.serviceName == b.serviceName
    && a.sandboxKey == b.sandboxKey
    && a.ips == b.ips && a.ipamIPs == b.ipamIPs && a.endpoints == b.endpoints && a.dnsNames == b.dnsNames
  }

  method ContainerInfoEquals(a: ContainerInfo, b: ContainerInfo) returns (same: bool)
    ensures same <==> a == b
    ensures same <==> ContainerEquals(a, b)
  {
    if a.id != b.id || a.name != b.name || a.serviceID != b.serviceID || a.serviceName != b.serviceName
       || a.sandboxKey != b.sandboxKey {
      return false;
    }
    same := CompareMaps(a.ips, b.ips);
    if same { same := CompareMaps(a.ipamIPs, b.ipamIPs); }
    if same { same := CompareMaps(a.endpoints, b.endpoints); }
    if same { same := CompareStringArrayMaps(a.dnsNames, b.dnsNames); }
  }

  method ServiceInfoEquals(a: ServiceInfo, b: ServiceInfo) returns (same: bool)
    ensures same <==> a == b.(endpointMode := a.endpointMode, networks := a.networks)
    ensures same <==> ServiceEquals(a, b)
  {
    if a.id != b.id || a.name != b.name {
      return false;
    }
    same := CompareMaps(a.ipamVIPs, b.ipamVIPs);
  }

  lemma EqualsAreEquivalences()
    ensures Equivalence(ContainerEquals) && Equivalence(ServiceEquals)
  {
  }

  // ---------- what listeners hold ----------

  /** Over every run a listener's copy of the containers is exact, whatever was reported when. */
  lemma ContainerListeners(contents: seq<map<string, ContainerInfo>>, diffs: seq<Diff<ContainerInfo>>)
    requires |contents| == |diffs| + 1
    requires forall i | 0 <= i < |diffs| :: IsDiff(ContainerEquals, contents[i], contents[i + 1], diffs[i])
    ensures Listen(contents[0], AllEvents(diffs)) == contents[|diffs|]
  {
    EqualsAreEquivalences();
    FaithfulReplica(ContainerEquals, contents[0], contents, diffs);
    SameContainers(Listen(contents[0], AllEvents(diffs)), contents[|diffs|]);
  }

  lemma SameContainers(a: map<string, ContainerInfo>, b: map<string, ContainerInfo>)
    requires Mirrors(ContainerEquals, a, b)
    ensures a == b
  {
  }

  /** Over every run a listener's copy of the services has the right ids, names and VIPs. */
  lemma ServiceListeners(contents: seq<map<string, ServiceInfo>>, diffs: seq<Diff<ServiceInfo>>, id: string)
    requires |contents| == |diffs| + 1
    requires forall i | 0 <= i < |diffs| :: IsDiff(ServiceEquals, contents[i], contents[i + 1], diffs[i])
    ensures var replica, data := Listen(contents[0], AllEvents(diffs)), contents[|diffs|];
            && (id in replica <==> id in data)
            && (id in data ==>
                  replica[id] == data[id].(endpointMode := replica[id].endpointMode, networks := replica[id].networks))
  {
    EqualsAreEquivalences();
    FaithfulReplica(ServiceEquals, contents[0], contents, diffs);
  }

  /** Containers are compared in every field, so a listener's copy stays exact. */
  lemma ContainerReplicaIsExact(before: map<string, ContainerInfo>, after: map<string, ContainerInfo>,
    d: Diff<ContainerInfo>)
    requires IsDiff(ContainerEquals, before, after, d)
    ensures Listen(before, EventsOf(d)) == after
  {
    ExactReplicaIff(ContainerEquals, before, after, d);
  }

  /** The copy of the services stays exact exactly when no retained service changes its endpoint
      mode or its networks while its id, name and VIPs stay the same. */
  lemma ServiceReplicaIsExactIff(before: map<string, ServiceInfo>, after: map<string, ServiceInfo>,
    d: Diff<ServiceInfo>)
    requires IsDiff(ServiceEquals, before, after, d)
    ensures Listen(before, EventsOf(d)) == after <==>
            forall id | Retained(before, after, id) && ServiceEquals(before[id], after[id]) ::
              before[id].endpointMode == after[id].endpointMode && before[id].networks == after[id].networks
  {
    ExactReplicaIff(ServiceEquals, before, after, d);
  }

  /** A change of the endpoint mode alone is never reported. */
  lemma EndpointModeChangeIsNotHeard(s: ServiceInfo, mode: string, d: Diff<ServiceInfo>)
    requires mode != s.endpointMode
    requires IsDiff(ServiceEquals, map[s.id := s], map[s.id := s.(endpointMode := mode)], d)
    ensures EventsOf(d) == [] && Listen(map[s.id := s], EventsOf(d)) != map[s.id := s.(endpointMode := mode)]
  {
    var before, after := map[s.id := s], map[s.id := s.(endpointMode := mode)];
    forall id ensures !Mentions(d.added, id) && !Mentions(Currents(d.changes), id) && !Mentions(d.removed, id) {
      DiffAt(ServiceEquals, before, after, d, id);
    }
    assert d.added == [] || Mentions(d.added, d.added[0].id);
    assert Currents(d.changes) == [] || Mentions(Currents(d.changes), Currents(d.changes)[0].id);
    assert d.removed == [] || Mentions(d.removed, d.removed[0].id);
    assert before[s.id] != after[s.id];
  }
}
