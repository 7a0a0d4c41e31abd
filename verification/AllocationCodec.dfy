/**
 The text form of the allocation records: the keys and values the transactions write, and the
 decoder that puts the records together again from a range read.  The decoder handles one key
 at a time; the order in which the keys arrive does not matter.
 */
module AllocationCodec {
  import opened Common
  import opened Text
  import opened AllocationProtocol
  import opened AllocationClient
  import Ipv4

  /** A textual form of instants in whole seconds. */
  datatype Clock = Clock(format: int -> string, parse: string -> Option<int>)

  ghost predicate RoundTrips(c: Clock) {
    forall t: int :: c.parse(c.format(t)) == Some(t)
  }

  function TypeText(t: AllocationType): string {
    match t
    case ReservedType => "reserved"
    case ContainerIPType => "container-ip"
    case ServiceVIPType => "service-vip"
    case UnknownType => "unknown"
  }

  function FieldText(f: Field): string
    requires f != Type
  {
    match f
    case AllocatedAt => "allocated-at"
    case Mac => "mac"
    case ServiceID => "service-id"
  }

  function KeyText(prefix: string, k: Key): string {
    prefix + "/" + (if k.field == Type then FormatIp(k.ip) else FormatIp(k.ip) + "/" + FieldText(k.field))
  }

  function ValueText(c: Clock, v: Value): string {
    match v
    case TypeName(t) => TypeText(t)
    case Instant(seconds) => c.format(seconds)
    case Data(text) => text
  }

  /** What the decoder builds.  Fields that were not found have their zero value. */
  datatype Raw = Raw(ip: Option<Ip>, allocationType: string, allocatedAt: int, dataKey: string, data: string)

  const NOTHING := Raw(None, "", ZERO_TIME, "", "")

  function AddOrUpdate<T>(store: map<string, T>, id: string, valueToAdd: T, update: T -> T): map<string, T> {
    store[id := if id in store then update(store[id]) else valueToAdd]
  }

  function DecodeSubKey(c: Clock, result: map<string, Raw>, fullKey: string, id: string, field: string, value: string)
    : map<string, Raw>
  {
    if field == "mac" || field == "service-id" then
      AddOrUpdate(result, id, NOTHING.(dataKey := fullKey, data := value),
                  (r: Raw) => r.(dataKey := fullKey, data := value))
    else if field == "allocated-at" then
      var at := c.parse(value);
      if at.None? then result
      else AddOrUpdate(result, id, NOTHING.(allocatedAt := at.value * NANOS),
                       (r: Raw) => r.(allocatedAt := at.value * NANOS))
    else result
  }

  function DecodeEntry(c: Clock, prefix: string, result: map<string, Raw>, fullKey: string, value: string)
    : map<string, Raw>
  {
    var key := TrimLeft(TrimPrefix(fullKey, prefix), '/');
    if '/' !in key then
      var ip := ParseIp(key);
      if ip.None? then result
      else AddOrUpdate(result, key, NOTHING.(ip := ip, allocationType := value),
                       (r: Raw) => r.(ip := ip, allocationType := value))
    else
      var parts := Split(key, '/');
      if |parts| != 2 then result
      else DecodeSubKey(c, result, fullKey, parts[0], parts[1], value)
  }

  // ---------- what the text of a store means ----------

  /** How addresses, keys and types are written.  `ip` reads an address back. */
  datatype Naming = Naming(id: Ip -> string, ip: string -> Ip, key: Key -> string, typeText: AllocationType -> string)

  ghost predicate Faithful(n: Naming) {
    forall ip: Ip :: n.ip(n.id(ip)) == ip
  }

  function IpOf(id: string): Ip {
    var ip := ParseIp(id);
    if ip.Some? then ip.value else 0
  }

  function Textual(prefix: string): Naming {
    Naming((ip: Ip) => FormatIp(ip), (s: string) => IpOf(s), (k: Key) => KeyText(prefix, k),
           (t: AllocationType) => TypeText(t))
  }

  lemma TextualIsFaithful(prefix: string)
    ensures Faithful(Textual(prefix))
  {
    forall ip: Ip ensures Textual(prefix).ip(Textual(prefix).id(ip)) == ip {
      ParseFormatIp(ip);
    }
  }

  function DataKeyIn(n: Naming, st: Store, ip: Ip): string {
    if Key(ip, ServiceID) in st then n.key(Key(ip, ServiceID))
    else if Key(ip, Mac) in st then n.key(Key(ip, Mac))
    else ""
  }

  function RawOne(n: Naming, st: Store, ip: Ip): Raw {
    Raw(if Key(ip, Type) in st then Some(ip) else None,
        if Key(ip, Type) in st then n.typeText(TypeIn(st, ip)) else "",
        TimeIn(st, ip),
        DataKeyIn(n, st, ip),
        DecodeOne(st, ip).data)
  }

  /** The records of a store, or of any part of one, under their textual address. */
  function RawDecode(n: Naming, st: Store): map<string, Raw> {
    var ids := set k | k in st :: n.id(k.ip);
    map id | id in ids :: RawOne(n, st, n.ip(id))
  }

  /** The value has the kind of its key. */
  predicate Typed(k: Key, v: Value) {
    match k.field
    case Type => v.TypeName?
    case AllocatedAt => v.Instant?
    case _ => v.Data?
  }

  /** Values have the kind of their key, and no record has both a MAC and a service id. */
  ghost predicate Regular(st: Store) {
    && (forall k | k in st :: Typed(k, st[k]))
    && (forall ip: Ip :: Key(ip, Mac) !in st || Key(ip, ServiceID) !in st)
  }

  lemma ShapedIsRegular(st: Store)
    requires Shaped(st)
    ensures Regular(st)
  {
    forall k | k in st ensures Typed(k, st[k]) {
      assert RecordIs(st, k.ip, HolderOf(st, k.ip));
      assert k == Key(k.ip, k.field);
    }
    forall ip: Ip ensures Key(ip, Mac) !in st || Key(ip, ServiceID) !in st {
      assert RecordIs(st, ip, HolderOf(st, ip));
    }
  }

  // ---------- one key ----------

  lemma TrimmedKey(prefix: string, rest: string)
    requires rest != "" && rest[0] != '/'
    ensures TrimLeft(TrimPrefix(prefix + "/" + rest, prefix), '/') == rest
  {
    assert (prefix + "/" + rest)[|prefix|..] == "/" + rest;
    assert ("/" + rest)[1..] == rest;
  }

  lemma SubKeyParts(id: string, f: string)
    requires '/' !in id && '/' !in f
    ensures '/' in id + "/" + f && Split(id + "/" + f, '/') == [id, f]
  {
    SplitWithoutSeparator(f, '/');
    SplitAtSeparator(id, f, '/');
    assert (id + "/" + f)[|id|] == '/';
  }

  /** What handling the text of key `k` does to the entry of its address. */
  function Absorb(n: Naming, r: Raw, k: Key, v: Value): Raw {
    match v
    case TypeName(t) => r.(ip := Some(k.ip), allocationType := n.typeText(t))
    case Instant(s) => r.(allocatedAt := s * NANOS)
    case Data(text) => r.(dataKey := n.key(k), data := text)
  }

  function Absorbed(n: Naming, result: map<string, Raw>, k: Key, v: Value): map<string, Raw> {
    var id := n.id(k.ip);
    result[id := Absorb(n, if id in result then result[id] else NOTHING, k, v)]
  }

  lemma TypeEntryIsAbsorbed(c: Clock, prefix: string, result: map<string, Raw>, k: Key, v: Value)
    requires k.field == Type && Typed(k, v)
    ensures DecodeEntry(c, prefix, result, KeyText(prefix, k), ValueText(c, v)) ==
        Absorbed(Textual(prefix), result, k, v)
  {
    var id := FormatIp(k.ip);
    FormatIpHasNoSlash(k.ip);
    assert id[0] in id;
    TrimmedKey(prefix, id);
    ParseFormatIp(k.ip);
  }

  lemma SubKeyIsFound(c: Clock, prefix: string, result: map<string, Raw>, id: string, f: string, value: string)
    requires '/' !in id && '/' !in f && id != ""
    ensures var fullKey := prefix + "/" + (id + "/" + f);
            DecodeEntry(c, prefix, result, fullKey, value) == DecodeSubKey(c, result, fullKey, id, f, value)
  {
    assert id[0] in id;
    assert (id + "/" + f)[0] == id[0];
    TrimmedKey(prefix, id + "/" + f);
    SubKeyParts(id, f);
  }

  lemma FieldEntry(c: Clock, result: map<string, Raw>, fullKey: string, id: string, k: Key, v: Value)
    requires RoundTrips(c) && k.field != Type && Typed(k, v)
    ensures DecodeSubKey(c, result, fullKey, id, FieldText(k.field), ValueText(c, v))
            == var r := if id in result then result[id] else NOTHING;
               result[id := match v
                            case Instant(s) => r.(allocatedAt := s * NANOS)
                            case Data(text) => r.(dataKey := fullKey, data := text)]
  {
    assert k.field == AllocatedAt ==> |FieldText(k.field)| == 12 && c.parse(c.format(v.seconds)) == Some(v.seconds);
  }

  lemma DataEntryIsAbsorbed(c: Clock, prefix: string, result: map<string, Raw>, k: Key, v: Value)
    requires RoundTrips(c) && k.field != Type && Typed(k, v)
    ensures DecodeEntry(c, prefix, result, KeyText(prefix, k), ValueText(c, v)) ==
        Absorbed(Textual(prefix), result, k, v)
  {
    FormatIpHasNoSlash(k.ip);
    SubKeyIsFound(c, prefix, result, FormatIp(k.ip), FieldText(k.field), ValueText(c, v));
    FieldEntry(c, result, KeyText(prefix, k), FormatIp(k.ip), k, v);
  }

  lemma EntryIsAbsorbed(c: Clock, prefix: string, result: map<string, Raw>, k: Key, v: Value)
    requires RoundTrips(c) && Typed(k, v)
    ensures DecodeEntry(c, prefix, result, KeyText(prefix, k), ValueText(c, v)) ==
        Absorbed(Textual(prefix), result, k, v)
  {
    if k.field == Type {
      TypeEntryIsAbsorbed(c, prefix, result, k, v);
    } else {
      DataEntryIsAbsorbed(c, prefix, result, k, v);
    }
  }

  lemma OwnEntryGrows(n: Naming, part: Store, k: Key, v: Value)
    requires k !in part && Regular(part[k := v])
    ensures RawOne(n, part[k := v], k.ip) == Absorb(n, RawOne(n, part, k.ip), k, v)
  {
    var whole := part[k := v];
    assert Typed(k, whole[k]);
    assert Key(k.ip, Mac) !in whole || Key(k.ip, ServiceID) !in whole;
    assert k == Key(k.ip, k.field);
  }

  lemma NoKeysNoEntry(n: Naming, part: Store, ip: Ip)
    requires n.id(ip) !in RawDecode(n, part)
    ensures RawOne(n, part, ip) == NOTHING
  {
    forall f: Field ensures Key(ip, f) !in part {
      var k := Key(ip, f);
      assert k in part ==> n.id(k.ip) in RawDecode(n, part);
    }
  }

  lemma OtherEntryStays(n: Naming, part: Store, k: Key, v: Value, ip: Ip)
    requires ip != k.ip
    ensures RawOne(n, part[k := v], ip) == RawOne(n, part, ip)
  {
  }

  lemma OtherEntriesStay(n: Naming, part: Store, k: Key, v: Value)
    requires Faithful(n)
    ensures RawDecode(n, part[k := v]) - {n.id(k.ip)} == RawDecode(n, part) - {n.id(k.ip)}
  {
    var whole, own := part[k := v], n.id(k.ip);
    forall k' | k' in part && n.id(k'.ip) != own
      ensures RawOne(n, whole, n.ip(n.id(k'.ip))) == RawOne(n, part, n.ip(n.id(k'.ip)))
    {
      assert k' in whole && n.ip(n.id(k'.ip)) == k'.ip;
      OtherEntryStays(n, part, k, v, k'.ip);
    }
    forall id | id != own
      ensures id in RawDecode(n, whole) <==> id in RawDecode(n, part)
    {
      if id in RawDecode(n, part) {
        var k' :| k' in part && n.id(k'.ip) == id;
        assert k' in whole;
      }
    }
  }

  lemma OwnEntryAfter(n: Naming, part: Store, k: Key, v: Value)
    requires Faithful(n) && k !in part && Regular(part[k := v])
    ensures var own, before, after := n.id(k.ip), RawDecode(n, part), RawDecode(n, part[k := v]);
            own in after && after[own] == Absorb(n, if own in before then before[own] else NOTHING, k, v)
  {
    assert k in part[k := v] && n.ip(n.id(k.ip)) == k.ip;
    OwnEntryGrows(n, part, k, v);
    if n.id(k.ip) !in RawDecode(n, part) {
      NoKeysNoEntry(n, part, k.ip);
    }
  }

  lemma UpdateByRemoval<T>(before: map<string, T>, after: map<string, T>, own: string)
    requires own in after && after - {own} == before - {own}
    ensures after == before[own := after[own]]
  {
    assert after == (after - {own})[own := after[own]];
    assert before[own := after[own]] == (before - {own})[own := after[own]];
  }

  /** One more key of a record: the decoded part grows by exactly that key. */
  lemma DecodeOneMoreKey(n: Naming, part: Store, k: Key, v: Value)
    requires Faithful(n) && k !in part && Regular(part[k := v])
    ensures RawDecode(n, part[k := v]) == Absorbed(n, RawDecode(n, part), k, v)
  {
    OtherEntriesStay(n, part, k, v);
    OwnEntryAfter(n, part, k, v);
    UpdateByRemoval(RawDecode(n, part), RawDecode(n, part[k := v]), n.id(k.ip));
  }

  // ---------- the decoder ----------

  /** `kvs` lists the keys of `st` in the order `order`, each once. */
  ghost predicate Lists(c: Clock, prefix: string, kvs: seq<(string, string)>, st: Store, order: seq<Key>) {
    && |order| == |kvs|
    && (forall i, j | 0 <= i < j < |order| :: order[i] != order[j])
    && (set k | k in order) == st.Keys
    && (forall i | 0 <= i < |order| ::
      order[i] in st && kvs[i] == (KeyText(prefix, order[i]), ValueText(c, st[order[i]])))
  }

  function Restrict(st: Store, keys: seq<Key>): Store {
    map k | k in keys && k in st :: st[k]
  }

  lemma RestrictIsRegular(st: Store, keys: seq<Key>)
    requires Regular(st)
    ensures Regular(Restrict(st, keys))
  {
    var part := Restrict(st, keys);
    forall ip: Ip ensures Key(ip, Mac) !in part || Key(ip, ServiceID) !in part {
      assert Key(ip, Mac) !in st || Key(ip, ServiceID) !in st;
    }
  }

  lemma RestrictGrows(st: Store, order: seq<Key>, i: nat)
    requires i < |order| && order[i] in st
    requires forall j | 0 <= j < i :: order[j] != order[i]
    ensures order[i] !in Restrict(st, order[..i])
    ensures Restrict(st, order[..i + 1]) == Restrict(st, order[..i])[order[i] := st[order[i]]]
  {
    assert order[..i + 1] == order[..i] + [order[i]];
  }

  /** The decoder, after i keys, has decoded the part of the store that those keys make up. */
  lemma DecoderStep(c: Clock, prefix: string, kvs: seq<(string, string)>, st: Store, order: seq<Key>, i: nat)
    requires RoundTrips(c) && Lists(c, prefix, kvs, st, order) && Regular(st) && i < |kvs|
    ensures DecodeEntry(c, prefix, RawDecode(Textual(prefix), Restrict(st, order[..i])), kvs[i].0, kvs[i].1)
            == RawDecode(Textual(prefix), Restrict(st, order[..i + 1]))
  {
    RestrictGrows(st, order, i);
    RestrictIsRegular(st, order[..i + 1]);
    TextualIsFaithful(prefix);
    EntryIsAbsorbed(c, prefix, RawDecode(Textual(prefix), Restrict(st, order[..i])), order[i], st[order[i]]);
    DecodeOneMoreKey(Textual(prefix), Restrict(st, order[..i]), order[i], st[order[i]]);
  }

  lemma RestrictToAll(st: Store, order: seq<Key>)
    requires (set k | k in order) == st.Keys
    ensures Restrict(st, order) == st
  {
    forall k | k in st ensures k in order { assert k in (set k | k in order); }
  }

  /** The first i keys of the listing have been decoded. */
  ghost predicate DecodedSoFar(prefix: string, result: map<string, Raw>, st: Store, order: seq<Key>, i: nat)
    requires i <= |order|
  {
    result == RawDecode(Textual(prefix), Restrict(st, order[..i]))
  }

  method DecodeNext(c: Clock, prefix: string, before: map<string, Raw>, kvs: seq<(string, string)>, i: nat,
                    ghost st: Store, ghost order: seq<Key>)
    returns (result: map<string, Raw>)
    requires RoundTrips(c) && i < |kvs|
    ensures Lists(c, prefix, kvs, st, order) && Regular(st) && DecodedSoFar(prefix, before, st, order, i) ==>
      DecodedSoFar(prefix, result, st, order, i + 1)
  {
    result := DecodeEntry(c, prefix, before, kvs[i].0, kvs[i].1);
    if Lists(c, prefix, kvs, st, order) && Regular(st) {
      DecoderStep(c, prefix, kvs, st, order, i);
    }
  }

  /** The textual entry of an allocation, its time cut to whole seconds. */
  function RawOf(n: Naming, a: Allocation): Raw {
    Raw(Some(a.ip), n.typeText(a.allocationType), Seconds(a.allocatedAt) * NANOS,
        if a.dataKey.Some? then n.key(a.dataKey.value) else "", a.data)
  }

  /** The textual decoding and the one the pool's cache is compared with are the same. */
  lemma TextMeansRecords(n: Naming, st: Store, ip: Ip)
    requires Faithful(n) && Shaped(st)
    ensures n.id(ip) in RawDecode(n, st) <==> ip in Decode(st)
    ensures ip in Decode(st) ==> RawDecode(n, st)[n.id(ip)] == RawOf(n, Decode(st)[ip])
  {
    assert RecordIs(st, ip, HolderOf(st, ip));
    DecodedAddresses(st, ip);
    assert n.ip(n.id(ip)) == ip;
    if ip in Decode(st) {
      var k := Key(ip, Type);
      assert k in st && n.id(k.ip) in RawDecode(n, st);
    } else {
      forall k | k in st ensures n.id(k.ip) != n.id(ip) {
        assert n.ip(n.id(k.ip)) == k.ip;
        assert k.ip in Decode(st);
      }
    }
  }

  /** `result` has exactly the entries of the records of the store. */
  ghost predicate TellsRecords(prefix: string, result: map<string, Raw>, st: Store) {
    && (forall id | id in result :: id == FormatIp(IpOf(id)) && IpOf(id) in Decode(st))
    && (forall ip: Ip | ip in Decode(st) ::
          FormatIp(ip) in result && result[FormatIp(ip)] == RawOf(Textual(prefix), Decode(st)[ip]))
  }

  /** The text of any store that the protocol can reach tells exactly its records. */
  lemma ShapedTextTellsRecords(prefix: string, st: Store)
    requires Shaped(st)
    ensures Regular(st) && TellsRecords(prefix, RawDecode(Textual(prefix), st), st)
  {
    var n := Textual(prefix);
    ShapedIsRegular(st);
    TextualIsFaithful(prefix);
    forall id | id in RawDecode(n, st) ensures id == FormatIp(IpOf(id)) && IpOf(id) in Decode(st) {
      var k :| k in st && n.id(k.ip) == id;
      ParseFormatIp(k.ip);
      TextMeansRecords(n, st, k.ip);
    }
    forall ip: Ip | ip in Decode(st)
      ensures FormatIp(ip) in RawDecode(n, st) && RawDecode(n, st)[FormatIp(ip)] == RawOf(n, Decode(st)[ip])
    {
      TextMeansRecords(n, st, ip);
    }
  }

  /** Whatever the order of the keys, the records that were written are read back. */
  method GetAllocationsByPrefix(c: Clock, prefix: string, kvs: seq<(string, string)>, ghost st: Store,
    ghost order: seq<Key>)
    returns (result: map<string, Raw>)
    requires RoundTrips(c)
    ensures Lists(c, prefix, kvs, st, order) && Regular(st) ==> result == RawDecode(Textual(prefix), st)
    ensures Lists(c, prefix, kvs, st, order) && Shaped(st) ==> TellsRecords(prefix, result, st)
  {
    result := map[];
    if Shaped(st) {
      ShapedTextTellsRecords(prefix, st);
    }
    ghost var fits := Lists(c, prefix, kvs, st, order) && Regular(st);
    assert Restrict(st, []) == map[];
    for i := 0 to |kvs|
      invariant fits ==> DecodedSoFar(prefix, result, st, order, i)
    {
      result := DecodeNext(c, prefix, result, kvs, i, st, order);
    }
    if fits {
      assert order[..|kvs|] == order;
      RestrictToAll(st, order);
    }
  }

  // ---------- a set of allocations, written and read back ----------

  /** An allocation as a grant makes it. */
  predicate IsGrant(a: Allocation) {
    match a.allocationType
    case ReservedType => a.dataKey.None? && a.data == ""
    case ContainerIPType => a.dataKey == Some(Key(a.ip, Mac)) && a.data != ""
    case ServiceVIPType => a.dataKey == Some(Key(a.ip, ServiceID)) && a.data != ""
    case UnknownType => false
  }

  function GrantOf(a: Allocation): Request
    requires IsGrant(a)
  {
    match a.allocationType
    case ReservedType => Reserve(a.ip)
    case ContainerIPType => ForContainer(a.ip, a.data)
    case ServiceVIPType => ForService(a.ip, a.data)
  }

  /** `st` holds exactly the keys that the grants of `allocations` write. */
  ghost predicate Encodes(st: Store, allocations: map<Ip, Allocation>) {
    && (forall ip | ip in allocations :: allocations[ip].ip == ip && IsGrant(allocations[ip]))
    && (forall k: Key, v: Value :: Has(st, k, v) <==>
          k.ip in allocations && IsGrant(allocations[k.ip])
          && Has(Puts(GrantOf(allocations[k.ip]), allocations[k.ip].allocatedAt), k, v))
  }

  lemma EncodedRecord(st: Store, allocations: map<Ip, Allocation>, ip: Ip)
    requires Encodes(st, allocations) && ip in allocations
    ensures forall f: Field, v: Value ::
              Has(st, Key(ip, f), v) <==> Has(Puts(GrantOf(allocations[ip]), allocations[ip].allocatedAt), Key(ip, f),
                v)
  {
  }

  lemma EncodedIsRegular(st: Store, allocations: map<Ip, Allocation>)
    requires Encodes(st, allocations)
    ensures Regular(st)
  {
    forall k | k in st
      ensures Typed(k, st[k])
    {
      assert Has(st, k, st[k]);
    }
    forall ip: Ip ensures Key(ip, Mac) !in st || Key(ip, ServiceID) !in st {
      if Key(ip, Mac) in st && Key(ip, ServiceID) in st {
        assert Has(st, Key(ip, Mac), st[Key(ip, Mac)]) && Has(st, Key(ip, ServiceID), st[Key(ip, ServiceID)]);
      }
    }
  }

  lemma EncodedEntry(n: Naming, st: Store, allocations: map<Ip, Allocation>, ip: Ip)
    requires Encodes(st, allocations) && ip in allocations
    ensures Key(ip, Type) in st && RawOne(n, st, ip) == RawOf(n, allocations[ip])
  {
    var a := allocations[ip];
    var puts := Puts(GrantOf(a), a.allocatedAt);
    EncodedRecord(st, allocations, ip);
    assert Has(puts, Key(ip, Type), TypeName(a.allocationType));
    assert Has(puts, Key(ip, AllocatedAt), Instant(Seconds(a.allocatedAt)));
    assert a.dataKey.Some? ==> Has(puts, a.dataKey.value, Data(a.data));
    assert Key(ip, Mac) in st <==> a.dataKey == Some(Key(ip, Mac)) by {
      if Key(ip, Mac) in st { assert Has(st, Key(ip, Mac), st[Key(ip, Mac)]); }
    }
    assert Key(ip, ServiceID) in st <==> a.dataKey == Some(Key(ip, ServiceID)) by {
      if Key(ip, ServiceID) in st { assert Has(st, Key(ip, ServiceID), st[Key(ip, ServiceID)]); }
    }
  }

  /** The entry tells the allocation, its time cut to a whole second. */
  predicate SameUpToSeconds(prefix: string, r: Raw, a: Allocation) {
    && r.ip == Some(a.ip) && r.data == a.data
    && r.dataKey == (if a.dataKey.Some? then KeyText(prefix, a.dataKey.value) else "")
    && r.allocatedAt % 1_000_000_000 == 0 && r.allocatedAt <= a.allocatedAt < r.allocatedAt + 1_000_000_000
    && r.allocationType == match a.allocationType
                           case ReservedType => "reserved"
                           case ContainerIPType => "container-ip"
                           case ServiceVIPType => "service-vip"
                           case UnknownType => "unknown"
  }

  lemma WholeSeconds(time: int)
    ensures var t := Seconds(time) * NANOS; t % 1_000_000_000 == 0 && t <= time < t + 1_000_000_000
  {
  }

  lemma RawIsSame(prefix: string, a: Allocation)
    ensures SameUpToSeconds(prefix, RawOf(Textual(prefix), a), a)
  {
    WholeSeconds(a.allocatedAt);
  }

  // ---------- what is written ----------

  /** The keys and values of some contents as text. */
  function TextOf(c: Clock, prefix: string, st: Store): set<(string, string)> {
    set k | k in st :: (KeyText(prefix, k), ValueText(c, st[k]))
  }

  lemma KeyTexts(prefix: string, b: seq<Ipv4.Byte>)
    requires |b| == 4
    ensures Ipv4.Value(b) < 0x1_0000_0000
    ensures KeyText(prefix, Key(Ipv4.Value(b), Type)) == prefix + "/" + Ipv4.Dotted(b)
    ensures KeyText(prefix, Key(Ipv4.Value(b), AllocatedAt)) == prefix + "/" + Ipv4.Dotted(b) + "/allocated-at"
    ensures KeyText(prefix, Key(Ipv4.Value(b), Mac)) == prefix + "/" + Ipv4.Dotted(b) + "/mac"
    ensures KeyText(prefix, Key(Ipv4.Value(b), ServiceID)) == prefix + "/" + Ipv4.Dotted(b) + "/service-id"
  {
    Ipv4.FormattedBytes(b);
    var d := Ipv4.Dotted(b);
    assert prefix + "/" + (d + "/" + "allocated-at") == prefix + "/" + d + "/allocated-at";
    assert prefix + "/" + (d + "/" + "mac") == prefix + "/" + d + "/mac";
    assert prefix + "/" + (d + "/" + "service-id") == prefix + "/" + d + "/service-id";
  }

  lemma SecondOf(now: int, t: int)
    requires t * 1_000_000_000 <= now < (t + 1) * 1_000_000_000
    ensures Seconds(now) == t
  {
  }

  lemma TextOfTwo(c: Clock, prefix: string, k: Key, v: Value, k': Key, v': Value)
    requires k != k'
    ensures TextOf(c, prefix, map[k := v, k' := v']) ==
            {(KeyText(prefix, k), ValueText(c, v)), (KeyText(prefix, k'), ValueText(c, v'))}
  {
    var st := map[k := v, k' := v'];
    assert k in st && k' in st && st[k] == v && st[k'] == v';
  }

  lemma TextOfMore(c: Clock, prefix: string, st: Store, k: Key, v: Value)
    requires k !in st
    ensures TextOf(c, prefix, st + map[k := v]) == TextOf(c, prefix, st) + {(KeyText(prefix, k), ValueText(c, v))}
  {
    var more := st + map[k := v];
    assert k in more && more[k] == v;
    forall k' | k' in st ensures k' in more && more[k'] == st[k'] { }
  }

  /** What a request writes under `key` at second t. */
  predicate WritesText(texts: set<(string, string)>, r: Request, key: string, second: string) {
    var time := (key + "/allocated-at", second);
    texts == match r
             case Reserve(_) => {(key, "reserved"), time}
             case ForContainer(_, mac) => {(key, "container-ip"), time, (key + "/mac", mac)}
             case ForService(_, id) => {(key, "service-vip"), time, (key + "/service-id", id)}
  }

  lemma GrantText(c: Clock, prefix: string, r: Request, now: int, key: string)
    requires WellFormedRequest(r) && key == KeyText(prefix, Key(r.ip, Type))
    requires KeyText(prefix, Key(r.ip, AllocatedAt)) == key + "/allocated-at"
    requires KeyText(prefix, Key(r.ip, Mac)) == key + "/mac"
    requires KeyText(prefix, Key(r.ip, ServiceID)) == key + "/service-id"
    ensures WritesText(TextOf(c, prefix, Puts(r, now)), r, key, c.format(Seconds(now)))
  {
    var ip := r.ip;
    var kind, at := TypeName(RequestedType(r)), Instant(Seconds(now));
    TextOfTwo(c, prefix, Key(ip, Type), kind, Key(ip, AllocatedAt), at);
    var two: Store := map[Key(ip, Type) := kind, Key(ip, AllocatedAt) := at];
    match r {
      case Reserve(_) => assert Puts(r, now) == two;
      case ForContainer(_, mac) => TextOfMore(c, prefix, two, Key(ip, Mac), Data(mac));
      case ForService(_, id) => TextOfMore(c, prefix, two, Key(ip, ServiceID), Data(id));
    }
  }

  /** The texts that a grant writes for the address with bytes `b`: its type, the second t in which
      it is made, and the owner. */
  lemma GrantWritesText(c: Clock, prefix: string, b: seq<Ipv4.Byte>, r: Request, now: int, t: int)
    requires |b| == 4 && r.ip == Ipv4.Value(b) && WellFormedRequest(r)
    requires t * 1_000_000_000 <= now < (t + 1) * 1_000_000_000
    ensures WritesText(TextOf(c, prefix, Puts(r, now)), r, prefix + "/" + Ipv4.Dotted(b), c.format(t))
  {
    KeyTexts(prefix, b);
    SecondOf(now, t);
    GrantText(c, prefix, r, now, prefix + "/" + Ipv4.Dotted(b));
  }

  // ---------- what is not a record ----------

  /** A key that is not an address is skipped. */
  lemma OtherNameIsSkipped(c: Clock, prefix: string, result: map<string, Raw>, name: string, value: string)
    requires name != "" && '/' !in name && forall b: seq<Ipv4.Byte> | |b| == 4 :: name != Ipv4.Dotted(b)
    ensures DecodeEntry(c, prefix, result, prefix + "/" + name, value) == result
  {
    assert name[0] in name;
    TrimmedKey(prefix, name);
    NotDotted(name);
  }

  /** So is a field that no record has, and a time that cannot be read. */
  lemma OtherFieldIsSkipped(c: Clock, prefix: string, result: map<string, Raw>, id: string, f: string, value: string)
    requires id != "" && '/' !in id && '/' !in f && f != "mac" && f != "service-id"
    requires f == "allocated-at" ==> c.parse(value).None?
    ensures DecodeEntry(c, prefix, result, prefix + "/" + (id + "/" + f), value) == result
  {
    SubKeyIsFound(c, prefix, result, id, f, value);
  }

  /** So is the prefix itself. */
  lemma PrefixIsSkipped(c: Clock, prefix: string, result: map<string, Raw>, value: string)
    ensures DecodeEntry(c, prefix, result, prefix, value) == result
  {
    assert prefix[|prefix|..] == "" && Split("", '.') == [""];
  }

  /** So is everything that is nested deeper. */
  lemma NestedIsSkipped(c: Clock, prefix: string, result: map<string, Raw>, a: string, b: string, d: string,
                        value: string)
    requires a != "" && a[0] != '/'
    ensures DecodeEntry(c, prefix, result, prefix + "/" + (a + "/" + (b + "/" + d)), value) == result
  {
    var rest := a + "/" + (b + "/" + d);
    assert rest[0] == a[0] && rest[|a|] == '/';
    TrimmedKey(prefix, rest);
    SplitConcat(b, d, '/');
    SplitConcat(a, b + "/" + d, '/');
  }

  lemma NotDotted(s: string)
    ensures (forall b: seq<Ipv4.Byte> | |b| == 4 :: s != Ipv4.Dotted(b)) ==> ParseIp(s).None?
  {
    if ParseIp(s).Some? {
      var ip := ParseIp(s).value;
      var b := Ipv4.BytesOf(ip);
      Ipv4.TextOfBytes(b, s);
    }
  }

  /** The round trip: what the grants of a set of allocations write decodes, address by address,
      to those allocations, and to nothing else. */
  lemma EncodeDecode(prefix: string, st: Store, allocations: map<Ip, Allocation>)
    requires Encodes(st, allocations)
    ensures Regular(st)
    ensures var decoded := RawDecode(Textual(prefix), st);
            && (forall id | id in decoded :: IpOf(id) in allocations && id == FormatIp(IpOf(id)))
            && (forall ip | ip in allocations ::
                  FormatIp(ip) in decoded && SameUpToSeconds(prefix, decoded[FormatIp(ip)], allocations[ip]))
  {
    EncodedIsRegular(st, allocations);
    var n := Textual(prefix);
    var decoded := RawDecode(n, st);
    forall id | id in decoded ensures IpOf(id) in allocations && id == FormatIp(IpOf(id)) {
      var k :| k in st && n.id(k.ip) == id;
      ParseFormatIp(k.ip);
      assert Has(st, k, st[k]);
    }
    forall ip | ip in allocations
      ensures FormatIp(ip) in decoded && SameUpToSeconds(prefix, decoded[FormatIp(ip)], allocations[ip])
    {
      EncodedEntry(n, st, allocations, ip);
      ParseFormatIp(ip);
      var k := Key(ip, Type);
      assert k in st && n.id(k.ip) in decoded;
      RawIsSame(prefix, allocations[ip]);
    }
  }
}
