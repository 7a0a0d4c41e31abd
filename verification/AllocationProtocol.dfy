/**
 The per-address protocol of one IP pool.  An address is a record spread over four etcd keys,
 and every change of a record is a guarded transaction.  Clients on all nodes interleave
 transaction by transaction, so a run is a sequence of single transactions in any order.
 */
module AllocationProtocol {
  import opened Common
  import opened Etcd

  import Text
  type Ip = Text.Ip

  /** `UnknownType` stands for every other text. */
  datatype AllocationType = ReservedType | ContainerIPType | ServiceVIPType | UnknownType

  /** `Type` is the key of the address itself, the others are one level below it. */
  datatype Field = Type | AllocatedAt | Mac | ServiceID
  datatype Key = Key(ip: Ip, field: Field)

  /** An instant is stored in whole seconds. */
  datatype Value = TypeName(allocationType: AllocationType) | Instant(seconds: int) | Data(text: string)

  type Store = map<Key, Value>

  /** Times are nanoseconds. */
  function Seconds(time: int): int { time / 1_000_000_000 }

  /** What a client knows about an address.  The source's empty data key is `None`. */
  datatype Allocation = Allocation(
    ip: Ip, allocationType: AllocationType, allocatedAt: int, dataKey: Option<Key>, data: string)

  datatype Request =
    | Reserve(ip: Ip)
    | ForContainer(ip: Ip, mac: string)
    | ForService(ip: Ip, serviceID: string)

  function RequestedType(r: Request): AllocationType {
    match r
    case Reserve(_) => ReservedType
    case ForContainer(_, _) => ContainerIPType
    case ForService(_, _) => ServiceVIPType
  }

  function RequestedDataKey(r: Request): Option<Key> {
    match r
    case Reserve(_) => None
    case ForContainer(ip, _) => Some(Key(ip, Mac))
    case ForService(ip, _) => Some(Key(ip, ServiceID))
  }

  function RequestedData(r: Request): string {
    match r
    case Reserve(_) => ""
    case ForContainer(_, mac) => mac
    case ForService(_, id) => id
  }

  function Granted(r: Request, now: int): Allocation {
    Allocation(r.ip, RequestedType(r), now, RequestedDataKey(r), RequestedData(r))
  }

  /** The guards that are tried one after the other, each in a transaction of its own. */
  function Conditions(r: Request): seq<seq<Cmp<Key, Value>>> {
    var key := Key(r.ip, Type);
    match r
    case Reserve(_) => [[Absent(key)]]
    case ForContainer(ip, mac) =>
      [ [ValueIs(key, TypeName(ReservedType)), Absent(Key(ip, Mac))],
        [Absent(key)],
        [ValueIs(key, TypeName(ReservedType)), ValueIs(Key(ip, Mac), Data(mac))],
        [ValueIs(key, TypeName(ContainerIPType)), ValueIs(Key(ip, Mac), Data(mac))] ]
    case ForService(ip, id) =>
      [ [ValueIs(key, TypeName(ReservedType)), Absent(Key(ip, ServiceID))],
        [ValueIs(key, TypeName(ServiceVIPType)), ValueIs(Key(ip, ServiceID), Data(id))],
        [Absent(key)] ]
  }

  /** The guard of `ForContainer` that its author expects never to hold. */
  const UNEXPECTED_GUARD := 2

  function Puts(r: Request, now: int): Store {
    map[Key(r.ip, Type) := TypeName(RequestedType(r)), Key(r.ip, AllocatedAt) := Instant(Seconds(now))]
    + (if RequestedDataKey(r).Some? && RequestedData(r) != ""
       then map[RequestedDataKey(r).value := Data(RequestedData(r))] else map[])
  }

  function RecordKeys(ip: Ip): set<Key> {
    {Key(ip, Type), Key(ip, AllocatedAt), Key(ip, Mac), Key(ip, ServiceID)}
  }

  function TryTxn(r: Request, guard: nat, now: int): Txn<Key, Value>
    requires guard < |Conditions(r)|
  {
    Txn(Conditions(r)[guard], Puts(r, now), {})
  }

  function ReleaseTxn(a: Allocation): Txn<Key, Value> {
    Txn([ValueIs(Key(a.ip, Type), TypeName(a.allocationType))]
        + (if a.data == "" || a.dataKey.None?
           then [Absent(Key(a.ip, Mac)), Absent(Key(a.ip, ServiceID))]
           else [ValueIs(a.dataKey.value, Data(a.data))]),
        map[], RecordKeys(a.ip))
  }

  /** One atomic step of some client. */
  datatype Action =
    | Try(request: Request, guard: nat, now: int)
    | Release(allocation: Allocation)
    | DeleteAll

  /** MACs and service ids are non-empty, and a data key belongs to the record of its address. */
  predicate WellFormedRequest(r: Request) {
    r.Reserve? || RequestedData(r) != ""
  }

  predicate WellFormedAllocation(a: Allocation) {
    a.dataKey.None? || a.dataKey == Some(Key(a.ip, Mac)) || a.dataKey == Some(Key(a.ip, ServiceID))
  }

  predicate WellFormed(a: Action) {
    match a
    case Try(r, g, _) => WellFormedRequest(r) && g < |Conditions(r)|
    case Release(al) => WellFormedAllocation(al)
    case DeleteAll => true
  }

  predicate Commits(st: Store, a: Action)
    requires WellFormed(a)
  {
    match a
    case Try(r, g, now) => Passes(st, TryTxn(r, g, now))
    case Release(al) => Passes(st, ReleaseTxn(al))
    case DeleteAll => true
  }

  function Act(st: Store, a: Action): Store
    requires WellFormed(a)
  {
    match a
    case Try(r, g, now) => After(st, TryTxn(r, g, now))
    case Release(al) => After(st, ReleaseTxn(al))
    case DeleteAll => map[]
  }

  // ---------- the shape of a record ----------

  /** Who holds an address, as the record in the store tells it. */
  datatype Holder = Nobody | Reservation | Container(mac: string) | Service(serviceID: string)

  function HolderOf(st: Store, ip: Ip): Holder {
    var key, mac, id := Key(ip, Type), Key(ip, Mac), Key(ip, ServiceID);
    if key !in st then Nobody
    else if st[key] == TypeName(ContainerIPType) then
      Container(if mac in st && st[mac].Data? then st[mac].text else "")
    else if st[key] == TypeName(ServiceVIPType) then
      Service(if id in st && st[id].Data? then st[id].text else "")
    else Reservation
  }

  predicate Has(st: Store, k: Key, v: Value) { k in st && st[k] == v }

  /** The record of `ip` has exactly the keys that belong to the holder `h`. */
  predicate RecordIs(st: Store, ip: Ip, h: Holder) {
    && (Key(ip, AllocatedAt) in st <==> !h.Nobody?)
    && (!h.Nobody? ==> st[Key(ip, AllocatedAt)].Instant?)
    && (match h
        case Nobody => Key(ip, Type) !in st && Key(ip, Mac) !in st && Key(ip, ServiceID) !in st
        case Reservation =>
          Has(st, Key(ip, Type), TypeName(ReservedType)) && Key(ip, Mac) !in st && Key(ip, ServiceID) !in st
        case Container(mac) =>
          mac != "" && Has(st, Key(ip, Type), TypeName(ContainerIPType))
          && Has(st, Key(ip, Mac), Data(mac)) && Key(ip, ServiceID) !in st
        case Service(id) =>
          id != "" && Has(st, Key(ip, Type), TypeName(ServiceVIPType))
          && Has(st, Key(ip, ServiceID), Data(id)) && Key(ip, Mac) !in st)
  }

  ghost predicate Shaped(st: Store) {
    forall ip: Ip :: RecordIs(st, ip, HolderOf(st, ip))
  }

  // ---------- one step ----------

  function HolderAfter(r: Request): Holder {
    match r
    case Reserve(_) => Reservation
    case ForContainer(_, mac) => Container(mac)
    case ForService(_, id) => Service(id)
  }

  /** Who may hold the address when guard `g` of request `r` lets the request through. */
  predicate Admits(r: Request, g: nat, h: Holder) {
    match r
    case Reserve(_) => h.Nobody?
    case ForContainer(_, mac) =>
      if g == 0 then h.Reservation? else if g == 1 then h.Nobody? else g == 3 && h == Container(mac)
    case ForService(_, id) =>
      if g == 0 then h.Reservation? else if g == 1 then h == Service(id) else h.Nobody?
  }

  /** A grant goes through exactly when the present holder is one the guard admits. */
  lemma GuardMeaning(st: Store, r: Request, g: nat, now: int)
    requires Shaped(st) && WellFormed(Try(r, g, now))
    ensures Commits(st, Try(r, g, now)) <==> Admits(r, g, HolderOf(st, r.ip))
  {
    assert RecordIs(st, r.ip, HolderOf(st, r.ip));
    var guards := Conditions(r)[g];
    assert Holds(st, guards[0]) || !Passes(st, TryTxn(r, g, now));
    assert |guards| == 2 ==> Holds(st, guards[1]) || !Passes(st, TryTxn(r, g, now));
  }

  /** A release goes through exactly when it names the present holder. */
  predicate Names(a: Allocation, h: Holder) {
    match h
    case Nobody => false
    case Reservation => a.allocationType == ReservedType && (a.data == "" || a.dataKey.None?)
    case Container(mac) =>
      a.allocationType == ContainerIPType && a.dataKey == Some(Key(a.ip, Mac)) && a.data == mac
    case Service(id) =>
      a.allocationType == ServiceVIPType && a.dataKey == Some(Key(a.ip, ServiceID)) && a.data == id
  }

  lemma ReleaseMeaning(st: Store, a: Allocation)
    requires Shaped(st) && WellFormedAllocation(a)
    ensures Commits(st, Release(a)) <==> Names(a, HolderOf(st, a.ip))
  {
    assert RecordIs(st, a.ip, HolderOf(st, a.ip));
    var t := ReleaseTxn(a);
    assert Holds(st, t.guards[0]) || !Passes(st, t);
    assert Holds(st, t.guards[1]) || !Passes(st, t);
    assert |t.guards| == 3 ==> Holds(st, t.guards[2]) || !Passes(st, t);
  }

  /** Who holds `ip` after a step, in terms of who held it before. */
  function NextHolder(st: Store, a: Action, ip: Ip): Holder
    requires WellFormed(a)
  {
    match a
    case Try(r, g, _) => if r.ip == ip && Admits(r, g, HolderOf(st, ip)) then HolderAfter(r) else HolderOf(st, ip)
    case Release(al) => if al.ip == ip && Names(al, HolderOf(st, ip)) then Nobody else HolderOf(st, ip)
    case DeleteAll => Nobody
  }

  predicate SameRecord(st: Store, st': Store, ip: Ip) {
    forall f: Field ::
      && (Key(ip, f) in st <==> Key(ip, f) in st')
      && (Key(ip, f) in st ==> st[Key(ip, f)] == st'[Key(ip, f)])
  }

  lemma SameRecordSameHolder(st: Store, st': Store, ip: Ip, h: Holder)
    requires SameRecord(st, st', ip)
    ensures HolderOf(st', ip) == HolderOf(st, ip)
    ensures RecordIs(st', ip, h) <==> RecordIs(st, ip, h)
  {
    assert forall f: Field :: Key(ip, f) in st <==> Key(ip, f) in st';
  }

  lemma OtherRecordsStay(st: Store, a: Action, ip: Ip)
    requires WellFormed(a) && !a.DeleteAll?
    requires Commits(st, a) ==> (if a.Try? then a.request.ip else a.allocation.ip) != ip
    ensures SameRecord(st, Act(st, a), ip)
  {
  }

  lemma GrantWritesRecord(st: Store, r: Request, g: nat, now: int)
    requires Shaped(st) && WellFormed(Try(r, g, now)) && Commits(st, Try(r, g, now))
    ensures RecordIs(Act(st, Try(r, g, now)), r.ip, HolderAfter(r))
    ensures HolderOf(Act(st, Try(r, g, now)), r.ip) == HolderAfter(r)
  {
    GuardMeaning(st, r, g, now);
    assert RecordIs(st, r.ip, HolderOf(st, r.ip));
  }

  lemma StepAtAddress(st: Store, a: Action, ip: Ip)
    requires Shaped(st) && WellFormed(a)
    ensures HolderOf(Act(st, a), ip) == NextHolder(st, a, ip)
    ensures RecordIs(Act(st, a), ip, HolderOf(Act(st, a), ip))
  {
    assert RecordIs(st, ip, HolderOf(st, ip));
    if a.Try? {
      GuardMeaning(st, a.request, a.guard, a.now);
    } else if a.Release? {
      ReleaseMeaning(st, a.allocation);
    }
    if !a.DeleteAll? && (Commits(st, a) ==> (if a.Try? then a.request.ip else a.allocation.ip) != ip) {
      OtherRecordsStay(st, a, ip);
      SameRecordSameHolder(st, Act(st, a), ip, HolderOf(st, ip));
    } else if a.Try? {
      GrantWritesRecord(st, a.request, a.guard, a.now);
    }
  }

  lemma StepKeepsShape(st: Store, a: Action)
    requires Shaped(st) && WellFormed(a)
    ensures Shaped(Act(st, a))
    ensures forall ip: Ip :: HolderOf(Act(st, a), ip) == NextHolder(st, a, ip)
  {
    forall ip: Ip
      ensures RecordIs(Act(st, a), ip, HolderOf(Act(st, a), ip)) && HolderOf(Act(st, a), ip) == NextHolder(st, a, ip)
    {
      StepAtAddress(st, a, ip);
    }
  }

  // ---------- runs ----------

  /** Any number of clients, interleaved transaction by transaction. */
  ghost predicate IsRun(states: seq<Store>, actions: seq<Action>) {
    && |states| == |actions| + 1
    && Shaped(states[0])
    && forall i | 0 <= i < |actions| :: WellFormed(actions[i]) && states[i + 1] == Act(states[i], actions[i])
  }

  lemma EmptyStoreIsShaped()
    ensures Shaped(map[])
  {
  }

  lemma {:induction false} ShapeInEveryRun(states: seq<Store>, actions: seq<Action>, n: nat)
    requires IsRun(states, actions) && n < |states|
    ensures Shaped(states[n])
  {
    if n > 0 {
      ShapeInEveryRun(states, actions, n - 1);
      assert states[n - 1 + 1] == Act(states[n - 1], actions[n - 1]);
      StepKeepsShape(states[n - 1], actions[n - 1]);
    }
  }

  /** The guard "reserved, but already with this MAC" never lets a request through. */
  lemma UnexpectedGuardIsDead(states: seq<Store>, actions: seq<Action>, n: nat)
    requires IsRun(states, actions) && n < |actions|
    requires actions[n].Try? && actions[n].request.ForContainer? && actions[n].guard == UNEXPECTED_GUARD
    ensures !Commits(states[n], actions[n])
  {
    ShapeInEveryRun(states, actions, n);
    GuardMeaning(states[n], actions[n].request, actions[n].guard, actions[n].now);
  }

  /** Step n commits a grant of `ip`, leaving it with holder `h`. */
  predicate Grants(states: seq<Store>, actions: seq<Action>, n: nat, ip: Ip, h: Holder)
    requires n < |actions| && n < |states| && WellFormed(actions[n])
  {
    && actions[n].Try? && actions[n].request.ip == ip
    && HolderAfter(actions[n].request) == h
    && Commits(states[n], actions[n])
  }

  /** Step n takes `ip` away from `h`: a committed release that names `h`, or a delete-all. */
  predicate Frees(states: seq<Store>, actions: seq<Action>, n: nat, ip: Ip, h: Holder)
    requires n < |actions| && n < |states| && WellFormed(actions[n])
  {
    || actions[n].DeleteAll?
    || (actions[n].Release? && actions[n].allocation.ip == ip && Names(actions[n].allocation, h)
        && Commits(states[n], actions[n]))
  }

  lemma {:induction false} OwnerStays(states: seq<Store>, actions: seq<Action>, i: nat, j: nat, ip: Ip, h: Holder)
    requires IsRun(states, actions) && i < j < |states|
    requires Grants(states, actions, i, ip, h) && (h.Container? || h.Service?)
    requires forall k | i < k < j :: !Frees(states, actions, k, ip, h)
    ensures HolderOf(states[j], ip) == h
  {
    ShapeInEveryRun(states, actions, j - 1);
    assert states[j - 1 + 1] == Act(states[j - 1], actions[j - 1]);
    StepKeepsShape(states[j - 1], actions[j - 1]);
    if i == j - 1 {
      GuardMeaning(states[i], actions[i].request, actions[i].guard, actions[i].now);
    } else {
      OwnerStays(states, actions, i, j - 1, ip, h);
      assert !Frees(states, actions, j - 1, ip, h);
      if actions[j - 1].Release? {
        ReleaseMeaning(states[j - 1], actions[j - 1].allocation);
      }
    }
  }

  /** Exclusive ownership.  An address that was granted to a MAC or a service is granted to
      somebody else, or as a plain reservation, only after a release that names the owner, or a
      delete-all, was committed in between. */
  lemma ExclusiveOwnership(states: seq<Store>, actions: seq<Action>, i: nat, j: nat, ip: Ip, h: Holder, h': Holder)
    requires IsRun(states, actions) && i < j < |actions|
    requires Grants(states, actions, i, ip, h) && (h.Container? || h.Service?)
    requires Grants(states, actions, j, ip, h') && h' != h
    ensures exists k :: i < k < j && Frees(states, actions, k, ip, h)
  {
    if forall k | i < k < j :: !Frees(states, actions, k, ip, h) {
      OwnerStays(states, actions, i, j, ip, h);
      ShapeInEveryRun(states, actions, j);
      GuardMeaning(states[j], actions[j].request, actions[j].guard, actions[j].now);
      assert false;
    }
  }

  // ---------- a whole call ----------

  /** Some guard of the request holds. */
  predicate CanSucceed(st: Store, r: Request) {
    exists g | 0 <= g < |Conditions(r)| :: Passes(st, TryTxn(r, g, 0))
  }

  /** Without interference a call succeeds exactly when the address is free, or reserved and
      wanted for more than a reservation, or already held by the same MAC or service. */
  lemma CallMeaning(st: Store, r: Request)
    requires Shaped(st) && WellFormedRequest(r)
    ensures CanSucceed(st, r) <==>
            var h := HolderOf(st, r.ip);
            h.Nobody? || (!r.Reserve? && (h.Reservation? || h == HolderAfter(r)))
  {
    forall g | 0 <= g < |Conditions(r)|
      ensures Passes(st, TryTxn(r, g, 0)) <==> Admits(r, g, HolderOf(st, r.ip))
    {
      GuardMeaning(st, r, g, 0);
    }
    var h := HolderOf(st, r.ip);
    match r {
      case Reserve(_) => assert h.Nobody? ==> Passes(st, TryTxn(r, 0, 0));
      case ForContainer(_, mac) =>
        assert h.Reservation? ==> Passes(st, TryTxn(r, 0, 0));
        assert h.Nobody? ==> Passes(st, TryTxn(r, 1, 0));
        assert h == Container(mac) ==> Passes(st, TryTxn(r, 3, 0));
      case ForService(_, id) =>
        assert h.Reservation? ==> Passes(st, TryTxn(r, 0, 0));
        assert h == Service(id) ==> Passes(st, TryTxn(r, 1, 0));
        assert h.Nobody? ==> Passes(st, TryTxn(r, 2, 0));
    }
  }
}
