/**
 The calls a pool makes against etcd: an allocation tries its guards one after the other, each
 in a transaction of its own, so other clients may step in between; a release is a single
 transaction whose failure branch reads the record back.
 */
module AllocationClient {
  import opened Common
  import opened Etcd
  import opened AllocationProtocol

  const NANOS := 1_000_000_000
  /** the zero value of a time */
  const ZERO_TIME := -62_135_596_800 * NANOS

  datatype CallResult = CallFailed | Refused | Success(allocation: Allocation)

  /** Whatever the other clients do, they leave well-shaped records. */
  ghost predicate OthersKeepShape(server: Server<Key, Value>) {
    forall s, t :: server.rely(s, t) && Shaped(s) ==> Shaped(t)
  }

  /** Only addresses of `ips` have records. */
  predicate Within(st: Store, ips: set<Ip>) {
    forall k | k in st :: k.ip in ips
  }

  ghost predicate OthersStayWithin(server: Server<Key, Value>, ips: set<Ip>) {
    forall s, t :: server.rely(s, t) && Within(s, ips) ==> Within(t, ips)
  }

  /** What a call did.  It tried guard after guard, guard i on the contents seen[i] that it found
      after the other clients had acted; all but the last try were refused. */
  ghost predicate Tried(
    server: Server<Key, Value>, before: Store, r: Request, now: int, seen: seq<Store>, result: CallResult, after: Store)
    requires WellFormedRequest(r)
  {
    && 0 < |seen| <= |Conditions(r)| && server.Chain(before, seen)
    && (forall i | 0 <= i < |seen| - 1 :: !Commits(seen[i], Try(r, i, now)))
    && LastTry(server, r, now, seen[|seen| - 1], |seen| - 1, result, after)
  }

  ghost predicate LastTry(
    server: Server<Key, Value>, r: Request, now: int, at: Store, g: nat, result: CallResult, after: Store)
    requires WellFormed(Try(r, g, now))
  {
    match result
    case CallFailed => !server.reliable && (after == at || after == Act(at, Try(r, g, now)))
    case Refused => g == |Conditions(r)| - 1 && !Commits(at, Try(r, g, now)) && after == at
    case Success(allocation) =>
      allocation == Granted(r, now) && Commits(at, Try(r, g, now)) && after == Act(at, Try(r, g, now))
  }

  /** The guard g let the request through on the contents `at`, and `after` is what it wrote. */
  ghost predicate GrantedAt(r: Request, now: int, at: Store, g: nat, after: Store)
    requires WellFormedRequest(r)
  {
    g < |Conditions(r)| && Commits(at, Try(r, g, now)) && after == Act(at, Try(r, g, now))
  }

  /** Whom a granted request may have taken the address from. */
  predicate MayTake(r: Request, h: Holder) {
    h.Nobody? || (!r.Reserve? && (h.Reservation? || h == HolderAfter(r)))
  }

  lemma GrantTakesFromNobodyElse(r: Request, now: int, at: Store, g: nat, after: Store)
    requires WellFormedRequest(r) && GrantedAt(r, now, at, g, after) && Shaped(at)
    ensures MayTake(r, HolderOf(at, r.ip)) && HolderOf(after, r.ip) == HolderAfter(r) && Shaped(after)
    ensures forall ip: Ip | ip != r.ip :: HolderOf(after, ip) == HolderOf(at, ip)
  {
    GuardMeaning(at, r, g, now);
    StepKeepsShape(at, Try(r, g, now));
  }

  /** What the others and the tries keep holds all along. */
  lemma StableOverCall(
    server: Server<Key, Value>, before: Store, r: Request, now: int, seen: seq<Store>, result: CallResult, after: Store,
    inv: Store -> bool)
    requires WellFormedRequest(r) && Tried(server, before, r, now, seen, result, after) && inv(before)
    requires forall s, t :: server.rely(s, t) && inv(s) ==> inv(t)
    requires forall s, g: nat | g < |Conditions(r)| && inv(s) :: inv(Act(s, Try(r, g, now)))
    ensures inv(after) && forall i | 0 <= i < |seen| :: inv(seen[i])
  {
    StableOverChain(server, before, seen, |seen|, inv);
    assert inv(seen[|seen| - 1]);
  }

  lemma {:induction false} StableOverChain(
    server: Server<Key, Value>, before: Store, seen: seq<Store>, n: nat, inv: Store -> bool)
    requires server.Chain(before, seen) && n <= |seen| && inv(before)
    requires forall s, t :: server.rely(s, t) && inv(s) ==> inv(t)
    ensures forall i | 0 <= i < n :: inv(seen[i])
  {
    if n > 0 {
      StableOverChain(server, before, seen, n - 1, inv);
      assert server.rely(Before(before, seen, n - 1), seen[n - 1]);
    }
  }

  lemma ShapeOverCall(
    server: Server<Key, Value>, before: Store, r: Request, now: int, seen: seq<Store>, result: CallResult, after: Store)
    requires WellFormedRequest(r) && Tried(server, before, r, now, seen, result, after)
    requires OthersKeepShape(server) && Shaped(before)
    ensures Shaped(after) && forall i | 0 <= i < |seen| :: Shaped(seen[i])
  {
    forall s, g: nat | g < |Conditions(r)| && Shaped(s) ensures Shaped(Act(s, Try(r, g, now))) {
      StepKeepsShape(s, Try(r, g, now));
    }
    StableOverCall(server, before, r, now, seen, result, after, Shaped);
  }

  lemma WithinOverCall(
    server: Server<Key, Value>, before: Store, r: Request, now: int, seen: seq<Store>, result: CallResult, after: Store,
    ips: set<Ip>)
    requires WellFormedRequest(r) && Tried(server, before, r, now, seen, result, after)
    requires OthersStayWithin(server, ips) && r.ip in ips && Within(before, ips)
    ensures Within(after, ips)
  {
    var inv := (st: Store) => Within(st, ips);
    forall s, g: nat | g < |Conditions(r)| && inv(s) ensures inv(Act(s, Try(r, g, now))) {
      AttemptOutcome(s, r, g, now);
      PutsWithin(s, r, now, ips);
    }
    StableOverCall(server, before, r, now, seen, result, after, inv);
  }

  lemma PutsWithin(st: Store, r: Request, now: int, ips: set<Ip>)
    requires Within(st, ips) && r.ip in ips
    ensures Within(st + Puts(r, now), ips)
  {
  }

  /** What is written does not depend on the guard. */
  lemma AttemptOutcome(at: Store, r: Request, g: nat, now: int)
    requires WellFormed(Try(r, g, now))
    ensures Commits(at, Try(r, g, now)) <==> Passes(at, TryTxn(r, g, 0))
    ensures Act(at, Try(r, g, now)) == if Commits(at, Try(r, g, now)) then at + Puts(r, now) else at
  {
  }

  /** Without interference all tries find the same contents. */
  lemma UndisturbedCall(
    server: Server<Key, Value>, before: Store, r: Request, now: int, seen: seq<Store>, result: CallResult, after: Store)
    requires WellFormedRequest(r) && Tried(server, before, r, now, seen, result, after) && server.Quiet()
    ensures !result.CallFailed? && (result.Success? <==> CanSucceed(before, r))
    ensures after == if result.Success? then before + Puts(r, now) else before
  {
    StableOverChain(server, before, seen, |seen|, (st: Store) => st == before);
    var g := |seen| - 1;
    AttemptOutcome(before, r, g, now);
    if result.Success? {
      assert Passes(before, TryTxn(r, g, 0));
    } else {
      forall i | 0 <= i < |Conditions(r)| ensures !Passes(before, TryTxn(r, i, 0)) {
        AttemptOutcome(before, r, i, now);
        assert seen[i] == before;
      }
    }
  }

  method AllocateByCondition(server: Server<Key, Value>, r: Request, now: int)
    returns (result: CallResult, ghost seen: seq<Store>)
    requires server.Valid() && WellFormedRequest(r)
    modifies server
    ensures Tried(server, old(server.kv), r, now, seen, result, server.kv)
    // what the caller is told
    ensures result.Success? ==>
      result.allocation ==
      match r
      case Reserve(ip) => Allocation(ip, ReservedType, now, None, "")
      case ForContainer(ip, mac) => Allocation(ip, ContainerIPType, now, Some(Key(ip, Mac)), mac)
      case ForService(ip, id) => Allocation(ip, ServiceVIPType, now, Some(Key(ip, ServiceID)), id)
    // as the only writer
    ensures server.Quiet() ==>
      && (result.Success? <==> CanSucceed(old(server.kv), r))
      && server.kv == (if result.Success? then old(server.kv) + Puts(r, now) else old(server.kv))
  {
    result, seen := TryConditions(server, r, now);
    if server.Quiet() {
      UndisturbedCall(server, old(server.kv), r, now, seen, result, server.kv);
    }
  }

  /** All tries so far were refused, so nothing was written. */
  ghost predicate AllRefused(
    server: Server<Key, Value>, before: Store, r: Request, now: int, seen: seq<Store>, kv: Store)
    requires WellFormedRequest(r)
  {
    && |seen| <= |Conditions(r)| && server.Chain(before, seen) && kv == Before(before, seen, |seen|)
    && forall i | 0 <= i < |seen| :: !Commits(seen[i], Try(r, i, now))
  }

  lemma OneMoreTry(
    server: Server<Key, Value>, before: Store, r: Request, now: int, seen: seq<Store>, kv: Store, at: Store)
    requires WellFormedRequest(r) && AllRefused(server, before, r, now, seen, kv) && server.rely(kv, at)
    requires |seen| < |Conditions(r)|
    ensures server.Chain(before, seen + [at])
    ensures !Commits(at, Try(r, |seen|, now)) ==> AllRefused(server, before, r, now, seen + [at], at)
    ensures forall result, after | LastTry(server, r, now, at, |seen|, result, after) ::
              Tried(server, before, r, now, seen + [at], result, after)
  {
    server.ChainGrows(before, seen, at);
  }

  method TryConditions(server: Server<Key, Value>, r: Request, now: int)
    returns (result: CallResult, ghost seen: seq<Store>)
    requires server.Valid() && WellFormedRequest(r)
    modifies server
    ensures Tried(server, old(server.kv), r, now, seen, result, server.kv)
  {
    var g, guards := 0, |Conditions(r)|;
    seen := [];
    while g < guards
      invariant 0 <= g == |seen| <= guards && AllRefused(server, old(server.kv), r, now, seen, server.kv)
    {
      var reply, at := server.Commit(TryTxn(r, g, now));
      OneMoreTry(server, old(server.kv), r, now, seen, Before(old(server.kv), seen, g), at);
      seen := seen + [at];
      if reply.Failed? {
        return CallFailed, seen;
      }
      if reply.succeeded {
        return Success(Granted(r, now)), seen;
      }
      g := g + 1;
    }
    return Refused, seen;
  }

  // ---------- decoding ----------

  function TypeIn(st: Store, ip: Ip): AllocationType {
    var k := Key(ip, Type);
    if k in st && st[k].TypeName? then st[k].allocationType else UnknownType
  }

  function TimeIn(st: Store, ip: Ip): int {
    var k := Key(ip, AllocatedAt);
    if k in st && st[k].Instant? then st[k].seconds * NANOS else ZERO_TIME
  }

  function TextIn(st: Store, k: Key): string {
    if k in st && st[k].Data? then st[k].text else ""
  }

  /** The record of `ip`, put together from its keys. */
  function DecodeOne(st: Store, ip: Ip): Allocation {
    var mac, id := Key(ip, Mac), Key(ip, ServiceID);
    if id in st then Allocation(ip, TypeIn(st, ip), TimeIn(st, ip), Some(id), TextIn(st, id))
    else if mac in st then Allocation(ip, TypeIn(st, ip), TimeIn(st, ip), Some(mac), TextIn(st, mac))
    else Allocation(ip, TypeIn(st, ip), TimeIn(st, ip), None, "")
  }

  function Decode(st: Store): map<Ip, Allocation> {
    var ips := set k | k in st :: k.ip;
    map ip | ip in ips :: DecodeOne(st, ip)
  }

  /** A cached allocation as it looks once it has been written and read back. */
  function Stored(a: Allocation): Allocation {
    a.(allocatedAt := Seconds(a.allocatedAt) * NANOS)
  }

  lemma DecodedAddresses(st: Store, ip: Ip)
    requires Shaped(st)
    ensures ip in Decode(st) <==> !HolderOf(st, ip).Nobody?
  {
    assert RecordIs(st, ip, HolderOf(st, ip));
    forall k | k in st && k.ip == ip ensures k in RecordKeys(ip) {
      assert k.field.Type? || k.field.AllocatedAt? || k.field.Mac? || k.field.ServiceID?;
    }
    if !HolderOf(st, ip).Nobody? {
      assert Key(ip, Type) in st;
    }
  }

  lemma SameRecordSameDecoding(st: Store, st': Store, ip: Ip)
    requires SameRecord(st, st', ip)
    ensures DecodeOne(st', ip) == DecodeOne(st, ip)
  {
    assert forall f: Field :: Key(ip, f) in st <==> Key(ip, f) in st';
  }

  lemma GrantedRecordDecodes(st: Store, r: Request, g: nat, now: int)
    requires Shaped(st) && WellFormed(Try(r, g, now)) && Commits(st, Try(r, g, now))
    ensures DecodeOne(Act(st, Try(r, g, now)), r.ip) == Stored(Granted(r, now))
  {
    GrantWritesRecord(st, r, g, now);
  }

  /** Two stores that differ in one record only decode alike everywhere else. */
  lemma DecodeElsewhere(st: Store, st': Store, changed: Ip)
    requires Shaped(st) && Shaped(st')
    requires forall ip: Ip | ip != changed :: SameRecord(st, st', ip)
    ensures Decode(st') - {changed} == Decode(st) - {changed}
  {
    forall ip: Ip | ip != changed
      ensures ip in Decode(st') <==> ip in Decode(st)
      ensures DecodeOne(st', ip) == DecodeOne(st, ip)
    {
      DecodedAddresses(st, ip);
      DecodedAddresses(st', ip);
      SameRecordSameHolder(st, st', ip, Nobody);
      SameRecordSameDecoding(st, st', ip);
    }
  }

  /** What is decoded after a grant: the granted allocation in whole seconds, and nothing else moved. */
  lemma DecodeAfterGrant(st: Store, r: Request, g: nat, now: int)
    requires Shaped(st) && WellFormed(Try(r, g, now)) && Commits(st, Try(r, g, now))
    ensures Decode(Act(st, Try(r, g, now))) == Decode(st)[r.ip := Stored(Granted(r, now))]
    // the time is that of the grant, cut to a whole second
    ensures var a := Decode(Act(st, Try(r, g, now)))[r.ip];
            && a == Allocation(r.ip, RequestedType(r), a.allocatedAt, RequestedDataKey(r), RequestedData(r))
            && a.allocatedAt % 1_000_000_000 == 0 && a.allocatedAt <= now < a.allocatedAt + 1_000_000_000
  {
    var a := Try(r, g, now);
    var st' := Act(st, a);
    StepKeepsShape(st, a);
    GrantWritesRecord(st, r, g, now);
    GrantedRecordDecodes(st, r, g, now);
    DecodedAddresses(st', r.ip);
    forall ip: Ip | ip != r.ip ensures SameRecord(st, st', ip) { OtherRecordsStay(st, a, ip); }
    DecodeElsewhere(st, st', r.ip);
    assert Decode(st') == (Decode(st') - {r.ip})[r.ip := DecodeOne(st', r.ip)];
  }

  /** After a release the address is gone from what is decoded, and nothing else moved. */
  lemma DecodeAfterRelease(st: Store, a: Allocation)
    requires Shaped(st) && WellFormedAllocation(a) && Commits(st, Release(a))
    ensures Decode(Act(st, Release(a))) == Decode(st) - {a.ip}
  {
    var st' := Act(st, Release(a));
    StepKeepsShape(st, Release(a));
    ReleaseMeaning(st, a);
    DecodedAddresses(st', a.ip);
    forall ip: Ip | ip != a.ip ensures SameRecord(st, st', ip) { OtherRecordsStay(st, Release(a), ip); }
    DecodeElsewhere(st, st', a.ip);
    assert Decode(st') == Decode(st') - {a.ip};
  }

  /** A release of what is decoded always names the present holder. */
  lemma DecodedRecordCanBeReleased(st: Store, a: Allocation)
    requires Shaped(st) && a.ip in Decode(st) && Stored(a) == Decode(st)[a.ip]
    ensures WellFormedAllocation(a) && Commits(st, Release(a))
  {
    DecodedAddresses(st, a.ip);
    assert RecordIs(st, a.ip, HolderOf(st, a.ip));
    ReleaseMeaning(st, a);
  }

  // ---------- release ----------

  datatype ReleaseResult =
    | ReleaseFailed
    | Released
    | Mismatch(found: Allocation)
    | Crashed  // the reply to a missing key is indexed

  /** The failure branch looks at the MAC before the service id. */
  function FoundInstead(st: Store, ip: Ip): Allocation {
    var mac, id := Key(ip, Mac), Key(ip, ServiceID);
    if mac in st then Allocation(ip, TypeIn(st, ip), TimeIn(st, ip), Some(mac), TextIn(st, mac))
    else if id in st then Allocation(ip, TypeIn(st, ip), TimeIn(st, ip), Some(id), TextIn(st, id))
    else Allocation(ip, TypeIn(st, ip), TimeIn(st, ip), None, "")
  }

  /** The failure branch indexes the replies for two of the keys. */
  predicate Indexable(st: Store, ip: Ip) { Key(ip, AllocatedAt) in st && Key(ip, Type) in st }

  /** On a well-shaped store that is missing exactly when the record is gone, and otherwise what
      is read back is the record. */
  lemma ReadBackMeaning(st: Store, ip: Ip)
    requires Shaped(st)
    ensures Indexable(st, ip) <==> !HolderOf(st, ip).Nobody?
    ensures Indexable(st, ip) ==> ip in Decode(st) && FoundInstead(st, ip) == Decode(st)[ip]
  {
    assert RecordIs(st, ip, HolderOf(st, ip));
    DecodedAddresses(st, ip);
  }

  /** What a release did on the contents `at` that it found. */
  ghost predicate ReleasedAt(server: Server<Key, Value>, a: Allocation, at: Store, result: ReleaseResult, after: Store)
    requires WellFormedAllocation(a)
  {
    match result
    case ReleaseFailed => !server.reliable && (after == at || after == Act(at, Release(a)))
    case Released => Commits(at, Release(a)) && after == Act(at, Release(a))
    case Mismatch(found) =>
      !Commits(at, Release(a)) && after == at && Indexable(at, a.ip) && found == FoundInstead(at, a.ip)
    case Crashed => !Commits(at, Release(a)) && after == at && !Indexable(at, a.ip)
  }

  method ReleaseAllocation(server: Server<Key, Value>, a: Allocation)
    returns (result: ReleaseResult, ghost at: Store)
    requires server.Valid() && WellFormedAllocation(a)
    modifies server
    ensures server.rely(old(server.kv), at) && ReleasedAt(server, a, at, result, server.kv)
    // a refused release crashes exactly when one of the two keys is missing that it indexes
    ensures result.Crashed? || result.Mismatch? ==>
      (result.Crashed? <==> Key(a.ip, AllocatedAt) !in at || Key(a.ip, Type) !in at)
    // so exactly when the record is gone, and otherwise it tells the record
    ensures Shaped(at) && (result.Crashed? || result.Mismatch?) ==>
      && (result.Crashed? <==> HolderOf(at, a.ip).Nobody?)
      && (result.Mismatch? ==> a.ip in Decode(at) && result.found == Decode(at)[a.ip])
  {
    var reply;
    reply, at := server.Commit(ReleaseTxn(a));
    if reply.Failed? {
      return ReleaseFailed, at;
    }
    if reply.succeeded {
      return Released, at;
    }
    // the failure branch of the transaction reads the four keys in the same step
    if Shaped(at) {
      ReadBackMeaning(at, a.ip);
    }
    var kv := server.kv;
    if !Indexable(kv, a.ip) {
      return Crashed, at;
    }
    return Mismatch(FoundInstead(kv, a.ip)), at;
  }
}
