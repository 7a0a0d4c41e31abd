/**
 The IP pool of one host: a cache of the allocations in etcd (`allocatedIPs`) and of the addresses
 that are free (`unusedIPs`, with the time since when).  Four things are kept apart:

 - whatever the other clients do, the two maps stay disjoint and together cover the pool, on every
   branch (`Partition`);
 - if only addresses of the pool are ever stored, they cover exactly the pool (`Closed`);
 - while the others do not take them away, the addresses of our containers and services are ours in
   etcd too (`Owned`);
 - when the pool is the only writer and calls do not fail, the cache is exactly what etcd holds,
   up to fractions of a second (`InSync`).
 */
module Pool {
  import opened Common
  import opened Etcd
  import opened AllocationProtocol
  import opened AllocationClient
  import Ipv4

  /** What the caller wants an address for. */
  datatype Want = WantReservation | WantContainer(mac: string) | WantService(serviceID: string)

  predicate WellFormedWant(w: Want) {
    match w
    case WantReservation => true
    case WantContainer(mac) => mac != ""
    case WantService(id) => id != ""
  }

  /** Who is to hold the address. */
  function HolderWanted(w: Want): Holder {
    match w
    case WantReservation => Reservation
    case WantContainer(mac) => Container(mac)
    case WantService(id) => Service(id)
  }

  function RequestFor(w: Want, ip: Ip): (r: Request)
    requires WellFormedWant(w)
    ensures r.ip == ip && WellFormedRequest(r) && HolderAfter(r) == HolderWanted(w)
  {
    match w
    case WantReservation => Reserve(ip)
    case WantContainer(mac) => ForContainer(ip, mac)
    case WantService(id) => ForService(ip, id)
  }

  datatype PoolResult = Allocated(ip: Ip) | PoolError | GaveUp

  datatype ReleaseOutcome = NotReserved | DidRelease | ReleaseError | HeldDifferently(found: Allocation) | Panic

  const QUARANTINE := 300 * NANOS

  /** Unused since more than five minutes. */
  predicate Rested(since: int, now: int) { since + QUARANTINE < now }

  function RestedSet(unused: map<Ip, int>, now: int): set<Ip> { set ip | ip in unused && Rested(unused[ip], now) }

  /** The addresses to choose from: the rested ones, or all if there are none. */
  function Offered(unused: map<Ip, int>, now: int): set<Ip> {
    if RestedSet(unused, now) != {} then RestedSet(unused, now) else unused.Keys
  }

  /** No unused address has been so for more than five minutes. */
  ghost predicate NoneRested(unused: map<Ip, int>, now: int) {
    forall ip | ip in unused :: now <= unused[ip] + 300_000_000_000
  }

  lemma OfferedIff(unused: map<Ip, int>, now: int)
    ensures forall ip: Ip :: ip in Offered(unused, now) <==>
      ip in unused && (unused[ip] + 300_000_000_000 < now || NoneRested(unused, now))
  {
    if NoneRested(unused, now) {
      assert RestedSet(unused, now) == {};
    } else {
      var other :| other in unused && !(now <= unused[other] + 300_000_000_000);
      assert other in RestedSet(unused, now);
    }
  }

  function StoredAll(cache: map<Ip, Allocation>): map<Ip, Allocation> {
    map ip | ip in cache :: Stored(cache[ip])
  }

  lemma StoredAllUpdate(cache: map<Ip, Allocation>, ip: Ip, a: Allocation)
    ensures StoredAll(cache[ip := a]) == StoredAll(cache)[ip := Stored(a)]
    ensures StoredAll(cache - {ip}) == StoredAll(cache) - {ip}
  {
  }

  lemma DecodedIsStored(st: Store)
    ensures StoredAll(Decode(st)) == Decode(st)
    ensures forall ip | ip in Decode(st) :: Decode(st)[ip].ip == ip && WellFormedAllocation(Decode(st)[ip])
  {
  }

  // ---------- the state of a pool ----------

  /** The cache, and the contents of etcd, at one moment. */
  datatype Snapshot = Snapshot(allocatedIPs: map<Ip, Allocation>, unusedIPs: map<Ip, int>, kv: Store)

  /** The two maps are disjoint and cover the pool; cached allocations can be released. */
  predicate Partition(s: Snapshot, ips: set<Ip>) {
    && s.allocatedIPs.Keys !! s.unusedIPs.Keys
    && ips <= s.allocatedIPs.Keys + s.unusedIPs.Keys
    && CanBeNamed(s)
  }

  predicate CanBeNamed(s: Snapshot) {
    forall ip | ip in s.allocatedIPs :: s.allocatedIPs[ip].ip == ip && WellFormedAllocation(s.allocatedIPs[ip])
  }

  /** Nothing outside the pool's addresses is cached or stored. */
  predicate Closed(s: Snapshot, ips: set<Ip>) {
    s.allocatedIPs.Keys <= ips && s.unusedIPs.Keys <= ips && Within(s.kv, ips)
  }

  /** The cache is what etcd holds, in whole seconds. */
  ghost predicate InSync(s: Snapshot) {
    Shaped(s.kv) && StoredAll(s.allocatedIPs) == Decode(s.kv)
  }

  /** Which containers and services are ours. */
  type Ours = Holder -> bool

  predicate Mine(ours: Ours, h: Holder) { (h.Container? || h.Service?) && ours(h) }

  function HolderFor(a: Allocation): Holder {
    match a.allocationType
    case ContainerIPType => Container(a.data)
    case ServiceVIPType => Service(a.data)
    case _ => Reservation
  }

  /** Every cached address of our containers and services is theirs in etcd. */
  ghost predicate Owned(ours: Ours, s: Snapshot) {
    && Shaped(s.kv)
    && forall ip | ip in s.allocatedIPs && Mine(ours, HolderFor(s.allocatedIPs[ip])) ::
         Names(s.allocatedIPs[ip], HolderOf(s.kv, ip))
  }

  ghost predicate KeepsMine(ours: Ours, st: Store, st': Store) {
    forall ip: Ip | Mine(ours, HolderOf(st, ip)) :: HolderOf(st', ip) == HolderOf(st, ip)
  }

  /** The others follow the protocol and take no address away from these containers and services. */
  ghost predicate LeftAlone(ours: Ours, server: Server<Key, Value>) {
    && OthersKeepShape(server)
    && forall st, st' :: server.rely(st, st') && Shaped(st) ==> KeepsMine(ours, st, st')
  }

  /** The same, and calls do not fail. */
  ghost predicate Respected(ours: Ours, server: Server<Key, Value>) { server.reliable && LeftAlone(ours, server) }

  /** A transaction of another client respects us unless it is a delete-all or a release that names
      one of ours. */
  lemma ForeignStepRespects(ours: Ours, st: Store, a: Action)
    requires Shaped(st) && WellFormed(a) && !a.DeleteAll?
    requires a.Release? && Names(a.allocation, HolderOf(st, a.allocation.ip)) ==>
               !Mine(ours, HolderOf(st, a.allocation.ip))
    ensures Shaped(Act(st, a)) && KeepsMine(ours, st, Act(st, a))
  {
    StepKeepsShape(st, a);
  }

  lemma OwnedStays(ours: Ours, s: Snapshot, kv: Store)
    requires Owned(ours, s) && Shaped(kv) && KeepsMine(ours, s.kv, kv)
    ensures Owned(ours, s.(kv := kv))
  {
    forall ip | ip in s.allocatedIPs && Mine(ours, HolderFor(s.allocatedIPs[ip]))
      ensures Names(s.allocatedIPs[ip], HolderOf(kv, ip))
    {
      assert Mine(ours, HolderOf(s.kv, ip));
    }
  }

  lemma DecodedIsOwned(ours: Ours, unused: map<Ip, int>, kv: Store)
    requires Shaped(kv)
    ensures Owned(ours, Snapshot(Decode(kv), unused, kv))
  {
    DecodedIsStored(kv);
    forall ip | ip in Decode(kv) ensures Names(Decode(kv)[ip], HolderOf(kv, ip)) {
      assert StoredAll(Decode(kv))[ip] == Stored(Decode(kv)[ip]);
      DecodedRecordCanBeReleased(kv, Decode(kv)[ip]);
      ReleaseMeaning(kv, Decode(kv)[ip]);
    }
  }

  /** The parts of the consistency of a pool that a step keeps; `inside` tells that the step asks
      for no address outside the pool. */
  ghost predicate Kept(server: Server<Key, Value>, ours: Ours, ips: set<Ip>, inside: bool, s: Snapshot, s': Snapshot) {
    && (OthersKeepShape(server) && Shaped(s.kv) ==> Shaped(s'.kv))
    && (OthersStayWithin(server, ips) && inside && Closed(s, ips) ==> Closed(s', ips))
    && (Respected(ours, server) && Owned(ours, s) ==> Owned(ours, s'))
  }

  // ---------- one request ----------

  function AfterGrant(s: Snapshot, r: Request, now: int): Snapshot {
    Snapshot(s.allocatedIPs[r.ip := Granted(r, now)], s.unusedIPs - {r.ip}, s.kv + Puts(r, now))
  }

  /** What a call did to the pool. */
  ghost predicate TryEffect(
    server: Server<Key, Value>, s: Snapshot, r: Request, now: int, seen: seq<Store>, answer: CallResult, s': Snapshot)
    requires WellFormedRequest(r)
  {
    && Tried(server, s.kv, r, now, seen, answer, s'.kv)
    && s'.allocatedIPs == (if answer.Success? then s.allocatedIPs[r.ip := Granted(r, now)] else s.allocatedIPs)
    && s'.unusedIPs == (if answer.Success? then s.unusedIPs - {r.ip} else s.unusedIPs)
  }

  lemma TryKeepsMine(
    server: Server<Key, Value>, ours: Ours, s: Snapshot, r: Request, now: int, seen: seq<Store>, answer: CallResult,
    s': Snapshot)
    requires WellFormedRequest(r) && TryEffect(server, s, r, now, seen, answer, s')
    requires LeftAlone(ours, server) && Shaped(s.kv)
    ensures Shaped(s'.kv) && KeepsMine(ours, s.kv, s'.kv)
  {
    var inv := (st: Store) => Shaped(st) && KeepsMine(ours, s.kv, st);
    forall st, st' | server.rely(st, st') && inv(st) ensures inv(st') {
      assert KeepsMine(ours, st, st');
    }
    forall st, g: nat | g < |Conditions(r)| && inv(st) ensures inv(Act(st, Try(r, g, now))) {
      ForeignStepRespects(ours, st, Try(r, g, now));
    }
    StableOverCall(server, s.kv, r, now, seen, answer, s'.kv, inv);
  }

  lemma TryKeepsOwned(
    server: Server<Key, Value>, ours: Ours, s: Snapshot, r: Request, now: int, seen: seq<Store>, answer: CallResult,
    s': Snapshot)
    requires WellFormedRequest(r) && TryEffect(server, s, r, now, seen, answer, s')
    requires Respected(ours, server) && Owned(ours, s)
    ensures Owned(ours, s')
  {
    TryKeepsMine(server, ours, s, r, now, seen, answer, s');
    OwnedStays(ours, s, s'.kv);
    if answer.Success? {
      ShapeOverCall(server, s.kv, r, now, seen, answer, s'.kv);
      GrantTakesFromNobodyElse(r, now, seen[|seen| - 1], |seen| - 1, s'.kv);
    }
  }

  lemma TryKeeps(
    server: Server<Key, Value>, ours: Ours, ips: set<Ip>, s: Snapshot, r: Request, now: int, seen: seq<Store>,
    answer: CallResult, s': Snapshot)
    requires WellFormedRequest(r) && TryEffect(server, s, r, now, seen, answer, s')
    ensures Kept(server, ours, ips, r.ip in ips, s, s')
    ensures Partition(s, ips) ==> Partition(s', ips)
  {
    if OthersKeepShape(server) && Shaped(s.kv) {
      ShapeOverCall(server, s.kv, r, now, seen, answer, s'.kv);
    }
    if OthersStayWithin(server, ips) && r.ip in ips && Closed(s, ips) {
      WithinOverCall(server, s.kv, r, now, seen, answer, s'.kv, ips);
    }
    if Respected(ours, server) && Owned(ours, s) {
      TryKeepsOwned(server, ours, s, r, now, seen, answer, s');
    }
  }

  /** Alone, a grant keeps the cache in step with etcd. */
  lemma GrantKeepsSync(s: Snapshot, r: Request, now: int)
    requires InSync(s) && WellFormedRequest(r) && CanSucceed(s.kv, r)
    ensures InSync(AfterGrant(s, r, now))
  {
    var g: nat :| g < |Conditions(r)| && Passes(s.kv, TryTxn(r, g, 0));
    AttemptOutcome(s.kv, r, g, now);
    StepKeepsShape(s.kv, Try(r, g, now));
    DecodeAfterGrant(s.kv, r, g, now);
    StoredAllUpdate(s.allocatedIPs, r.ip, Granted(r, now));
  }

  /** In step with etcd, every unused address can be had. */
  lemma UnusedCanBeGranted(s: Snapshot, ips: set<Ip>, r: Request)
    requires InSync(s) && Partition(s, ips) && WellFormedRequest(r) && r.ip in s.unusedIPs
    ensures CanSucceed(s.kv, r)
  {
    assert r.ip !in StoredAll(s.allocatedIPs);
    DecodedAddresses(s.kv, r.ip);
    CallMeaning(s.kv, r);
  }

  /** In step with etcd, the cache tells who holds an address there. */
  lemma CachedHolder(s: Snapshot, ips: set<Ip>, ip: Ip)
    requires InSync(s) && Partition(s, ips) && ip in s.allocatedIPs
    ensures Names(s.allocatedIPs[ip], HolderOf(s.kv, ip))
    ensures s.allocatedIPs[ip].allocationType != UnknownType && HolderFor(s.allocatedIPs[ip]) == HolderOf(s.kv, ip)
  {
    assert ip in StoredAll(s.allocatedIPs);
    DecodedRecordCanBeReleased(s.kv, s.allocatedIPs[ip]);
    ReleaseMeaning(s.kv, s.allocatedIPs[ip]);
  }

  // ---------- a search for a free address ----------

  /** The pool after a reload. */
  function Reloaded(s: Snapshot, ips: set<Ip>, now: int): Snapshot {
    Snapshot(Decode(s.kv), map ip | ip in ips && ip !in Decode(s.kv) :: now, s.kv)
  }

  /** One call: the contents before it, those that its tries met, its answer and the contents it left. */
  datatype Ask = Ask(ip: Ip, before: Store, seen: seq<Store>, answer: CallResult, after: Store)

  ghost predicate IsAsk(server: Server<Key, Value>, want: Want, now: int, a: Ask)
    requires WellFormedWant(want)
  {
    Tried(server, a.before, RequestFor(want, a.ip), now, a.seen, a.answer, a.after)
  }

  /** What ask i starts from. */
  function StartOf(first: Store, asks: seq<Ask>, i: nat): Store
    requires i <= |asks|
  {
    if i == 0 then first else asks[i - 1].after
  }

  /** One call after the other; all but the last are refused. */
  ghost predicate InTurn(isAsk: Ask -> bool, first: Store, asks: seq<Ask>) {
    && (forall i {:trigger isAsk(asks[i])} | 0 <= i < |asks| ::
          isAsk(asks[i]) && asks[i].before == StartOf(first, asks, i))
    && (forall i | 0 <= i < |asks| - 1 :: asks[i].answer.Refused?)
  }

  ghost function AskOf(server: Server<Key, Value>, want: Want, now: int): Ask -> bool
    requires WellFormedWant(want)
  {
    a => IsAsk(server, want, now, a)
  }

  /** `isAsk` allows only calls as the pool makes them. */
  ghost predicate Genuine(server: Server<Key, Value>, want: Want, now: int, isAsk: Ask -> bool)
    requires WellFormedWant(want)
  {
    forall a | isAsk(a) :: IsAsk(server, want, now, a)
  }

  /** The pool after a call. */
  function Settled(s: Snapshot, want: Want, now: int, a: Ask): Snapshot
    requires WellFormedWant(want)
  {
    if a.answer.Success?
    then Snapshot(s.allocatedIPs[a.ip := Granted(RequestFor(want, a.ip), now)], s.unusedIPs - {a.ip}, a.after)
    else s.(kv := a.after)
  }

  /** What the pool chooses from: its unused addresses or, if it has none, those after a reload. */
  function Base(s: Snapshot, ips: set<Ip>, now: int, first: Store): Snapshot {
    if s.unusedIPs == map[] then Reloaded(s.(kv := first), ips, now) else s
  }

  /** The end of a search over the pool `base`: nothing to offer, or the answer of the last call. */
  ghost predicate Verdict(
    base: Snapshot, want: Want, now: int, passes: nat, asks: seq<Ask>, result: PoolResult, s': Snapshot)
    requires WellFormedWant(want)
  {
    if asks == [] then base.unusedIPs == map[] && result.PoolError? && s' == base
    else
      var last := asks[|asks| - 1];
      && |asks| <= passes && s' == Settled(base, want, now, last)
      && match last.answer
         case Success(_) => result == Allocated(last.ip)
         case Refused => result.GaveUp? && |asks| == passes
         case CallFailed => result.PoolError?
  }

  /** All that a search does, whatever the others do: `first` is what a reload found, or the contents
      at the start without one; `asks` are the calls. */
  ghost predicate FreeEffect(
    server: Server<Key, Value>, isAsk: Ask -> bool, ips: set<Ip>, s: Snapshot, want: Want, now: int, passes: nat,
    first: Store, asks: seq<Ask>, result: PoolResult, s': Snapshot)
    requires WellFormedWant(want)
  {
    if passes == 0 then result.GaveUp? && s' == s && asks == []
    else
      && (if s.unusedIPs == map[] then server.rely(s.kv, first) else first == s.kv)
      && (|| CouldNotReload(server, s, first, asks, result, s')
          || (&& InTurn(isAsk, first, asks)
              && (forall i | 0 <= i < |asks| :: asks[i].ip in Offered(Base(s, ips, now, first).unusedIPs, now))
              && Verdict(Base(s, ips, now, first), want, now, passes, asks, result, s')))
  }

  ghost predicate CouldNotReload(
    server: Server<Key, Value>, s: Snapshot, first: Store, asks: seq<Ask>, result: PoolResult, s': Snapshot)
  {
    s.unusedIPs == map[] && !server.reliable && asks == [] && result.PoolError? && s' == s.(kv := first)
  }

  lemma InTurnGrows(isAsk: Ask -> bool, first: Store, asks: seq<Ask>, more: seq<Ask>)
    requires InTurn(isAsk, first, asks) && (asks != [] ==> asks[|asks| - 1].answer.Refused?)
    requires InTurn(isAsk, StartOf(first, asks, |asks|), more)
    ensures InTurn(isAsk, first, asks + more)
  {
    var all := asks + more;
    forall i | 0 <= i < |all|
      ensures isAsk(all[i]) && all[i].before == StartOf(first, all, i)
      ensures i < |all| - 1 ==> all[i].answer.Refused?
    {
      if i >= |asks| {
        assert all[i] == more[i - |asks|];
      }
    }
  }

  /** A search that went on to `mid` without success, and goes on there. */
  lemma SearchGoesOn(
    base: Snapshot, want: Want, now: int, isAsk: Ask -> bool, passes: nat, pass: nat, asks: seq<Ask>, mid: Snapshot,
    asks': seq<Ask>, result: PoolResult, s': Snapshot)
    requires WellFormedWant(want) && 0 < pass < passes
    requires InTurn(isAsk, base.kv, asks) && Verdict(base, want, now, pass, asks, GaveUp, mid)
    requires forall i | 0 <= i < |asks| :: asks[i].ip in Offered(base.unusedIPs, now)
    requires InTurn(isAsk, mid.kv, asks') && Verdict(mid, want, now, 1, asks', result, s')
    requires forall i | 0 <= i < |asks'| :: asks'[i].ip in Offered(mid.unusedIPs, now)
    ensures var all, total := asks + asks', if result.GaveUp? then pass + 1 else passes;
            && InTurn(isAsk, base.kv, all) && Verdict(base, want, now, total, all, result, s')
            && forall i | 0 <= i < |all| :: all[i].ip in Offered(base.unusedIPs, now)
  {
    InTurnGrows(isAsk, base.kv, asks, asks');
    OfferedFromUnused(base.unusedIPs, now, asks[0].ip);
    assert asks' != [];
    assert (asks + asks')[|asks + asks'| - 1] == asks'[|asks'| - 1];
  }

  /** A search of `pass` passes without success, and one more pass. */
  lemma OneMorePass(
    server: Server<Key, Value>, isAsk: Ask -> bool, ips: set<Ip>, s: Snapshot, want: Want, now: int, passes: nat,
    pass: nat,
    first: Store, asks: seq<Ask>, mid: Snapshot, first': Store, asks': seq<Ask>, result: PoolResult, s': Snapshot)
    requires WellFormedWant(want) && pass < passes
    requires FreeEffect(server, isAsk, ips, s, want, now, pass, first, asks, GaveUp, mid)
    requires FreeEffect(server, isAsk, ips, mid, want, now, 1, first', asks', result, s')
    ensures var start, total := if pass == 0 then first' else first, if result.GaveUp? then pass + 1 else passes;
            FreeEffect(server, isAsk, ips, s, want, now, total, start, asks + asks', result, s')
  {
    if pass == 0 {
      assert asks + asks' == asks';
    } else {
      var base := Base(s, ips, now, first);
      OfferedFromUnused(base.unusedIPs, now, asks[0].ip);
      assert Base(mid, ips, now, first') == mid;
      SearchGoesOn(base, want, now, isAsk, passes, pass, asks, mid, asks', result, s');
    }
  }

  lemma OfferedFromUnused(unused: map<Ip, int>, now: int, ip: Ip)
    requires ip in Offered(unused, now)
    ensures ip in unused
  {
  }

  // ---------- what a search keeps ----------

  lemma KeptTwice(
    server: Server<Key, Value>, ours: Ours, ips: set<Ip>, inside: bool, inside': bool, a: Snapshot, b: Snapshot,
    c: Snapshot)
    requires Kept(server, ours, ips, inside, a, b) && Kept(server, ours, ips, inside', b, c)
    ensures Kept(server, ours, ips, inside && inside', a, c)
  {
  }

  /** A step of the others alone. */
  lemma OthersKeep(server: Server<Key, Value>, ours: Ours, ips: set<Ip>, s: Snapshot, kv: Store)
    requires server.rely(s.kv, kv)
    ensures Kept(server, ours, ips, true, s, s.(kv := kv))
  {
    if Respected(ours, server) && Owned(ours, s) {
      OwnedStays(ours, s, kv);
    }
  }

  lemma ReloadKeeps(server: Server<Key, Value>, ours: Ours, ips: set<Ip>, s: Snapshot, s': Snapshot, now: int)
    requires s' == Reloaded(s', ips, now)
    requires OthersKeepShape(server) && Shaped(s.kv) ==> Shaped(s'.kv)
    requires OthersStayWithin(server, ips) && Within(s.kv, ips) ==> Within(s'.kv, ips)
    ensures Kept(server, ours, ips, true, s, s') && Partition(s', ips)
  {
    DecodedIsStored(s'.kv);
    if Shaped(s'.kv) {
      DecodedIsOwned(ours, s'.unusedIPs, s'.kv);
    }
  }

  lemma AskKeeps(server: Server<Key, Value>, ours: Ours, ips: set<Ip>, s: Snapshot, want: Want, now: int, a: Ask)
    requires WellFormedWant(want) && IsAsk(server, want, now, a) && a.before == s.kv
    ensures Kept(server, ours, ips, a.ip in ips, s, Settled(s, want, now, a))
    ensures Partition(s, ips) ==> Partition(Settled(s, want, now, a), ips)
  {
    TryKeeps(server, ours, ips, s, RequestFor(want, a.ip), now, a.seen, a.answer, Settled(s, want, now, a));
  }

  /** Calls for offered addresses. */
  lemma {:induction false} AsksKeep(
    server: Server<Key, Value>, isAsk: Ask -> bool, ours: Ours, ips: set<Ip>, base: Snapshot, want: Want, now: int,
    asks: seq<Ask>, n: nat)
    requires WellFormedWant(want) && Genuine(server, want, now, isAsk) && InTurn(isAsk, base.kv, asks)
        && 0 < n <= |asks|
    requires forall i | 0 <= i < |asks| :: asks[i].ip in base.unusedIPs
    ensures Kept(server, ours, ips, true, base, Settled(base, want, now, asks[n - 1]))
    ensures Partition(base, ips) ==> Partition(Settled(base, want, now, asks[n - 1]), ips)
  {
    var last := asks[n - 1];
    assert isAsk(last) && last.before == StartOf(base.kv, asks, n - 1);
    var mid := base.(kv := last.before);
    if n > 1 {
      AsksKeep(server, isAsk, ours, ips, base, want, now, asks, n - 1);
      assert mid == Settled(base, want, now, asks[n - 2]);
    }
    NextAskKeeps(server, ours, ips, base, mid, want, now, last);
  }

  lemma NextAskKeeps(
    server: Server<Key, Value>, ours: Ours, ips: set<Ip>, base: Snapshot, mid: Snapshot, want: Want, now: int, a: Ask)
    requires WellFormedWant(want) && IsAsk(server, want, now, a) && mid == base.(kv := a.before)
        && a.ip in base.unusedIPs
    requires base == mid || Kept(server, ours, ips, true, base, mid)
    ensures Kept(server, ours, ips, true, base, Settled(base, want, now, a))
    ensures Partition(base, ips) ==> Partition(Settled(base, want, now, a), ips)
  {
    assert Settled(mid, want, now, a) == Settled(base, want, now, a);
    AskKeeps(server, ours, ips, mid, want, now, a);
    KeptIfClosed(server, ours, ips, base, mid, a.ip, Settled(base, want, now, a));
  }

  /** An unused address of a closed pool is one of the pool's. */
  lemma KeptIfClosed(
    server: Server<Key, Value>, ours: Ours, ips: set<Ip>, a: Snapshot, b: Snapshot, ip: Ip, c: Snapshot)
    requires a == b || Kept(server, ours, ips, true, a, b)
    requires Kept(server, ours, ips, ip in ips, b, c) && ip in b.unusedIPs
    ensures Kept(server, ours, ips, true, a, c)
  {
  }

  lemma BaseKeeps(server: Server<Key, Value>, ours: Ours, ips: set<Ip>, s: Snapshot, now: int, first: Store)
    requires if s.unusedIPs == map[] then server.rely(s.kv, first) else first == s.kv
    ensures Kept(server, ours, ips, true, s, Base(s, ips, now, first)) && Base(s, ips, now, first).kv == first
    ensures Partition(s, ips) ==> Partition(Base(s, ips, now, first), ips)
  {
    if s.unusedIPs == map[] {
      ReloadKeeps(server, ours, ips, s, Reloaded(s.(kv := first), ips, now), now);
    }
  }

  lemma SearchKeeps(
    server: Server<Key, Value>, isAsk: Ask -> bool, ours: Ours, ips: set<Ip>, s: Snapshot, base: Snapshot, want: Want,
    now: int, asks: seq<Ask>)
    requires WellFormedWant(want) && Genuine(server, want, now, isAsk) && InTurn(isAsk, base.kv, asks) && asks != []
    requires forall i | 0 <= i < |asks| :: asks[i].ip in Offered(base.unusedIPs, now)
    requires Kept(server, ours, ips, true, s, base) && (Partition(s, ips) ==> Partition(base, ips))
    ensures var s' := Settled(base, want, now, asks[|asks| - 1]);
            Kept(server, ours, ips, true, s, s') && (Partition(s, ips) ==> Partition(s', ips))
  {
    forall i | 0 <= i < |asks| ensures asks[i].ip in base.unusedIPs {
      OfferedFromUnused(base.unusedIPs, now, asks[i].ip);
    }
    AsksKeep(server, isAsk, ours, ips, base, want, now, asks, |asks|);
    KeptTwice(server, ours, ips, true, true, s, base, Settled(base, want, now, asks[|asks| - 1]));
  }

  lemma FreeKeeps(
    server: Server<Key, Value>, isAsk: Ask -> bool, ours: Ours, ips: set<Ip>, s: Snapshot, want: Want, now: int,
    passes: nat, first: Store, asks: seq<Ask>, result: PoolResult, s': Snapshot)
    requires WellFormedWant(want) && Genuine(server, want, now, isAsk)
    requires FreeEffect(server, isAsk, ips, s, want, now, passes, first, asks, result, s')
    ensures Kept(server, ours, ips, true, s, s')
    ensures Partition(s, ips) ==> Partition(s', ips)
  {
    if passes > 0 {
      BaseKeeps(server, ours, ips, s, now, first);
      if CouldNotReload(server, s, first, asks, result, s') {
        OthersKeep(server, ours, ips, s, first);
      } else if asks != [] {
        SearchKeeps(server, isAsk, ours, ips, s, Base(s, ips, now, first), want, now, asks);
      }
    }
  }

  // ---------- a search that is not disturbed ----------

  /** Only a pool without unused addresses is reloaded before an address is chosen. */
  function Refreshed(s: Snapshot, ips: set<Ip>, now: int): Snapshot { Base(s, ips, now, s.kv) }

  /** What choosing does undisturbed.  The addresses `picked` are offered and refused one after the
      other; the loop ends only with one that is granted. */
  ghost predicate Picks(s: Snapshot, want: Want, now: int, passes: nat, picked: seq<Ip>, result: PoolResult,
    s': Snapshot)
    requires WellFormedWant(want)
  {
    && |picked| <= passes
    && (forall i | 0 <= i < |picked| :: picked[i] in Offered(s.unusedIPs, now))
    && (forall i | 0 <= i < |picked| - 1 :: !CanSucceed(s.kv, RequestFor(want, picked[i])))
    && match result
       case PoolError => false
       case GaveUp =>
         && |picked| == passes && s' == s
         && (picked != [] ==> !CanSucceed(s.kv, RequestFor(want, picked[|picked| - 1])))
       case Allocated(ip) =>
         && picked != [] && ip == picked[|picked| - 1] && CanSucceed(s.kv, RequestFor(want, ip))
         && s' == AfterGrant(s, RequestFor(want, ip), now)
  }

  ghost predicate PicksFree(
    s: Snapshot, ips: set<Ip>, want: Want, now: int, passes: nat, picked: seq<Ip>, result: PoolResult, s': Snapshot)
    requires WellFormedWant(want)
  {
    if passes == 0 then result.GaveUp? && s' == s
    else if Refreshed(s, ips, now).unusedIPs == map[] then result.PoolError? && s' == Refreshed(s, ips, now)
    else Picks(Refreshed(s, ips, now), want, now, passes, picked, result, s')
  }

  function IpsOf(asks: seq<Ask>): seq<Ip> { seq(|asks|, i requires 0 <= i < |asks| => asks[i].ip) }

  /** A call that nobody disturbed. */
  ghost predicate Undisturbed(want: Want, now: int, a: Ask)
    requires WellFormedWant(want)
  {
    var r := RequestFor(want, a.ip);
    && !a.answer.CallFailed? && (a.answer.Success? <==> CanSucceed(a.before, r))
    && a.after == if a.answer.Success? then a.before + Puts(r, now) else a.before
  }

  lemma QuietAsk(server: Server<Key, Value>, want: Want, now: int, a: Ask)
    requires WellFormedWant(want) && IsAsk(server, want, now, a) && server.Quiet()
    ensures Undisturbed(want, now, a)
  {
    UndisturbedCall(server, a.before, RequestFor(want, a.ip), now, a.seen, a.answer, a.after);
  }

  lemma {:induction false} UndisturbedAsks(isAsk: Ask -> bool, want: Want, now: int, kv: Store, asks: seq<Ask>, n: nat)
    requires WellFormedWant(want) && InTurn(isAsk, kv, asks) && n < |asks|
    requires forall a | isAsk(a) :: Undisturbed(want, now, a)
    ensures asks[n].before == kv && Undisturbed(want, now, asks[n])
  {
    assert isAsk(asks[n]) && asks[n].before == StartOf(kv, asks, n);
    if n > 0 {
      UndisturbedAsks(isAsk, want, now, kv, asks, n - 1);
      assert asks[n - 1].answer.Refused?;
    }
  }

  lemma UndisturbedVerdict(
    isAsk: Ask -> bool, base: Snapshot, want: Want, now: int, passes: nat, asks: seq<Ask>, result: PoolResult,
    s': Snapshot)
    requires WellFormedWant(want) && (forall a | isAsk(a) :: Undisturbed(want, now, a))
    requires asks != [] && InTurn(isAsk, base.kv, asks) && Verdict(base, want, now, passes, asks, result, s')
    requires forall i | 0 <= i < |asks| :: asks[i].ip in Offered(base.unusedIPs, now)
    ensures Picks(base, want, now, passes, IpsOf(asks), result, s')
  {
    var picked, last := IpsOf(asks), asks[|asks| - 1];
    forall i | 0 <= i < |asks| ensures picked[i] == asks[i].ip && asks[i].before == base.kv
      && Undisturbed(want, now, asks[i]) {
      UndisturbedAsks(isAsk, want, now, base.kv, asks, i);
    }
    forall i | 0 <= i < |picked| - 1 ensures !CanSucceed(base.kv, RequestFor(want, picked[i])) {
      assert asks[i].answer.Refused?;
    }
    UndisturbedEnd(base, want, now, last);
  }

  lemma UndisturbedEnd(base: Snapshot, want: Want, now: int, a: Ask)
    requires WellFormedWant(want) && Undisturbed(want, now, a) && a.before == base.kv
    ensures Settled(base, want, now, a) ==
            if CanSucceed(base.kv, RequestFor(want, a.ip)) then AfterGrant(base, RequestFor(want, a.ip), now) else base
  {
  }

  /** Undisturbed, a search is a sequence of picks. */
  lemma UndisturbedSearch(
    server: Server<Key, Value>, isAsk: Ask -> bool, ips: set<Ip>, s: Snapshot, want: Want, now: int, passes: nat,
    first: Store, asks: seq<Ask>, result: PoolResult, s': Snapshot)
    requires WellFormedWant(want) && Genuine(server, want, now, isAsk) && server.Quiet()
    requires FreeEffect(server, isAsk, ips, s, want, now, passes, first, asks, result, s')
    ensures PicksFree(s, ips, want, now, passes, IpsOf(asks), result, s')
  {
    if passes > 0 && asks != [] {
      assert first == s.kv;
      var base := Refreshed(s, ips, now);
      OfferedFromUnused(base.unusedIPs, now, asks[0].ip);
      forall a | isAsk(a) ensures Undisturbed(want, now, a) {
        QuietAsk(server, want, now, a);
      }
      UndisturbedVerdict(isAsk, base, want, now, passes, asks, result, s');
    }
  }

  /** However often it turns and whatever it picks, a call gives up exactly when the pool believes
      some address to be unused and none of those it offers can be granted: it does not look at etcd
      again while it has any. */
  lemma SpinsForeverIff(s: Snapshot, ips: set<Ip>, want: Want, now: int, passes: nat)
    requires WellFormedWant(want) && passes > 0
    ensures (forall picked, result, s' | PicksFree(s, ips, want, now, passes, picked, result, s') ::
      result.GaveUp?) <==>
            s.unusedIPs != map[]
            && (forall ip | ip in Offered(s.unusedIPs, now) :: !CanSucceed(s.kv, RequestFor(want, ip)))
  {
    var base := Refreshed(s, ips, now);
    if base.unusedIPs == map[] {
      assert PicksFree(s, ips, want, now, passes, [], PoolError, base);
    } else if ip :| ip in Offered(base.unusedIPs, now) && CanSucceed(s.kv, RequestFor(want, ip)) {
      assert Picks(base, want, now, passes, [ip], Allocated(ip), AfterGrant(base, RequestFor(want, ip), now));
      assert PicksFree(s, ips, want, now, passes, [ip], Allocated(ip), AfterGrant(base, RequestFor(want, ip), now));
    } else if s.unusedIPs == map[] {
      var ip := SomeOffered(base.unusedIPs, now);
      OfferedFromUnused(base.unusedIPs, now, ip);
      ReloadedDoesNotSpin(s, ips, want, now, ip);
    }
  }

  lemma SomeOffered(unused: map<Ip, int>, now: int) returns (ip: Ip)
    requires unused != map[]
    ensures ip in Offered(unused, now)
  {
    assert unused.Keys != {};
    ip :| ip in Offered(unused, now);
  }

  /** A reloaded cache offers only addresses that can be granted, so the loop ends in its first pass. */
  lemma ReloadedDoesNotSpin(s: Snapshot, ips: set<Ip>, want: Want, now: int, ip: Ip)
    requires WellFormedWant(want) && ip in Reloaded(s, ips, now).unusedIPs
    ensures CanSucceed(s.kv, RequestFor(want, ip))
  {
    var r := RequestFor(want, ip);
    forall f: Field ensures Key(ip, f) !in s.kv {
      var k := Key(ip, f);
      assert k in s.kv ==> k.ip in Decode(s.kv);
    }
    assert Passes(s.kv, TryTxn(r, if want.WantReservation? then 0 else if want.WantContainer? then 1 else 2, 0));
  }

  /** A stale pool: another client's container has the only address that the pool believes unused. */
  function StaleContents(ip: Ip): Store { Puts(ForContainer(ip, "aa"), 0) }

  lemma StaleContentsHolder(ip: Ip)
    ensures Shaped(StaleContents(ip)) && HolderOf(StaleContents(ip), ip) == Container("aa")
  {
    EmptyStoreIsShaped();
    var grant := Try(ForContainer(ip, "aa"), 1, 0);
    AttemptOutcome(map[], ForContainer(ip, "aa"), 1, 0);
    assert Commits(map[], grant) && Act(map[], grant) == StaleContents(ip);
    StepKeepsShape(map[], grant);
    GrantWritesRecord(map[], ForContainer(ip, "aa"), 1, 0);
  }

  lemma StalePoolSpins(ip: Ip, now: int, passes: nat, picked: seq<Ip>, result: PoolResult, s': Snapshot)
    requires passes > 0
    requires PicksFree(Snapshot(map[], map[ip := 0], StaleContents(ip)), {ip}, WantContainer("bb"), now, passes, picked,
                       result, s')
    ensures Shaped(StaleContents(ip)) && result.GaveUp?
  {
    var want := WantContainer("bb");
    StaleContentsHolder(ip);
    CallMeaning(StaleContents(ip), RequestFor(want, ip));
    assert "aa"[0] != "bb"[0];
    forall x | x in Offered(map[ip := 0], now) ensures !CanSucceed(StaleContents(ip), RequestFor(want, x)) {
      OfferedFromUnused(map[ip := 0], now, x);
    }
    assert ip in map[ip := 0];
    SpinsForeverIff(Snapshot(map[], map[ip := 0], StaleContents(ip)), {ip}, want, now, passes);
  }

  /** What allocating a free address does to a pool that is alone and in step with etcd. */
  ghost predicate TakesFree(s: Snapshot, want: Want, now: int, result: PoolResult, s': Snapshot)
    requires WellFormedWant(want)
  {
    if s.unusedIPs == map[]
    then result.PoolError? && s' == s.(allocatedIPs := StoredAll(s.allocatedIPs))
    else
      && result.Allocated? && result.ip in Offered(s.unusedIPs, now)
      && s' == AfterGrant(s, RequestFor(want, result.ip), now)
  }

  lemma InSyncTakesFree(
    s: Snapshot, ips: set<Ip>, want: Want, now: int, passes: nat, picked: seq<Ip>, result: PoolResult, s': Snapshot)
    requires WellFormedWant(want) && passes > 0 && PicksFree(s, ips, want, now, passes, picked, result, s')
    requires InSync(s) && Partition(s, ips)
    ensures TakesFree(s, want, now, result, s') && InSync(s')
  {
    if s.unusedIPs == map[] {
      forall ip | ip in ips ensures ip in Decode(s.kv) {
        assert ip in StoredAll(s.allocatedIPs);
      }
      assert Reloaded(s, ips, now).unusedIPs == map[];
      DecodedIsStored(s.kv);
    } else {
      forall i | 0 <= i < |picked| ensures CanSucceed(s.kv, RequestFor(want, picked[i])) {
        UnusedCanBeGranted(s, ips, RequestFor(want, picked[i]));
      }
      GrantKeepsSync(s, RequestFor(want, result.ip), now);
    }
  }

  // ---------- releasing ----------

  /** What a release did to the pool; `at` is what it found in etcd. */
  ghost predicate ReleaseEffect(
    server: Server<Key, Value>, s: Snapshot, ip: Ip, now: int, at: Store, outcome: ReleaseOutcome, s': Snapshot)
    requires CanBeNamed(s)
  {
    if ip !in s.allocatedIPs
    then outcome.NotReserved? && s' == s
    else
      var a := s.allocatedIPs[ip];
      && server.rely(s.kv, at)
      && match outcome
         case NotReserved => false
         case DidRelease =>
           && Commits(at, Release(a))
           && s' == Snapshot(s.allocatedIPs - {ip}, s.unusedIPs[ip := now], Act(at, Release(a)))
         case ReleaseError =>
           !server.reliable && s' == s.(kv := s'.kv) && (s'.kv == at || s'.kv == Act(at, Release(a)))
         case HeldDifferently(found) =>
           && !Commits(at, Release(a)) && Indexable(at, a.ip) && found == FoundInstead(at, a.ip)
           && s' == Snapshot(s.allocatedIPs[ip := found], s.unusedIPs, at)
         case Panic => !Commits(at, Release(a)) && !Indexable(at, a.ip) && s' == s.(kv := at)
  }

  /** On well-shaped contents: a panic means that the record is gone, and otherwise the new cache
      entry is the record that was found. */
  lemma ReleaseFindings(
    server: Server<Key, Value>, s: Snapshot, ip: Ip, now: int, at: Store, outcome: ReleaseOutcome, s': Snapshot)
    requires CanBeNamed(s) && ReleaseEffect(server, s, ip, now, at, outcome, s') && Shaped(at)
    ensures outcome.Panic? ==> HolderOf(at, ip).Nobody?
    ensures outcome.HeldDifferently? ==> ip in Decode(at) && outcome.found == Decode(at)[ip] == s'.allocatedIPs[ip]
  {
    ReadBackMeaning(at, ip);
  }

  lemma ReleaseKeepsOwned(
    server: Server<Key, Value>, ours: Ours, ips: set<Ip>, s: Snapshot, ip: Ip, now: int, at: Store,
    outcome: ReleaseOutcome, s': Snapshot)
    requires Partition(s, ips) && ReleaseEffect(server, s, ip, now, at, outcome, s')
    requires Respected(ours, server) && Owned(ours, s)
    ensures Owned(ours, s')
    ensures ip in s.allocatedIPs && Mine(ours, HolderFor(s.allocatedIPs[ip])) ==> outcome.DidRelease?
  {
    if ip in s.allocatedIPs {
      var a := s.allocatedIPs[ip];
      OwnedStays(ours, s, at);
      ReleaseMeaning(at, a);
      StepKeepsShape(at, Release(a));
      if outcome.HeldDifferently? {
        ReleaseFindings(server, s, ip, now, at, outcome, s');
        DecodedIsOwned(ours, s.unusedIPs, at);
      }
    }
  }

  lemma ReleaseKeeps(
    server: Server<Key, Value>, ours: Ours, ips: set<Ip>, s: Snapshot, ip: Ip, now: int, at: Store,
    outcome: ReleaseOutcome, s': Snapshot)
    requires Partition(s, ips) && ReleaseEffect(server, s, ip, now, at, outcome, s')
    ensures Kept(server, ours, ips, true, s, s') && Partition(s', ips)
  {
    if ip in s.allocatedIPs && OthersKeepShape(server) && Shaped(s.kv) {
      StepKeepsShape(at, Release(s.allocatedIPs[ip]));
    }
    if Respected(ours, server) && Owned(ours, s) {
      ReleaseKeepsOwned(server, ours, ips, s, ip, now, at, outcome, s');
    }
  }

  /** What a release does to a pool that is alone and in step with etcd. */
  ghost predicate GivesBack(s: Snapshot, ip: Ip, now: int, outcome: ReleaseOutcome, s': Snapshot)
    requires CanBeNamed(s)
  {
    if ip !in s.allocatedIPs
    then outcome.NotReserved? && s' == s
    else
      && outcome.DidRelease?
      && s' == Snapshot(s.allocatedIPs - {ip}, s.unusedIPs[ip := now], Act(s.kv, Release(s.allocatedIPs[ip])))
  }

  lemma InSyncGivesBack(
    server: Server<Key, Value>, ips: set<Ip>, s: Snapshot, ip: Ip, now: int, at: Store, outcome: ReleaseOutcome,
    s': Snapshot)
    requires Partition(s, ips) && ReleaseEffect(server, s, ip, now, at, outcome, s') && server.Quiet() && InSync(s)
    ensures GivesBack(s, ip, now, outcome, s') && InSync(s')
  {
    if ip in s.allocatedIPs {
      var a := s.allocatedIPs[ip];
      assert ip in StoredAll(s.allocatedIPs);
      DecodedRecordCanBeReleased(s.kv, a);
      DecodeAfterRelease(s.kv, a);
      StepKeepsShape(s.kv, Release(a));
      StoredAllUpdate(s.allocatedIPs, ip, a);
    }
  }

  // ---------- all that an operation does ----------

  /** What an operation leaves behind as evidence: the call for the preferred address, the search for
      a free one, and the contents that a release met. */
  datatype Evidence = Evidence(ask: Ask, first: Store, asks: seq<Ask>, at: Store)

  const NO_ASK := Ask(0, map[], [], Refused, map[])

  /** All that an allocation with a preferred address does, whatever the others do. */
  ghost predicate PreferredEffect(
    server: Server<Key, Value>, isAsk: Ask -> bool, ips: set<Ip>, low: int, high: int, s: Snapshot,
    preferred: Option<Ip>,
    want: Want, now: int, passes: nat, ev: Evidence, result: PoolResult, s': Snapshot)
    requires WellFormedWant(want)
  {
    match preferred
    case None => result.PoolError? && s' == s && ev.asks == []
    case Some(ip) =>
      if !(low <= ip <= high) then FreeEffect(server, isAsk, ips, s, want, now, passes, ev.first, ev.asks, result, s')
      else
        var mid := Settled(s, want, now, ev.ask);
        && isAsk(ev.ask) && ev.ask.ip == ip && ev.ask.before == s.kv
        && match ev.ask.answer
           case Success(_) => result == Allocated(ip) && s' == mid && ev.asks == []
           case CallFailed => result.PoolError? && s' == mid && ev.asks == []
           case Refused => FreeEffect(server, isAsk, ips, mid, want, now, passes, ev.first, ev.asks, result, s')
  }

  lemma PreferredKeeps(
    server: Server<Key, Value>, isAsk: Ask -> bool, ours: Ours, ips: set<Ip>, low: int, high: int, s: Snapshot,
    preferred: Option<Ip>, want: Want, now: int, passes: nat, ev: Evidence, result: PoolResult, s': Snapshot)
    requires WellFormedWant(want) && Genuine(server, want, now, isAsk)
    requires PreferredEffect(server, isAsk, ips, low, high, s, preferred, want, now, passes, ev, result, s')
    ensures var inside := preferred.Some? && low <= preferred.value <= high ==> preferred.value in ips;
            Kept(server, ours, ips, inside, s, s')
    ensures Partition(s, ips) ==> Partition(s', ips)
  {
    if preferred.Some? {
      if !(low <= preferred.value <= high) {
        FreeKeeps(server, isAsk, ours, ips, s, want, now, passes, ev.first, ev.asks, result, s');
      } else {
        var mid := Settled(s, want, now, ev.ask);
        AskKeeps(server, ours, ips, s, want, now, ev.ask);
        if ev.ask.answer.Refused? {
          FreeKeeps(server, isAsk, ours, ips, mid, want, now, passes, ev.first, ev.asks, result, s');
          KeptTwice(server, ours, ips, preferred.value in ips, true, s, mid, s');
        }
      }
    }
  }

  /** All that releasing everything does: `at` is what the delete found. */
  ghost predicate ReleaseAllEffect(
    server: Server<Key, Value>, ips: set<Ip>, s: Snapshot, now: int, at: Store, ok: bool, s': Snapshot)
  {
    && server.rely(s.kv, at)
    && if ok then server.rely(map[], s'.kv) && s' == Reloaded(s', ips, now)
       else !server.reliable && s' == s.(kv := s'.kv) && (s'.kv == at || server.rely(map[], s'.kv))
  }

  lemma ReleaseAllKeeps(
    server: Server<Key, Value>, ours: Ours, ips: set<Ip>, s: Snapshot, now: int, at: Store, ok: bool, s': Snapshot)
    requires ReleaseAllEffect(server, ips, s, now, at, ok, s')
    ensures Kept(server, ours, ips, true, s, s')
    ensures Partition(s, ips) ==> Partition(s', ips)
  {
    EmptyStoreIsShaped();
    if ok {
      ReloadKeeps(server, ours, ips, s, s', now);
    }
  }

  /** What the preferred address does to a pool that is alone and in step with etcd: it is given
      whenever it lies in the subnet and is free, reserved or ours. */
  ghost predicate TakesPreferred(
    s: Snapshot, low: int, high: int, preferred: Option<Ip>, want: Want, now: int, result: PoolResult, s': Snapshot)
    requires WellFormedWant(want)
  {
    match preferred
    case None => result.PoolError? && s' == s
    case Some(ip) =>
      if low <= ip <= high && MayTake(RequestFor(want, ip), HolderOf(s.kv, ip))
      then result == Allocated(ip) && s' == AfterGrant(s, RequestFor(want, ip), now)
      else TakesFree(s, want, now, result, s')
  }

  lemma PreferredGranted(s: Snapshot, low: int, high: int, ip: Ip, want: Want, now: int)
    requires WellFormedWant(want) && InSync(s) && low <= ip <= high && CanSucceed(s.kv, RequestFor(want, ip))
    ensures var s' := AfterGrant(s, RequestFor(want, ip), now);
            TakesPreferred(s, low, high, Some(ip), want, now, Allocated(ip), s') && InSync(s')
  {
    CallMeaning(s.kv, RequestFor(want, ip));
    GrantKeepsSync(s, RequestFor(want, ip), now);
  }

  lemma PreferredRefused(
    s: Snapshot, low: int, high: int, ip: Ip, want: Want, now: int, result: PoolResult, s': Snapshot)
    requires WellFormedWant(want) && Shaped(s.kv) && !(low <= ip <= high && CanSucceed(s.kv, RequestFor(want, ip)))
    requires TakesFree(s, want, now, result, s')
    ensures TakesPreferred(s, low, high, Some(ip), want, now, result, s')
  {
    CallMeaning(s.kv, RequestFor(want, ip));
  }

  /** Undisturbed and in step with etcd. */
  lemma InSyncTakesPreferred(
    server: Server<Key, Value>, isAsk: Ask -> bool, ips: set<Ip>, low: int, high: int, s: Snapshot,
    preferred: Option<Ip>,
    want: Want, now: int, passes: nat, ev: Evidence, result: PoolResult, s': Snapshot)
    requires WellFormedWant(want) && Genuine(server, want, now, isAsk) && server.Quiet() && passes > 0
    requires PreferredEffect(server, isAsk, ips, low, high, s, preferred, want, now, passes, ev, result, s')
    requires InSync(s) && Partition(s, ips)
    ensures TakesPreferred(s, low, high, preferred, want, now, result, s') && InSync(s')
  {
    if preferred.Some? {
      var ip := preferred.value;
      if low <= ip <= high {
        QuietAsk(server, want, now, ev.ask);
      }
      if low <= ip <= high && ev.ask.answer.Success? {
        PreferredGranted(s, low, high, ip, want, now);
      } else {
        InSyncSearch(server, isAsk, ips, s, want, now, passes, ev.first, ev.asks, result, s');
        PreferredRefused(s, low, high, ip, want, now, result, s');
      }
    }
  }

  lemma InSyncSearch(
    server: Server<Key, Value>, isAsk: Ask -> bool, ips: set<Ip>, s: Snapshot, want: Want, now: int, passes: nat,
    first: Store, asks: seq<Ask>, result: PoolResult, s': Snapshot)
    requires WellFormedWant(want) && Genuine(server, want, now, isAsk) && server.Quiet() && passes > 0
    requires FreeEffect(server, isAsk, ips, s, want, now, passes, first, asks, result, s')
    requires InSync(s) && Partition(s, ips)
    ensures TakesFree(s, want, now, result, s') && InSync(s')
  {
    UndisturbedSearch(server, isAsk, ips, s, want, now, passes, first, asks, result, s');
    InSyncTakesFree(s, ips, want, now, passes, IpsOf(asks), result, s');
  }

  // ---------- the pool ----------

  /** `ips` are the addresses that the subnet hands out, in increasing order. */
  ghost predicate HostsOf(ips: seq<nat>, base: seq<Ipv4.Byte>, n: nat)
    requires |base| == 4 && n <= 32
  {
    Ipv4.Increasing(ips) && forall v: nat :: v in ips <==> Ipv4.IsHost(Ipv4.PlanOf(base, n, true, true), v)
  }

  /** `low` and `high` are the ends of the subnet. */
  ghost predicate EndsOf(low: int, high: int, base: seq<Ipv4.Byte>, n: nat)
    requires |base| == 4 && n <= 32
  {
    forall b: seq<Ipv4.Byte> | |b| == 4 :: Ipv4.Contains(base, n, b) <==> low <= Ipv4.Value(b) <= high
  }

  class EtcdPool {
    const server: Server<Key, Value>
    /** the lowest and the highest address of the pool's subnet */
    const low: int
    const high: int
    const allIPs: seq<Ip>
    var allocatedIPs: map<Ip, Allocation>
    var unusedIPs: map<Ip, int>
    ghost const ours: Ours

    ghost function IPs(): set<Ip> { Elements(allIPs) }

    ghost function Now(): Snapshot
      reads this, server
    {
      Snapshot(allocatedIPs, unusedIPs, server.kv)
    }

    ghost predicate Valid()
      reads this, server
    {
      server.Valid() && Partition(Now(), IPs())
    }

    /** The addresses are those that the subnet hands out. */
    ghost predicate ForSubnet(base: seq<Ipv4.Byte>, n: nat)
      requires |base| == 4 && n <= 32
    {
      HostsOf(allIPs, base, n) && EndsOf(low, high, base, n)
    }

    constructor (server: Server<Key, Value>, base: seq<Ipv4.Byte>, n: nat, ghost ours: Ours)
      requires |base| == 4 && 1 <= n <= 32
      ensures this.server == server && this.ours == ours && ForSubnet(base, n)
      ensures allocatedIPs == map[] && unusedIPs == map[]
    {
      var low, high, ips := SubnetIPs(base, n);
      this.server, this.ours, this.low, this.high, this.allIPs := server, ours, low, high, ips;
      this.allocatedIPs, this.unusedIPs := map[], map[];
    }

    /** Reload the cache.  On a failed read nothing changes. */
    method SyncIPs(now: int) returns (ok: bool)
      requires server.Valid()
      modifies this, server
      ensures server.rely(old(server.kv), server.kv)
      ensures ok ==> Now() == Reloaded(Now(), IPs(), now) && Valid()
      ensures !ok ==> !server.reliable && Now() == old(Now()).(kv := server.kv)
    {
      var contents := server.Read();
      if contents.None? {
        return false;
      }
      var found := Decode(contents.value);
      var unused: map<Ip, int> := map[];
      for i := 0 to |allIPs|
        invariant unused.Keys == Elements(allIPs[..i]) - found.Keys
        invariant forall ip | ip in unused :: unused[ip] == now
      {
        assert allIPs[..i + 1] == allIPs[..i] + [allIPs[i]];
        if allIPs[i] !in found {
          unused := unused[allIPs[i] := now];
        }
      }
      assert allIPs[..|allIPs|] == allIPs;
      allocatedIPs, unusedIPs := found, unused;
      DecodedIsStored(server.kv);
      return true;
    }

    /** The addresses to choose from.  An address that was released less than five minutes ago is
        offered only when there is no other; only without any the cache is reloaded. */
    method GetAvailableUnusedIPs(now: int) returns (available: seq<Ip>)
      requires Valid()
      modifies this, server
      ensures Valid()
      ensures forall ip :: ip in available <==> ip in Offered(unusedIPs, now)
      ensures forall ip :: ip in available <==>
        ip in unusedIPs && (unusedIPs[ip] + 300_000_000_000 < now || NoneRested(unusedIPs, now))
      ensures available == [] <==> unusedIPs == map[]
      ensures old(unusedIPs) != map[] ==> Now() == old(Now())
      ensures old(unusedIPs) == map[] ==>
        && server.rely(old(server.kv), server.kv)
        && (|| Now() == Reloaded(Now(), IPs(), now)
            || (!server.reliable && Now() == old(Now()).(kv := server.kv)))
    {
      available := RestedAddresses(unusedIPs, now);
      OfferedMeaning(unusedIPs, now, available);
      if available == [] {
        available := AsSequence(unusedIPs.Keys);
      }
      if available == [] {
        assert unusedIPs.Keys == {};
        var ok := SyncIPs(now);
        available := AsSequence(unusedIPs.Keys);
        OfferedMeaning(unusedIPs, now, []);
      }
      OfferedIff(unusedIPs, now);
    }

    /** One call, and its bookkeeping. */
    method TryAddress(want: Want, ip: Ip, now: int) returns (answer: CallResult, ghost ask: Ask)
      requires Valid() && WellFormedWant(want)
      modifies this, server
      ensures Valid() && IsAsk(server, want, now, ask)
      ensures ask.ip == ip && ask.before == old(server.kv) && ask.answer == answer && ask.after == server.kv
      ensures Now() == Settled(old(Now()), want, now, ask)
    {
      ghost var seen;
      answer, seen := AllocateByCondition(server, RequestFor(want, ip), now);
      ask := Ask(ip, old(server.kv), seen, answer, server.kv);
      if answer.Success? {
        unusedIPs := unusedIPs - {ip};
        allocatedIPs := allocatedIPs[ip := answer.allocation];
      }
      AskKeeps(server, ours, IPs(), old(Now()), want, now, ask);
    }

    /** One pass: choose one of the offered addresses and ask for it; `GaveUp` if it is refused. */
    method PickAndTry(want: Want, now: int) returns (result: PoolResult, ghost first: Store, ghost asks: seq<Ask>)
      requires Valid() && WellFormedWant(want)
      modifies this, server
      ensures Valid()
      ensures FreeEffect(server, AskOf(server, want, now), IPs(), old(Now()), want, now, 1, first, asks, result, Now())
    {
      asks := [];
      var available := GetAvailableUnusedIPs(now);
      first := server.kv;
      ghost var base := Now();
      if available == [] {
        return PoolError, first, asks;
      }
      var choice :| 0 <= choice < |available|;
      var ip := available[choice];
      assert ip in available;
      var answer, ask := TryAddress(want, ip, now);
      asks := [ask];
      result := if answer.Success? then Allocated(ip) else if answer.Refused? then GaveUp else PoolError;
      assert AskOf(server, want, now)(ask);
      assert base.unusedIPs != map[] && base == Base(old(Now()), IPs(), now, first);
      assert InTurn(AskOf(server, want, now), first, asks);
      assert Verdict(base, want, now, 1, asks, result, Now());
    }

    /** Ask for an address until one is granted; `first` and `asks` tell how it went. */
    method AllocateFreeIP(want: Want, now: int, passes: nat)
      returns (result: PoolResult, ghost first: Store, ghost asks: seq<Ask>)
      requires Valid() && WellFormedWant(want)
      modifies this, server
      ensures Valid()
      ensures FreeEffect(server, AskOf(server, want, now), IPs(), old(Now()), want, now, passes, first, asks, result,
          Now())
    {
      var pass := 0;
      first, asks := server.kv, [];
      ghost var start := Now();
      while pass < passes
        invariant 0 <= pass <= passes && Valid()
        invariant FreeEffect(server, AskOf(server, want, now), IPs(), start, want, now, pass, first, asks, GaveUp,
            Now())
      {
        ghost var before, first', asks' := Now(), first, asks;
        result, first', asks' := PickAndTry(want, now);
        OneMorePass(server, AskOf(server, want, now), IPs(), start, want, now, passes, pass, first, asks, before,
          first',
                    asks', result, Now());
        first, asks := if pass == 0 then first' else first, asks + asks';
        if !result.GaveUp? {
          return;
        }
        pass := pass + 1;
      }
      result := GaveUp;
    }

    method ReserveIP(now: int, passes: nat) returns (result: PoolResult, ghost ev: Evidence)
      requires Valid()
      modifies this, server
      ensures Valid()
      ensures FreeEffect(server, AskOf(server, WantReservation, now), IPs(), old(Now()), WantReservation, now, passes,
                         ev.first, ev.asks, result, Now())
    {
      ghost var first, asks;
      result, first, asks := AllocateFreeIP(WantReservation, now, passes);
      ev := Evidence(NO_ASK, first, asks, first);
    }

    /** The address of a container or of a service.  The address the caller prefers is tried
        first if it lies in the subnet, whether or not it is in the cache. */
    method AllocateIP(preferred: Option<Ip>, want: Want, now: int, passes: nat)
      returns (result: PoolResult, ghost ev: Evidence)
      requires Valid() && WellFormedWant(want) && !want.WantReservation?
      modifies this, server
      ensures Valid()
      ensures PreferredEffect(server, AskOf(server, want, now), IPs(), low, high, old(Now()), preferred, want, now,
          passes, ev,
                              result, Now())
    {
      ghost var ask, first, asks := NO_ASK, server.kv, [];
      if preferred.None? {
        return PoolError, Evidence(ask, first, asks, first);
      }
      if low <= preferred.value <= high {
        var answer;
        answer, ask := TryAddress(want, preferred.value, now);
        if answer.CallFailed? {
          return PoolError, Evidence(ask, first, asks, first);
        }
        if answer.Success? {
          return Allocated(preferred.value), Evidence(ask, first, asks, first);
        }
      }
      result, first, asks := AllocateFreeIP(want, now, passes);
      ev := Evidence(ask, first, asks, first);
    }

    /** Release a cached address; `at` is what the release found. */
    method ReleaseIPIfReserved(ip: Ip, now: int) returns (outcome: ReleaseOutcome, ghost at: Store)
      requires Valid()
      modifies this, server
      ensures Valid()
      ensures ReleaseEffect(server, old(Now()), ip, now, at, outcome, Now())
    {
      outcome, at := ReleaseCached(ip, now);
      ReleaseKeeps(server, ours, IPs(), old(Now()), ip, now, at, outcome, Now());
    }

    method ReleaseCached(ip: Ip, now: int) returns (outcome: ReleaseOutcome, ghost at: Store)
      requires Valid()
      modifies this, server
      ensures ReleaseEffect(server, old(Now()), ip, now, at, outcome, Now())
    {
      at := server.kv;
      if ip !in allocatedIPs {
        return NotReserved, at;
      }
      var allocation := allocatedIPs[ip];
      var answer;
      answer, at := ReleaseAllocation(server, allocation);
      match answer {
        case ReleaseFailed => return ReleaseError, at;
        case Crashed => return Panic, at;
        case Mismatch(found) =>
          allocatedIPs := allocatedIPs[ip := found];
          return HeldDifferently(found), at;
        case Released =>
          allocatedIPs := allocatedIPs - {ip};
          unusedIPs := unusedIPs[ip := now];
          return DidRelease, at;
      }
    }

    /** Delete every record under the pool's prefix, then reload; `at` is what the delete found. */
    method ReleaseAllIPs(now: int) returns (ok: bool, ghost at: Store)
      requires Valid()
      modifies this, server
      ensures Valid()
      ensures ReleaseAllEffect(server, IPs(), old(Now()), now, at, ok, Now())
    {
      var reply;
      reply, at := server.DeletePrefix();
      if reply.Failed? {
        return false, at;
      }
      ok := SyncIPs(now);
    }
  }

  lemma OfferedMeaning(unused: map<Ip, int>, now: int, rested: seq<Ip>)
    requires forall ip: Ip :: ip in rested <==> ip in unused && Rested(unused[ip], now)
    ensures rested == [] ==> Offered(unused, now) == unused.Keys
    ensures rested != [] ==> unused != map[] && forall ip: Ip :: ip in rested <==> ip in Offered(unused, now)
  {
    if rested != [] {
      assert rested[0] in rested && rested[0] in RestedSet(unused, now);
    }
  }

  method SubnetIPs(base: seq<Ipv4.Byte>, n: nat) returns (low: int, high: int, ips: seq<Ip>)
    requires |base| == 4 && 1 <= n <= 32
    ensures HostsOf(ips, base, n) && EndsOf(low, high, base, n)
  {
    var lowest := Ipv4.Masked(base, n);
    var broadcast := Ipv4.GetBroadcastIP(base, n);
    low, high := Ipv4.Value(lowest), Ipv4.Value(broadcast);
    SubnetEnds(base, n, low, high);
    var hosts := Ipv4.IpsInSubnet(base, n, true, true);
    SubnetAddresses(hosts, base, n);
    ips := Ipv4.Values(hosts);
  }

  lemma SubnetEnds(base: seq<Ipv4.Byte>, n: nat, low: int, high: int)
    requires |base| == 4 && n <= 32 && low == Ipv4.Low(base, n) && high == low + Ipv4.Size(base, n) - 1
    ensures EndsOf(low, high, base, n)
  {
    forall b: seq<Ipv4.Byte> | |b| == 4 ensures Ipv4.Contains(base, n, b) <==> low <= Ipv4.Value(b) <= high {
      Ipv4.ContainsInterval(base, n, b);
    }
  }

  lemma SubnetAddresses(ips: seq<seq<Ipv4.Byte>>, base: seq<Ipv4.Byte>, n: nat)
    requires |base| == 4 && 1 <= n <= 32
    requires var p := Ipv4.PlanOf(base, n, true, true); Ipv4.HostsUpTo(ips, |base|, p, Ipv4.Highest(p))
    ensures HostsOf(Ipv4.Values(ips), base, n)
    ensures forall i | 0 <= i < |ips| :: Ipv4.Values(ips)[i] < 0x1_0000_0000
  {
    forall i | 0 <= i < |ips| ensures Ipv4.Values(ips)[i] < 0x1_0000_0000 {
      Ipv4.FourBytes(ips[i]);
    }
  }

  /** A new pool holds what etcd holds; if that cannot be read there is no pool. */
  method NewEtcdBasedAddressPool(server: Server<Key, Value>, base: seq<Ipv4.Byte>, n: nat, now: int, ghost ours: Ours)
    returns (pool: EtcdPool?)
    requires server.Valid() && |base| == 4 && 1 <= n <= 32
    modifies server
    ensures pool == null ==> !server.reliable
    ensures pool != null ==>
      && fresh(pool) && pool.server == server && pool.ours == ours && pool.ForSubnet(base, n)
      && pool.Valid() && pool.Now() == Reloaded(pool.Now(), pool.IPs(), now)
      && (Shaped(server.kv) ==> InSync(pool.Now()) && Owned(ours, pool.Now()))
      && (Within(server.kv, pool.IPs()) ==> Closed(pool.Now(), pool.IPs()))
  {
    pool := new EtcdPool(server, base, n, ours);
    var ok := pool.SyncIPs(now);
    if !ok {
      return null;
    }
    DecodedIsStored(server.kv);
    if Shaped(server.kv) {
      DecodedIsOwned(ours, pool.unusedIPs, server.kv);
    }
  }

  /** Every address of the pool is counted once, as allocated or as unused; for a proper subnet there
      are as many as it has, without its first two and its last. */
  lemma PoolCounts(pool: EtcdPool, base: seq<Ipv4.Byte>, n: nat)
    requires pool.Valid() && Closed(pool.Now(), pool.IPs())
    requires |base| == 4 && 1 <= n <= 32 && pool.ForSubnet(base, n)
    ensures |pool.allocatedIPs| + |pool.unusedIPs| == |pool.allIPs|
    ensures Ipv4.Aligned(base, n) ==> |pool.allIPs| == if Ipv4.Size(base, n) <= 3 then 0 else Ipv4.Size(base, n) - 3
  {
    assert Distinct(pool.allIPs);
    CountParts(pool.Now(), pool.allIPs, pool.IPs());
    if Ipv4.Aligned(base, n) {
      HostCount(pool.allIPs, base, n);
    }
  }

  lemma HostCount(ips: seq<nat>, base: seq<Ipv4.Byte>, n: nat)
    requires |base| == 4 && 1 <= n <= 32 && Ipv4.Aligned(base, n) && HostsOf(ips, base, n)
    ensures |ips| == if Ipv4.Size(base, n) <= 3 then 0 else Ipv4.Size(base, n) - 3
  {
    forall v: nat ensures v in ips <==> Ipv4.Value(base) + 2 <= v < Ipv4.Value(base) + Ipv4.Size(base, n) - 1 {
      Ipv4.ProperHosts(base, n, v);
    }
    Ipv4.IntervalListing(ips, Ipv4.Value(base) + 2, Ipv4.Value(base) + Ipv4.Size(base, n) - 1);
  }

  lemma CountParts(s: Snapshot, allIPs: seq<Ip>, ips: set<Ip>)
    requires Distinct(allIPs) && ips == Elements(allIPs) && Partition(s, ips) && Closed(s, ips)
    ensures |s.allocatedIPs| + |s.unusedIPs| == |allIPs|
  {
    assert s.allocatedIPs.Keys + s.unusedIPs.Keys == ips;
    assert |s.allocatedIPs.Keys + s.unusedIPs.Keys| == |s.allocatedIPs.Keys| + |s.unusedIPs.Keys|;
    DistinctCount(allIPs);
  }

  // ---------- runs ----------

  datatype Operation =
    | DoReserve(now: int)
    | DoAllocate(preferred: Option<Ip>, want: Want, now: int)
    | DoRelease(ip: Ip, now: int)
    | DoReleaseAll(now: int)

  datatype Done = AllocationDone(result: PoolResult) | ReleaseDone(outcome: ReleaseOutcome) | ReleaseAllDone(ok: bool)

  predicate WellFormedOperation(op: Operation) {
    op.DoAllocate? ==> WellFormedWant(op.want) && !op.want.WantReservation?
  }

  predicate AnsweredBy(op: Operation, done: Done) {
    match op
    case DoReserve(_) => done.AllocationDone?
    case DoAllocate(_, _, _) => done.AllocationDone?
    case DoRelease(_, _) => done.ReleaseDone?
    case DoReleaseAll(_) => done.ReleaseAllDone?
  }

  /** What does not change over a run: `passes` bounds the retries. */
  datatype Env = Env(server: Server<Key, Value>, ours: Ours, ips: set<Ip>, low: int, high: int, passes: nat)

  /** All that an operation does, whatever the others do; `ev` is the evidence it leaves. */
  ghost predicate Step(env: Env, op: Operation, s: Snapshot, ev: Evidence, done: Done, s': Snapshot)
    requires WellFormedOperation(op) && CanBeNamed(s)
  {
    AnsweredBy(op, done) &&
    match op
    case DoReserve(now) =>
      FreeEffect(env.server, AskOf(env.server, WantReservation, now), env.ips, s, WantReservation, now, env.passes,
        ev.first,
                 ev.asks, done.result, s')
    case DoAllocate(preferred, want, now) =>
      PreferredEffect(env.server, AskOf(env.server, want, now), env.ips, env.low, env.high, s, preferred, want, now,
                      env.passes, ev, done.result, s')
    case DoRelease(ip, now) => ReleaseEffect(env.server, s, ip, now, ev.at, done.outcome, s')
    case DoReleaseAll(now) => ReleaseAllEffect(env.server, env.ips, s, now, ev.at, done.ok, s')
  }

  /** No address outside the pool is asked for. */
  predicate Inside(env: Env, op: Operation) {
    op.DoAllocate? && op.preferred.Some? && env.low <= op.preferred.value <= env.high ==> op.preferred.value in env.ips
  }

  /** What every step keeps. */
  lemma StepKeeps(env: Env, op: Operation, s: Snapshot, ev: Evidence, done: Done, s': Snapshot)
    requires WellFormedOperation(op) && Partition(s, env.ips) && Step(env, op, s, ev, done, s')
    ensures Partition(s', env.ips) && Kept(env.server, env.ours, env.ips, Inside(env, op), s, s')
  {
    match op {
      case DoReserve(now) =>
        FreeKeeps(env.server, AskOf(env.server, WantReservation, now), env.ours, env.ips, s, WantReservation, now,
          env.passes,
                  ev.first, ev.asks, done.result, s');
      case DoAllocate(preferred, want, now) =>
        PreferredKeeps(env.server, AskOf(env.server, want, now), env.ours, env.ips, env.low, env.high, s, preferred,
          want, now,
                       env.passes, ev, done.result, s');
      case DoRelease(ip, now) => ReleaseKeeps(env.server, env.ours, env.ips, s, ip, now, ev.at, done.outcome, s');
      case DoReleaseAll(now) => ReleaseAllKeeps(env.server, env.ours, env.ips, s, now, ev.at, done.ok, s');
    }
  }

  /** One operation of a pool that is alone and in step with etcd. */
  ghost predicate QuietStep(ips: set<Ip>, low: int, high: int, op: Operation, s: Snapshot, done: Done, s': Snapshot)
    requires WellFormedOperation(op) && CanBeNamed(s)
  {
    AnsweredBy(op, done) &&
    match op
    case DoReserve(now) => TakesFree(s, WantReservation, now, done.result, s')
    case DoAllocate(preferred, want, now) => TakesPreferred(s, low, high, preferred, want, now, done.result, s')
    case DoRelease(ip, now) => GivesBack(s, ip, now, done.outcome, s')
    case DoReleaseAll(now) => done.ok && s' == Reloaded(s.(kv := map[]), ips, now)
  }

  /** No retry ran out, no release failed, met another record or panicked. */
  predicate Smooth(done: Done) {
    match done
    case AllocationDone(result) => !result.GaveUp?
    case ReleaseDone(outcome) => outcome.NotReserved? || outcome.DidRelease?
    case ReleaseAllDone(ok) => ok
  }

  lemma QuietStepIsSmooth(ips: set<Ip>, low: int, high: int, op: Operation, s: Snapshot, done: Done, s': Snapshot)
    requires WellFormedOperation(op) && CanBeNamed(s) && QuietStep(ips, low, high, op, s, done, s')
    ensures Smooth(done)
  {
  }

  lemma StepInSync(env: Env, op: Operation, s: Snapshot, ev: Evidence, done: Done, s': Snapshot)
    requires WellFormedOperation(op) && Partition(s, env.ips) && Step(env, op, s, ev, done, s')
    requires env.server.Quiet() && InSync(s) && env.passes > 0
    ensures InSync(s') && QuietStep(env.ips, env.low, env.high, op, s, done, s')
  {
    match op {
      case DoReserve(now) =>
        InSyncSearch(env.server, AskOf(env.server, WantReservation, now), env.ips, s, WantReservation, now, env.passes,
                     ev.first, ev.asks, done.result, s');
      case DoAllocate(preferred, want, now) =>
        InSyncTakesPreferred(env.server, AskOf(env.server, want, now), env.ips, env.low, env.high, s, preferred, want,
          now,
                             env.passes, ev, done.result, s');
      case DoRelease(ip, now) => InSyncGivesBack(env.server, env.ips, s, ip, now, ev.at, done.outcome, s');
      case DoReleaseAll(now) =>
        EmptyStoreIsShaped();
        DecodedIsStored(map[]);
    }
  }

  /** A release of a cached address of our containers and services goes through. */
  predicate OursIsReleased(ours: Ours, op: Operation, s: Snapshot, done: Done) {
    op.DoRelease? && op.ip in s.allocatedIPs && Mine(ours, HolderFor(s.allocatedIPs[op.ip])) ==>
      done == ReleaseDone(DidRelease)
  }

  method Perform(pool: EtcdPool, op: Operation, passes: nat) returns (done: Done, ghost ev: Evidence)
    requires pool.Valid() && WellFormedOperation(op)
    modifies pool, pool.server
    ensures pool.Valid() && Step(EnvOf(pool, passes), op, old(pool.Now()), ev, done, pool.Now())
  {
    ev := Evidence(NO_ASK, map[], [], map[]);
    match op {
      case DoReserve(now) =>
        var r;
        r, ev := pool.ReserveIP(now, passes);
        done := AllocationDone(r);
      case DoAllocate(preferred, want, now) =>
        var r;
        r, ev := pool.AllocateIP(preferred, want, now, passes);
        done := AllocationDone(r);
      case DoRelease(ip, now) =>
        var r;
        ghost var at;
        r, at := pool.ReleaseIPIfReserved(ip, now);
        ev := ev.(at := at);
        done := ReleaseDone(r);
      case DoReleaseAll(now) =>
        var ok;
        ghost var at;
        ok, at := pool.ReleaseAllIPs(now);
        ev := ev.(at := at);
        done := ReleaseAllDone(ok);
    }
  }

  ghost function EnvOf(pool: EtcdPool, passes: nat): Env {
    Env(pool.server, pool.ours, pool.IPs(), pool.low, pool.high, passes)
  }

  /** A run: its operations, their answers and evidence, and the states of the pool from before the
      first operation to after the last one. */
  datatype Run = Run(ops: seq<Operation>, results: seq<Done>, evidence: seq<Evidence>, trace: seq<Snapshot>)

  ghost predicate StepOf(env: Env, run: Run, i: nat)
    requires i < |run.ops| && |run.results| == |run.evidence| == |run.ops| && |run.trace| == |run.ops| + 1
  {
    WellFormedOperation(run.ops[i]) &&
    (Partition(run.trace[i], env.ips) ==>
       Step(env, run.ops[i], run.trace[i], run.evidence[i], run.results[i], run.trace[i + 1]))
  }

  ghost predicate IsRun(env: Env, run: Run) {
    && |run.results| == |run.evidence| == |run.ops| && |run.trace| == |run.ops| + 1
    && Partition(run.trace[0], env.ips)
    && forall i | 0 <= i < |run.ops| :: StepOf(env, run, i)
  }

  method RunOperations(pool: EtcdPool, ops: seq<Operation>, passes: nat) returns (results: seq<Done>, ghost run: Run)
    requires pool.Valid()
    requires forall i | 0 <= i < |ops| :: WellFormedOperation(ops[i])
    modifies pool, pool.server
    ensures pool.Valid() && IsRun(EnvOf(pool, passes), run) && run.ops == ops && run.results == results
    ensures run.trace[0] == old(pool.Now()) && run.trace[|ops|] == pool.Now()
  {
    results, run := [], Run([], [], [], [pool.Now()]);
    for k := 0 to |ops|
      invariant pool.Valid() && IsRun(EnvOf(pool, passes), run) && run.ops == ops[..k] && run.results == results
      invariant run.trace[0] == old(pool.Now()) && run.trace[k] == pool.Now()
    {
      var done, ev := Perform(pool, ops[k], passes);
      RunGrows(EnvOf(pool, passes), run, ops[k], ev, done, pool.Now());
      run := Longer(run, ops[k], ev, done, pool.Now());
      results := results + [done];
    }
  }

  function Longer(run: Run, op: Operation, ev: Evidence, done: Done, s: Snapshot): Run {
    Run(run.ops + [op], run.results + [done], run.evidence + [ev], run.trace + [s])
  }

  lemma RunGrows(env: Env, run: Run, op: Operation, ev: Evidence, done: Done, s: Snapshot)
    requires IsRun(env, run) && WellFormedOperation(op) && CanBeNamed(run.trace[|run.ops|])
    requires Step(env, op, run.trace[|run.ops|], ev, done, s)
    ensures IsRun(env, Longer(run, op, ev, done, s))
  {
    var longer := Longer(run, op, ev, done, s);
    forall i | 0 <= i < |longer.ops| ensures StepOf(env, longer, i) {
      if i < |run.ops| {
        assert StepOf(env, run, i);
      }
    }
  }

  /** Whatever the others do, every state of every run is partitioned. */
  lemma {:induction false} PartitionInEveryRun(env: Env, run: Run, i: nat)
    requires IsRun(env, run) && i < |run.trace|
    ensures Partition(run.trace[i], env.ips)
  {
    if i > 0 {
      PartitionInEveryRun(env, run, i - 1);
      assert StepOf(env, run, i - 1);
      StepKeeps(env, run.ops[i - 1], run.trace[i - 1], run.evidence[i - 1], run.results[i - 1], run.trace[i - 1 + 1]);
    }
  }

  /** Every step of a run, with what it keeps. */
  lemma RunStep(env: Env, run: Run, i: nat)
    requires IsRun(env, run) && i < |run.ops|
    ensures Partition(run.trace[i], env.ips) && WellFormedOperation(run.ops[i])
    ensures Step(env, run.ops[i], run.trace[i], run.evidence[i], run.results[i], run.trace[i + 1])
    ensures Kept(env.server, env.ours, env.ips, Inside(env, run.ops[i]), run.trace[i], run.trace[i + 1])
  {
    PartitionInEveryRun(env, run, i);
    assert StepOf(env, run, i);
    StepKeeps(env, run.ops[i], run.trace[i], run.evidence[i], run.results[i], run.trace[i + 1]);
  }

  lemma StepKeepsClosed(env: Env, run: Run, i: nat)
    requires IsRun(env, run) && i < |run.ops| && OthersStayWithin(env.server, env.ips) && Inside(env, run.ops[i])
    requires Closed(run.trace[i], env.ips)
    ensures Closed(run.trace[i + 1], env.ips)
  {
    RunStep(env, run, i);
  }

  /** If only the pool's addresses are ever stored or preferred, every state of every run covers
      exactly the pool. */
  lemma {:induction false} ClosedInEveryRun(env: Env, run: Run, i: nat)
    requires IsRun(env, run) && i < |run.trace| && OthersStayWithin(env.server, env.ips)
        && Closed(run.trace[0], env.ips)
    requires forall k | 0 <= k < |run.ops| :: Inside(env, run.ops[k])
    ensures Closed(run.trace[i], env.ips)
  {
    if i > 0 {
      ClosedInEveryRun(env, run, i - 1);
      StepKeepsClosed(env, run, i - 1);
    }
  }

  /** As the only writer: in every state of every run the cache is what etcd holds, every step is
      determined but for the choice among the offered addresses, no allocation is retried in vain
      and no release fails, meets another record or panics. */
  lemma {:induction false} InSyncInEveryRun(env: Env, run: Run, i: nat)
    requires IsRun(env, run) && i < |run.trace| && env.server.Quiet() && InSync(run.trace[0]) && env.passes > 0
    ensures InSync(run.trace[i])
    ensures i < |run.ops| ==>
      && Smooth(run.results[i])
      && Partition(run.trace[i], env.ips) && WellFormedOperation(run.ops[i])
      && QuietStep(env.ips, env.low, env.high, run.ops[i], run.trace[i], run.results[i], run.trace[i + 1])
  {
    if i > 0 {
      InSyncInEveryRun(env, run, i - 1);
      StepStaysInSync(env, run, i - 1);
    }
    if i < |run.ops| {
      StepStaysInSync(env, run, i);
    }
  }

  lemma StepStaysInSync(env: Env, run: Run, i: nat)
    requires IsRun(env, run) && i < |run.ops| && env.server.Quiet() && InSync(run.trace[i]) && env.passes > 0
    ensures InSync(run.trace[i + 1]) && Smooth(run.results[i])
    ensures Partition(run.trace[i], env.ips) && WellFormedOperation(run.ops[i])
    ensures QuietStep(env.ips, env.low, env.high, run.ops[i], run.trace[i], run.results[i], run.trace[i + 1])
  {
    RunStep(env, run, i);
    StepInSync(env, run.ops[i], run.trace[i], run.evidence[i], run.results[i], run.trace[i + 1]);
    QuietStepIsSmooth(env.ips, env.low, env.high, run.ops[i], run.trace[i], run.results[i], run.trace[i + 1]);
  }

  /** As long as the others follow the protocol and leave our containers and services alone: in every
      state of every run each of their cached addresses is theirs in etcd, and every release of one
      commits, without mismatch or panic. */
  lemma {:induction false} OwnedInEveryRun(env: Env, run: Run, i: nat)
    requires IsRun(env, run) && i < |run.trace| && Respected(env.ours, env.server) && Owned(env.ours, run.trace[0])
    ensures Owned(env.ours, run.trace[i])
    ensures var s := run.trace[i];
            forall ip | ip in s.allocatedIPs ::
              var a := s.allocatedIPs[ip];
              && (a.allocationType == ContainerIPType && env.ours(Container(a.data)) ==>
                    HolderOf(s.kv, ip) == Container(a.data))
              && (a.allocationType == ServiceVIPType && env.ours(Service(a.data)) ==>
                    HolderOf(s.kv, ip) == Service(a.data))
    ensures i < |run.ops| ==> OursIsReleased(env.ours, run.ops[i], run.trace[i], run.results[i])
  {
    if i > 0 {
      OwnedInEveryRun(env, run, i - 1);
      StepStaysOwned(env, run, i - 1);
    }
    if i < |run.ops| {
      StepStaysOwned(env, run, i);
    }
  }

  lemma StepStaysOwned(env: Env, run: Run, i: nat)
    requires IsRun(env, run) && i < |run.ops| && Respected(env.ours, env.server) && Owned(env.ours, run.trace[i])
    ensures Owned(env.ours, run.trace[i + 1]) && OursIsReleased(env.ours, run.ops[i], run.trace[i], run.results[i])
  {
    RunStep(env, run, i);
    if run.ops[i].DoRelease? {
      ReleaseKeepsOwned(env.server, env.ours, env.ips, run.trace[i], run.ops[i].ip, run.ops[i].now, run.evidence[i].at,
                        run.results[i].outcome, run.trace[i + 1]);
    }
  }

  // ---------- what a pool leaves to others ----------

  /** The contents stay well-shaped, and no container or service of `theirs` loses its address. */
  ghost predicate Spares(theirs: Ours, st: Store, st': Store) { Shaped(st') && KeepsMine(theirs, st, st') }

  lemma SparesTwice(theirs: Ours, a: Store, b: Store, c: Store)
    requires Spares(theirs, a, b) && Spares(theirs, b, c)
    ensures Spares(theirs, a, c)
  {
  }

  lemma AskSpares(server: Server<Key, Value>, theirs: Ours, s: Snapshot, want: Want, now: int, a: Ask)
    requires WellFormedWant(want) && IsAsk(server, want, now, a) && a.before == s.kv
    requires LeftAlone(theirs, server) && Shaped(s.kv)
    ensures Spares(theirs, s.kv, a.after)
  {
    TryKeepsMine(server, theirs, s, RequestFor(want, a.ip), now, a.seen, a.answer, Settled(s, want, now, a));
  }

  lemma {:induction false} AsksSpare(
    server: Server<Key, Value>, isAsk: Ask -> bool, theirs: Ours, base: Snapshot, want: Want, now: int, asks: seq<Ask>,
    n: nat)
    requires WellFormedWant(want) && Genuine(server, want, now, isAsk) && InTurn(isAsk, base.kv, asks) && n < |asks|
    requires LeftAlone(theirs, server) && Shaped(base.kv)
    ensures Shaped(asks[n].before) && Spares(theirs, base.kv, asks[n].after)
  {
    assert isAsk(asks[n]) && asks[n].before == StartOf(base.kv, asks, n);
    if n > 0 {
      AsksSpare(server, isAsk, theirs, base, want, now, asks, n - 1);
    }
    AskSpares(server, theirs, base.(kv := asks[n].before), want, now, asks[n]);
    if n > 0 {
      SparesTwice(theirs, base.kv, asks[n].before, asks[n].after);
    }
  }

  lemma SearchSpares(
    server: Server<Key, Value>, isAsk: Ask -> bool, ips: set<Ip>, theirs: Ours, s: Snapshot, want: Want, now: int,
    passes: nat, first: Store, asks: seq<Ask>, result: PoolResult, s': Snapshot)
    requires WellFormedWant(want) && Genuine(server, want, now, isAsk)
    requires FreeEffect(server, isAsk, ips, s, want, now, passes, first, asks, result, s')
    requires LeftAlone(theirs, server) && Shaped(s.kv)
    ensures Spares(theirs, s.kv, s'.kv)
  {
    if passes > 0 {
      assert Spares(theirs, s.kv, first);
      if asks != [] {
        AsksSpare(server, isAsk, theirs, Base(s, ips, now, first), want, now, asks, |asks| - 1);
        SparesTwice(theirs, s.kv, first, s'.kv);
      }
    }
  }

  lemma PreferredSpares(
    server: Server<Key, Value>, isAsk: Ask -> bool, ips: set<Ip>, low: int, high: int, theirs: Ours, s: Snapshot,
    preferred: Option<Ip>, want: Want, now: int, passes: nat, ev: Evidence, result: PoolResult, s': Snapshot)
    requires WellFormedWant(want) && Genuine(server, want, now, isAsk)
    requires PreferredEffect(server, isAsk, ips, low, high, s, preferred, want, now, passes, ev, result, s')
    requires LeftAlone(theirs, server) && Shaped(s.kv)
    ensures Spares(theirs, s.kv, s'.kv)
  {
    if preferred.Some? {
      if !(low <= preferred.value <= high) {
        SearchSpares(server, isAsk, ips, theirs, s, want, now, passes, ev.first, ev.asks, result, s');
      } else {
        var mid := Settled(s, want, now, ev.ask);
        AskSpares(server, theirs, s, want, now, ev.ask);
        if ev.ask.answer.Refused? {
          SearchSpares(server, isAsk, ips, theirs, mid, want, now, passes, ev.first, ev.asks, result, s');
          SparesTwice(theirs, s.kv, mid.kv, s'.kv);
        }
      }
    }
  }

  lemma ReleaseSpares(
    server: Server<Key, Value>, theirs: Ours, s: Snapshot, ip: Ip, now: int, at: Store, outcome: ReleaseOutcome,
    s': Snapshot)
    requires CanBeNamed(s) && ReleaseEffect(server, s, ip, now, at, outcome, s')
    requires LeftAlone(theirs, server) && Shaped(s.kv)
    requires ip in s.allocatedIPs ==> !Mine(theirs, HolderFor(s.allocatedIPs[ip]))
    ensures Spares(theirs, s.kv, s'.kv)
  {
    if ip in s.allocatedIPs {
      var a := s.allocatedIPs[ip];
      assert Spares(theirs, s.kv, at);
      ReleaseMeaning(at, a);
      ForeignStepRespects(theirs, at, Release(a));
      SparesTwice(theirs, s.kv, at, Act(at, Release(a)));
    }
  }

  /** An operation takes no address away from the containers and services of `theirs`, unless it
      releases everything or an address that its cache has for one of them.  So pools that keep to
      their own leave each other alone. */
  lemma StepSparesOthers(env: Env, theirs: Ours, op: Operation, s: Snapshot, ev: Evidence, done: Done, s': Snapshot)
    requires WellFormedOperation(op) && CanBeNamed(s) && Step(env, op, s, ev, done, s')
    requires LeftAlone(theirs, env.server) && Shaped(s.kv) && !op.DoReleaseAll?
    requires op.DoRelease? && op.ip in s.allocatedIPs ==> !Mine(theirs, HolderFor(s.allocatedIPs[op.ip]))
    ensures Spares(theirs, s.kv, s'.kv)
  {
    match op {
      case DoReserve(now) =>
        SearchSpares(env.server, AskOf(env.server, WantReservation, now), env.ips, theirs, s, WantReservation, now,
                     env.passes, ev.first, ev.asks, done.result, s');
      case DoAllocate(preferred, want, now) =>
        PreferredSpares(env.server, AskOf(env.server, want, now), env.ips, env.low, env.high, theirs, s, preferred,
          want, now,
                        env.passes, ev, done.result, s');
      case DoRelease(ip, now) => ReleaseSpares(env.server, theirs, s, ip, now, ev.at, done.outcome, s');
    }
  }

  /** The call that was granted: the last one of a search, or the one for the preferred address. */
  function GrantingAsk(ev: Evidence): Ask { if ev.asks == [] then ev.ask else ev.asks[|ev.asks| - 1] }

  function WantOf(op: Operation): Want { if op.DoAllocate? then op.want else WantReservation }

  /** An allocated address was taken, on the contents that the granted guard met, from nobody, from a
      reservation or from the same owner; and it is the caller's now. */
  lemma AllocatedFromNobodyElse(env: Env, op: Operation, s: Snapshot, ev: Evidence, done: Done, s': Snapshot)
    requires WellFormedOperation(op) && CanBeNamed(s) && Step(env, op, s, ev, done, s')
    requires OthersKeepShape(env.server) && Shaped(s.kv) && done.AllocationDone? && done.result.Allocated?
    ensures var a, r := GrantingAsk(ev), RequestFor(WantOf(op), done.result.ip);
            && a.ip == r.ip && IsAsk(env.server, WantOf(op), op.now, a) && a.answer.Success? && a.after == s'.kv
            && Shaped(a.seen[|a.seen| - 1]) && MayTake(r, HolderOf(a.seen[|a.seen| - 1], r.ip))
            && HolderOf(s'.kv, r.ip) == HolderAfter(r)
    ensures HolderOf(s'.kv, done.result.ip) ==
            if op.DoReserve? then Reservation
            else if op.want.WantContainer? then Container(op.want.mac) else Service(op.want.serviceID)
  {
    var want, a := WantOf(op), GrantingAsk(ev);
    StepGrantPath(env, op, s, ev, done, s');
    PathGrants(env.server, AskOf(env.server, want, op.now), want, op.now, s.kv, ev, done.result, s'.kv);
    ShapeOverCall(env.server, a.before, RequestFor(want, a.ip), op.now, a.seen, a.answer, a.after);
    GrantTakesFromNobodyElse(RequestFor(want, a.ip), op.now, a.seen[|a.seen| - 1], |a.seen| - 1, a.after);
  }

  ghost predicate Grants(server: Server<Key, Value>, want: Want, now: int, a: Ask, result: PoolResult, after: Store)
    requires WellFormedWant(want)
  {
    IsAsk(server, want, now, a) && a.answer.Success? && result == Allocated(a.ip) && a.after == after
      && Shaped(a.before)
  }

  predicate Answers(a: Ask, result: PoolResult, after: Store) {
    a.answer.Success? && result == Allocated(a.ip) && a.after == after
  }

  /** A search that starts from `kv` and ends with a grant. */
  ghost predicate SearchPath(
    server: Server<Key, Value>, isAsk: Ask -> bool, kv: Store, first: Store, asks: seq<Ask>, result: PoolResult,
    after: Store)
  {
    && asks != [] && InTurn(isAsk, first, asks) && (first == kv || server.rely(kv, first))
    && isAsk(asks[|asks| - 1]) && Answers(asks[|asks| - 1], result, after)
  }

  /** The way from `kv` to a grant: the call for the preferred address, or a search, maybe after it. */
  ghost predicate GrantPath(
    server: Server<Key, Value>, isAsk: Ask -> bool, kv: Store, ev: Evidence, result: PoolResult, after: Store)
  {
    if ev.asks == [] then isAsk(ev.ask) && ev.ask.before == kv && Answers(ev.ask, result, after)
    else
      || SearchPath(server, isAsk, kv, ev.first, ev.asks, result, after)
      || (&& isAsk(ev.ask) && ev.ask.before == kv
          && SearchPath(server, isAsk, ev.ask.after, ev.first, ev.asks, result, after))
  }

  lemma FreeSearchPath(
    server: Server<Key, Value>, isAsk: Ask -> bool, ips: set<Ip>, s: Snapshot, want: Want, now: int, passes: nat,
    first: Store, asks: seq<Ask>, result: PoolResult, s': Snapshot)
    requires WellFormedWant(want) && result.Allocated?
    requires FreeEffect(server, isAsk, ips, s, want, now, passes, first, asks, result, s')
    ensures SearchPath(server, isAsk, s.kv, first, asks, result, s'.kv)
  {
    assert isAsk(asks[|asks| - 1]);
  }

  lemma StepGrantPath(env: Env, op: Operation, s: Snapshot, ev: Evidence, done: Done, s': Snapshot)
    requires WellFormedOperation(op) && CanBeNamed(s) && Step(env, op, s, ev, done, s')
    requires done.AllocationDone? && done.result.Allocated?
    ensures GrantPath(env.server, AskOf(env.server, WantOf(op), op.now), s.kv, ev, done.result, s'.kv)
  {
    var want, now := WantOf(op), op.now;
    var isAsk := AskOf(env.server, want, now);
    if op.DoReserve? || !(env.low <= op.preferred.value <= env.high) {
      FreeSearchPath(env.server, isAsk, env.ips, s, want, now, env.passes, ev.first, ev.asks, done.result, s');
    } else if ev.ask.answer.Refused? {
      FreeSearchPath(env.server, isAsk, env.ips, Settled(s, want, now, ev.ask), want, now, env.passes, ev.first,
        ev.asks,
                     done.result, s');
    }
  }

  lemma PathGrants(
    server: Server<Key, Value>, isAsk: Ask -> bool, want: Want, now: int, kv: Store, ev: Evidence, result: PoolResult,
    after: Store)
    requires WellFormedWant(want) && Genuine(server, want, now, isAsk) && OthersKeepShape(server) && Shaped(kv)
    requires GrantPath(server, isAsk, kv, ev, result, after)
    ensures Grants(server, want, now, GrantingAsk(ev), result, after)
  {
    forall a | isAsk(a) && Shaped(a.before) ensures Shaped(a.after) {
      ShapeOverCall(server, a.before, RequestFor(want, a.ip), now, a.seen, a.answer, a.after);
    }
    PathIsShaped(server, isAsk, kv, ev, result, after);
    GenuineGrant(server, isAsk, want, now, GrantingAsk(ev), result, after);
  }

  lemma PathIsShaped(
    server: Server<Key, Value>, isAsk: Ask -> bool, kv: Store, ev: Evidence, result: PoolResult, after: Store)
    requires OthersKeepShape(server) && Shaped(kv) && (forall a | isAsk(a) && Shaped(a.before) :: Shaped(a.after))
    requires GrantPath(server, isAsk, kv, ev, result, after)
    ensures isAsk(GrantingAsk(ev)) && Shaped(GrantingAsk(ev).before) && Answers(GrantingAsk(ev), result, after)
  {
    if ev.asks != [] {
      assert Shaped(ev.first);
      ShapedInTurn(isAsk, ev.first, ev.asks, |ev.asks| - 1);
    }
  }

  lemma {:induction false} ShapedInTurn(isAsk: Ask -> bool, first: Store, asks: seq<Ask>, n: nat)
    requires InTurn(isAsk, first, asks) && n < |asks| && Shaped(first)
    requires forall a | isAsk(a) && Shaped(a.before) :: Shaped(a.after)
    ensures Shaped(asks[n].before)
  {
    assert isAsk(asks[n]) && asks[n].before == StartOf(first, asks, n);
    if n > 0 {
      ShapedInTurn(isAsk, first, asks, n - 1);
      assert isAsk(asks[n - 1]);
    }
  }

  lemma GenuineGrant(
    server: Server<Key, Value>, isAsk: Ask -> bool, want: Want, now: int, a: Ask, result: PoolResult, after: Store)
    requires WellFormedWant(want) && Genuine(server, want, now, isAsk) && isAsk(a) && Shaped(a.before)
    requires Answers(a, result, after)
    ensures Grants(server, want, now, a, result, after)
  {
  }

  /** The same over a whole run. */
  lemma {:induction false} RunSparesOthers(env: Env, theirs: Ours, run: Run, i: nat)
    requires IsRun(env, run) && i < |run.trace| && LeftAlone(theirs, env.server) && Shaped(run.trace[0].kv)
    requires forall k | 0 <= k < |run.ops| :: KeepsToOwn(theirs, run.ops[k], run.trace[k])
    ensures Spares(theirs, run.trace[0].kv, run.trace[i].kv)
  {
    if i > 0 {
      RunSparesOthers(env, theirs, run, i - 1);
      RunStepSpares(env, theirs, run, i - 1);
      SparesTwice(theirs, run.trace[0].kv, run.trace[i - 1].kv, run.trace[i].kv);
    }
  }

  lemma RunStepSpares(env: Env, theirs: Ours, run: Run, i: nat)
    requires IsRun(env, run) && i < |run.ops| && LeftAlone(theirs, env.server) && Shaped(run.trace[i].kv)
    requires KeepsToOwn(theirs, run.ops[i], run.trace[i])
    ensures Spares(theirs, run.trace[i].kv, run.trace[i + 1].kv)
  {
    RunStep(env, run, i);
    StepSparesOthers(env, theirs, run.ops[i], run.trace[i], run.evidence[i], run.results[i], run.trace[i + 1]);
  }

  /** No release of everything, or of what the cache has for one of `theirs`. */
  predicate KeepsToOwn(theirs: Ours, op: Operation, s: Snapshot) {
    && !op.DoReleaseAll?
    && (op.DoRelease? && op.ip in s.allocatedIPs ==> !Mine(theirs, HolderFor(s.allocatedIPs[op.ip])))
  }

  // ---------- quarantine ----------

  /** Every unused time was there before or is `now`. */
  ghost predicate TimesFrom(unused: map<Ip, int>, now: int, unused': map<Ip, int>) {
    forall ip | ip in unused' :: unused'[ip] == now || (ip in unused && unused'[ip] == unused[ip])
  }

  lemma SearchTimes(
    server: Server<Key, Value>, isAsk: Ask -> bool, ips: set<Ip>, s: Snapshot, want: Want, now: int, passes: nat,
    first: Store, asks: seq<Ask>, result: PoolResult, s': Snapshot)
    requires WellFormedWant(want)
    requires FreeEffect(server, isAsk, ips, s, want, now, passes, first, asks, result, s')
    ensures TimesFrom(s.unusedIPs, now, s'.unusedIPs)
    ensures asks != [] && result.Allocated? && s.unusedIPs != map[] ==> result.ip in Offered(s.unusedIPs, now)
    ensures asks == [] ==> !result.Allocated?
  {
  }

  lemma StepTimes(env: Env, op: Operation, s: Snapshot, ev: Evidence, done: Done, s': Snapshot)
    requires WellFormedOperation(op) && CanBeNamed(s) && Step(env, op, s, ev, done, s')
    ensures TimesFrom(s.unusedIPs, op.now, s'.unusedIPs)
    ensures done.AllocationDone? && done.result.Allocated? && s.unusedIPs != map[] ==>
      || done.result.ip in Offered(s.unusedIPs, op.now)
      || (ev.asks == [] && op.DoAllocate? && op.preferred == Some(done.result.ip))
  {
    match op {
      case DoReserve(now) =>
        SearchTimes(env.server, AskOf(env.server, WantReservation, now), env.ips, s, WantReservation, now, env.passes,
                    ev.first, ev.asks, done.result, s');
      case DoAllocate(preferred, want, now) =>
        PreferredTimes(env.server, AskOf(env.server, want, now), env.ips, env.low, env.high, s, preferred, want, now,
                       env.passes, ev, done.result, s');
      case DoRelease(_, _) =>
      case DoReleaseAll(_) =>
    }
  }

  lemma PreferredTimes(
    server: Server<Key, Value>, isAsk: Ask -> bool, ips: set<Ip>, low: int, high: int, s: Snapshot,
    preferred: Option<Ip>, want: Want, now: int, passes: nat, ev: Evidence, result: PoolResult, s': Snapshot)
    requires WellFormedWant(want)
    requires PreferredEffect(server, isAsk, ips, low, high, s, preferred, want, now, passes, ev, result, s')
    ensures TimesFrom(s.unusedIPs, now, s'.unusedIPs)
    ensures result.Allocated? && s.unusedIPs != map[] ==>
      result.ip in Offered(s.unusedIPs, now) || (ev.asks == [] && preferred == Some(result.ip))
  {
    if preferred.Some? {
      if !(low <= preferred.value <= high) {
        SearchTimes(server, isAsk, ips, s, want, now, passes, ev.first, ev.asks, result, s');
      } else if ev.ask.answer.Refused? {
        var mid := Settled(s, want, now, ev.ask);
        SearchTimes(server, isAsk, ips, mid, want, now, passes, ev.first, ev.asks, result, s');
      }
    }
  }

  lemma TimesInRun(env: Env, run: Run, i: nat)
    requires IsRun(env, run) && i < |run.ops|
    ensures TimesFrom(run.trace[i].unusedIPs, run.ops[i].now, run.trace[i + 1].unusedIPs)
  {
    RunStep(env, run, i);
    StepTimes(env, run.ops[i], run.trace[i], run.evidence[i], run.results[i], run.trace[i + 1]);
  }

  lemma ReleaseInRun(env: Env, run: Run, i: nat)
    requires IsRun(env, run) && i < |run.ops| && run.ops[i].DoRelease? && run.results[i] == ReleaseDone(DidRelease)
    ensures run.ops[i].ip in run.trace[i + 1].unusedIPs
    ensures run.trace[i + 1].unusedIPs[run.ops[i].ip] == run.ops[i].now
  {
    RunStep(env, run, i);
  }

  /** After a release at time t the address is not counted as unused since before t. */
  lemma {:induction false} UnusedSinceRelease(env: Env, run: Run, i: nat, j: nat, ip: Ip)
    requires IsRun(env, run) && i < j < |run.trace|
    requires run.ops[i].DoRelease? && run.ops[i].ip == ip && run.results[i] == ReleaseDone(DidRelease)
    requires forall k | i <= k < j :: run.ops[i].now <= run.ops[k].now
    ensures ip in run.trace[j].unusedIPs ==> run.ops[i].now <= run.trace[j].unusedIPs[ip]
  {
    if i < j - 1 {
      UnusedSinceRelease(env, run, i, j - 1, ip);
      TimesInRun(env, run, j - 1);
    } else {
      ReleaseInRun(env, run, i);
    }
  }

  /** Over every run: a released address is given out again by a search within five minutes only if no
      unused address has been so for longer than that. */
  lemma QuarantineInEveryRun(env: Env, run: Run, i: nat, j: nat, ip: Ip)
    requires IsRun(env, run) && i < j < |run.ops|
    requires run.ops[i].DoRelease? && run.ops[i].ip == ip && run.results[i] == ReleaseDone(DidRelease)
    requires forall k | i <= k < j :: run.ops[i].now <= run.ops[k].now
    requires run.results[j] == AllocationDone(Allocated(ip)) && run.ops[j].now <= run.ops[i].now + 300_000_000_000
    requires run.ops[j].DoAllocate? && run.ops[j].preferred == Some(ip) ==> run.evidence[j].asks != []
    ensures forall other | other in run.trace[j].unusedIPs ::
              run.ops[j].now <= run.trace[j].unusedIPs[other] + 300_000_000_000
  {
    var s, now := run.trace[j], run.ops[j].now;
    RunStep(env, run, j);
    UnusedSinceRelease(env, run, i, j, ip);
    if s.unusedIPs != map[] {
      StepTimes(env, run.ops[j], s, run.evidence[j], run.results[j], run.trace[j + 1]);
      OfferedIff(s.unusedIPs, now);
    }
  }

  method RestedAddresses(unused: map<Ip, int>, now: int) returns (r: seq<Ip>)
    ensures forall ip :: ip in r <==> ip in unused && Rested(unused[ip], now)
    ensures r == [] ==> forall ip | ip in unused :: !Rested(unused[ip], now)
  {
    r := [];
    var rest := unused.Keys;
    while rest != {}
      invariant rest <= unused.Keys
      invariant forall ip :: ip in r <==> ip in unused && ip !in rest && Rested(unused[ip], now)
      decreases |rest|
    {
      var ip :| ip in rest;
      if Rested(unused[ip], now) {
        r := r + [ip];
      }
      rest := rest - {ip};
    }
    assert forall ip | ip in unused && Rested(unused[ip], now) :: ip in r;
  }

  method AsSequence(s: set<Ip>) returns (r: seq<Ip>)
    ensures forall ip :: ip in r <==> ip in s
    ensures r == [] <==> s == {}
  {
    r := [];
    var rest := s;
    while rest != {}
      invariant rest <= s
      invariant forall ip :: ip in r <==> ip in s && ip !in rest
      decreases |rest|
    {
      var ip :| ip in rest;
      r, rest := r + [ip], rest - {ip};
    }
    assert forall ip | ip in s :: ip in r;
    assert r != [] ==> r[0] in r;
  }
}
