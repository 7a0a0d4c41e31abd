/**
 The registry of firewall marks: for every network a map from services to marks and a list from
 marks to services, kept as two families of etcd keys.  Marks are written in decimal.
 */
module Fwmarks {
  import opened Common
  import opened Etcd
  import opened Text

  datatype Key = ByService(network: string, service: string) | Listed(network: string, mark: string)
  type Registry = map<Key, string>

  /** The canonical decimal text of a 32-bit number. */
  predicate IsMark(text: string) {
    var n := ParseUint32(text);
    n.Some? && Format(n.value) == text
  }

  lemma FormattedIsMark(n: nat)
    requires n < UINT32
    ensures IsMark(Format(n)) && ParseUint32(Format(n)) == Some(n)
  {
    ParseFormat(n);
  }

  /** The two families are inverse to each other, network by network. */
  ghost predicate Inverse(kv: Registry) {
    && (forall n, s | ByService(n, s) in kv ::
          IsMark(kv[ByService(n, s)]) && Listed(n, kv[ByService(n, s)]) in kv
            && kv[Listed(n, kv[ByService(n, s)])] == s)
    && (forall n, m | Listed(n, m) in kv ::
          IsMark(m) && ByService(n, kv[Listed(n, m)]) in kv && kv[ByService(n, kv[Listed(n, m)])] == m)
  }

  /** Distinct services on a network have distinct marks. */
  lemma DistinctMarks(kv: Registry, n: string, s: string, s': string)
    requires Inverse(kv) && ByService(n, s) in kv && ByService(n, s') in kv && s != s'
    ensures kv[ByService(n, s)] != kv[ByService(n, s')]
    ensures ParseUint32(kv[ByService(n, s)]) != ParseUint32(kv[ByService(n, s')])
  {
    assert kv[Listed(n, kv[ByService(n, s)])] == s;
    assert kv[Listed(n, kv[ByService(n, s')])] == s';
  }

  // ---------- the operations on the contents ----------

  /** Register a mark that the network does not have yet. */
  function Register(kv: Registry, n: string, s: string, mark: nat): Registry {
    kv[ByService(n, s) := Format(mark)][Listed(n, Format(mark)) := s]
  }

  function RegisterTxn(n: string, s: string, mark: nat): Txn<Key, string> {
    Txn([Absent(Listed(n, Format(mark)))], map[ByService(n, s) := Format(mark), Listed(n, Format(mark)) := s], {})
  }

  lemma RegisterMeaning(kv: Registry, n: string, s: string, mark: nat)
    ensures Passes(kv, RegisterTxn(n, s, mark)) <==> Listed(n, Format(mark)) !in kv
    ensures After(kv, RegisterTxn(n, s, mark)) == if Listed(n, Format(mark)) !in kv then Register(kv, n, s, mark)
        else kv
  {
    var t := RegisterTxn(n, s, mark);
    assert Passes(kv, t) <==> Holds(kv, t.guards[0]);
  }

  function ReleaseTxn(n: string, s: string, mark: nat): Txn<Key, string> {
    Txn([ValueIs(ByService(n, s), Format(mark)), ValueIs(Listed(n, Format(mark)), s)], map[],
        {ByService(n, s), Listed(n, Format(mark))})
  }

  function ServiceOf(kv: Registry, k: Key): string
    requires k in kv
  {
    if k.ByService? then k.service else kv[k]
  }

  function MarkOf(kv: Registry, k: Key): string
    requires k in kv
  {
    if k.ByService? then kv[k] else k.mark
  }

  /** Keys of services that no longer exist, with a mark that can be read. */
  predicate Stale(kv: Registry, existing: set<string>, k: Key) {
    k in kv && ServiceOf(kv, k) !in existing && ParseUint32(MarkOf(kv, k)).Some?
  }

  function CleanedUp(kv: Registry, existing: set<string>): Registry {
    map k | k in kv && !Stale(kv, existing, k) :: kv[k]
  }

  /** The mark of a service, if it has one that can be read. */
  function KnownMark(kv: Registry, n: string, s: string): Option<nat> {
    if ByService(n, s) in kv then ParseUint32(kv[ByService(n, s)]) else None
  }

  predicate ListsMark(kv: Registry, network: string, k: Key, m: nat) {
    k in kv && k.Listed? && k.network == network && ParseUint32(k.mark) == Some(m)
  }

  datatype Operation =
    | Get(service: string, network: string, mark: nat)  // answers `mark`
    | GetFails(service: string, network: string, plain: nat)  // `plain` is the checksum of the plain name
    | Release(service: string, network: string, mark: nat)
    | CleanUp(existing: set<string>)

  ghost predicate Transition(kv: Registry, op: Operation, kv': Registry) {
    match op
    case Get(s, n, m) =>
      if KnownMark(kv, n, s).Some?
      then kv' == kv && KnownMark(kv, n, s) == Some(m)
      else m < UINT32 && Listed(n, Format(m)) !in kv && kv' == Register(kv, n, s, m)
    case GetFails(s, n, plain) => kv' == kv && KnownMark(kv, n, s).None? && exists k :: ListsMark(kv, n, k, plain)
    case Release(s, n, m) => kv' == After(kv, ReleaseTxn(n, s, m))
    case CleanUp(existing) => kv' == CleanedUp(kv, existing)
  }

  lemma ReleaseMeaning(kv: Registry, n: string, s: string, m: nat)
    ensures Passes(kv, ReleaseTxn(n, s, m)) <==>
            ByService(n, s) in kv && kv[ByService(n, s)] == Format(m) && Listed(n, Format(m)) in kv
              && kv[Listed(n, Format(m))] == s
  {
    var t := ReleaseTxn(n, s, m);
    assert Passes(kv, t) <==> Holds(kv, t.guards[0]) && Holds(kv, t.guards[1]);
  }

  lemma RegisterKeepsInverse(kv: Registry, n: string, s: string, m: nat)
    requires Inverse(kv) && m < UINT32 && ByService(n, s) !in kv && Listed(n, Format(m)) !in kv
    ensures Inverse(Register(kv, n, s, m))
  {
    FormattedIsMark(m);
  }

  lemma InverseStep(kv: Registry, op: Operation, kv': Registry)
    requires Inverse(kv) && Transition(kv, op, kv')
    ensures Inverse(kv')
  {
    match op {
      case Get(s, n, m) =>
        if ByService(n, s) !in kv {
          RegisterKeepsInverse(kv, n, s, m);
        }
      case GetFails(_, _, _) =>
      case Release(s, n, m) => ReleaseMeaning(kv, n, s, m);
      case CleanUp(existing) =>
    }
  }

  ghost predicate IsRun(states: seq<Registry>, ops: seq<Operation>) {
    && |states| == |ops| + 1
    && Inverse(states[0])
    && forall i | 0 <= i < |ops| :: Transition(states[i], ops[i], states[i + 1])
  }

  lemma EmptyIsInverse()
    ensures Inverse(map[])
  {
  }

  lemma {:induction false} InverseInEveryRun(states: seq<Registry>, ops: seq<Operation>, i: nat)
    requires IsRun(states, ops) && i < |states|
    ensures Inverse(states[i])
  {
    if i > 0 {
      InverseInEveryRun(states, ops, i - 1);
      assert Transition(states[i - 1], ops[i - 1], states[i - 1 + 1]);
      InverseStep(states[i - 1], ops[i - 1], states[i]);
    }
  }

  /** A step that takes the mark `m` of the service away: its release, or a clean-up without it. */
  predicate TakesAway(op: Operation, n: string, s: string, m: nat) {
    op == Release(s, n, m) || (op.CleanUp? && s !in op.existing)
  }

  predicate HasMark(kv: Registry, n: string, s: string, m: nat) {
    m < UINT32 && ByService(n, s) in kv && kv[ByService(n, s)] == Format(m)
  }

  lemma MarkStaysOverStep(kv: Registry, op: Operation, kv': Registry, n: string, s: string, m: nat)
    requires Inverse(kv) && Transition(kv, op, kv') && HasMark(kv, n, s, m) && !TakesAway(op, n, s, m)
    ensures HasMark(kv', n, s, m)
  {
    FormattedIsMark(m);
    if op.Release? {
      ReleaseMeaning(kv, op.network, op.service, op.mark);
      if op.network == n && op.service == s && Passes(kv, ReleaseTxn(n, s, op.mark)) {
        FormatValue(m);
        FormatValue(op.mark);
      }
    }
  }

  lemma GetLeavesMark(kv: Registry, n: string, s: string, m: nat, kv': Registry)
    requires Inverse(kv) && Transition(kv, Get(s, n, m), kv')
    ensures HasMark(kv', n, s, m)
  {
    if ByService(n, s) in kv {
      assert IsMark(kv[ByService(n, s)]);
    }
  }

  /** What a step of a run does to the mark of a service. */
  lemma MarkInRun(states: seq<Registry>, ops: seq<Operation>, k: nat, n: string, s: string, m: nat)
    requires IsRun(states, ops) && k < |ops|
    ensures ops[k] == Get(s, n, m) ==> HasMark(states[k + 1], n, s, m)
    ensures HasMark(states[k], n, s, m) && !TakesAway(ops[k], n, s, m) ==> HasMark(states[k + 1], n, s, m)
  {
    InverseInEveryRun(states, ops, k);
    assert Transition(states[k], ops[k], states[k + 1]);
    if ops[k] == Get(s, n, m) {
      GetLeavesMark(states[k], n, s, m, states[k + 1]);
    } else if HasMark(states[k], n, s, m) && !TakesAway(ops[k], n, s, m) {
      MarkStaysOverStep(states[k], ops[k], states[k + 1], n, s, m);
    }
  }

  lemma {:induction false} MarkStays(states: seq<Registry>, ops: seq<Operation>, i: nat, j: nat, n: string, s: string,
    m: nat)
    requires IsRun(states, ops) && i < j < |states|
    requires ops[i] == Get(s, n, m)
    requires forall k | i < k < j :: !TakesAway(ops[k], n, s, m)
    ensures HasMark(states[j], n, s, m)
  {
    MarkInRun(states, ops, j - 1, n, s, m);
    if i < j - 1 {
      MarkStays(states, ops, i, j - 1, n, s, m);
    }
  }

  /** Repeated `Get` answers the same mark, and does not fail, until it is released or cleaned up. */
  lemma GetIsStable(states: seq<Registry>, ops: seq<Operation>, i: nat, j: nat, n: string, s: string, m: nat)
    requires IsRun(states, ops) && i < j < |ops|
    requires ops[i] == Get(s, n, m)
    requires (ops[j].Get? || ops[j].GetFails?) && ops[j].service == s && ops[j].network == n
    ensures ops[j] == Get(s, n, m) || exists k :: i < k < j && TakesAway(ops[k], n, s, m)
  {
    if forall k | i < k < j :: !TakesAway(ops[k], n, s, m) {
      MarkStays(states, ops, i, j, n, s, m);
      FormattedIsMark(m);
      assert Transition(states[j], ops[j], states[j + 1]);
    }
  }

  // ---------- generating a mark ----------

  const MAX_ATTEMPTS := 1000

  /** The name of attempt i: plain at first, later with a random suffix in place of the network. */
  ghost predicate IsCandidate(service: string, network: string, i: nat, name: string) {
    if i == 0 then name == service + "-" + network else exists suffix :: name == service + "_" + suffix
  }

  /** The names that were tried, in this order, were all taken. */
  ghost predicate Collided(
    crc32: string -> nat, service: string, network: string, existing: seq<nat>, tried: seq<string>)
  {
    forall i | 0 <= i < |tried| :: IsCandidate(service, network, i, tried[i]) && crc32(tried[i]) in existing
  }

  /** The checksum of the first candidate that is not taken.  There is none only if the randomness
      fails, or a thousand candidates were taken. */
  method GenerateFwmark(crc32: string -> nat, service: string, network: string, existing: seq<nat>)
    returns (mark: Option<nat>, ghost tried: seq<string>, ghost noRandomness: bool)
    requires forall s :: crc32(s) < UINT32
    ensures Collided(crc32, service, network, existing, tried)
    ensures mark.Some? ==> mark.value < UINT32 && mark.value !in existing
    ensures mark.Some? ==>
      |tried| < 1000 && exists name :: IsCandidate(service, network, |tried|, name) && mark.value == crc32(name)
    ensures mark.None? ==> if noRandomness then 1 <= |tried| <= 1000 else |tried| == 1000
    ensures crc32(service + "-" + network) !in existing ==> mark == Some(crc32(service + "-" + network))
  {
    var taken := set m | m in existing;
    var name := service + "-" + network;
    var attempt := 0;
    tried, noRandomness := [], false;
    while attempt < MAX_ATTEMPTS
      invariant 0 <= attempt == |tried| <= MAX_ATTEMPTS
      invariant IsCandidate(service, network, attempt, name) && Collided(crc32, service, network, existing, tried)
      invariant !noRandomness
    {
      if crc32(name) !in taken {
        if attempt > 0 {
          assert IsCandidate(service, network, 0, tried[0]);
        }
        return Some(crc32(name)), tried, noRandomness;
      }
      tried := tried + [name];
      var suffix: string, broken: bool := *, *;
      if broken {
        assert IsCandidate(service, network, 0, tried[0]);
        return None, tried, true;
      }
      name := service + "_" + suffix;
      attempt := attempt + 1;
    }
    assert IsCandidate(service, network, 0, tried[0]);
    return None, tried, noRandomness;
  }

  /** The marks in the list of a network, as far as they can be read. */
  method ExistingMarks(kv: Registry, network: string) returns (marks: seq<nat>)
    ensures forall m :: m in marks <==> exists k :: ListsMark(kv, network, k, m)
    ensures forall m: nat | m < UINT32 && m !in marks :: Listed(network, Format(m)) !in kv
  {
    marks := [];
    var left := set k | k in kv && k.Listed? && k.network == network;
    var all := left;
    while left != {}
      invariant left <= all
      invariant forall m :: m in marks <==> exists k :: k !in left && ListsMark(kv, network, k, m)
      decreases |left|
    {
      var k :| k in left;
      var m := ParseUint32(k.mark);
      assert m.Some? ==> ListsMark(kv, network, k, m.value);
      if m.Some? {
        marks := marks + [m.value];
      }
      left := left - {k};
    }
    forall m: nat | m < UINT32 && m !in marks ensures Listed(network, Format(m)) !in kv {
      FormattedIsMark(m);
      assert Listed(network, Format(m)) in kv ==> ListsMark(kv, network, Listed(network, Format(m)), m);
    }
  }

  // ---------- sweeping ----------

  /** The contents when only the keys in `left` have not been looked at. */
  function Swept(kv: Registry, existing: set<string>, left: set<Key>): Registry {
    map k | k in kv && (k in left || !Stale(kv, existing, k)) :: kv[k]
  }

  ghost predicate HasStaleMark(kv: Registry, existing: set<string>, k: Key, s: string, mark: nat) {
    Stale(kv, existing, k) && ServiceOf(kv, k) == s && ParseUint32(MarkOf(kv, k)) == Some(mark)
  }

  /** Of every stale service that was looked at, one of its marks is reported; and of no other. */
  ghost predicate Reported(kv: Registry, existing: set<string>, left: set<Key>, marks: map<string, nat>) {
    && (forall k | Stale(kv, existing, k) && k !in left :: ServiceOf(kv, k) in marks)
    && (forall s | s in marks :: exists k :: HasStaleMark(kv, existing, k, s, marks[s]))
  }

  /** Of every stale service the clean-up missed both keys or none. */
  ghost predicate MissesWholePairs(kv: Registry, existing: set<string>, missed: set<Key>) {
    forall n, s | ByService(n, s) in kv && s !in existing ::
      ByService(n, s) in missed <==> Listed(n, kv[ByService(n, s)]) in missed
  }

  /** A clean-up in which the deletes of the keys `missed` fail keeps the registry inverse exactly
      when these are whole pairs. */
  lemma PartialSweepKeepsInverseIff(kv: Registry, existing: set<string>, missed: set<Key>)
    requires Inverse(kv)
    ensures Inverse(Swept(kv, existing, missed)) <==> MissesWholePairs(kv, existing, missed)
  {
    var half := Swept(kv, existing, missed);
    forall n, s | ByService(n, s) in kv
      ensures Stale(kv, existing, ByService(n, s)) <==> s !in existing
      ensures Stale(kv, existing, Listed(n, kv[ByService(n, s)])) <==> s !in existing
    {
      assert IsMark(kv[ByService(n, s)]);
    }
    if !MissesWholePairs(kv, existing, missed) {
      var n, s :| ByService(n, s) in kv && s !in existing
                  && !(ByService(n, s) in missed <==> Listed(n, kv[ByService(n, s)]) in missed);
      HalfAPairBreaksInverse(kv, half, n, s);
    }
  }

  lemma HalfAPairBreaksInverse(kv: Registry, half: Registry, n: string, s: string)
    requires ByService(n, s) in kv
    requires var mark := kv[ByService(n, s)];
             && Listed(n, mark) in kv && kv[Listed(n, mark)] == s
             && (ByService(n, s) in half ==> half[ByService(n, s)] == mark)
             && (Listed(n, mark) in half ==> half[Listed(n, mark)] == s)
             && (ByService(n, s) in half <==> Listed(n, mark) !in half)
    ensures !Inverse(half)
  {
    var mark := kv[ByService(n, s)];
    if Listed(n, mark) in half {
      assert ByService(n, half[Listed(n, mark)]) !in half;
    }
  }

  /** A single failing delete leaves half of a pair behind. */
  lemma PartialSweepBreaksInverse(n: string, s: string)
    ensures var kv := Register(map[], n, s, 7);
            Inverse(kv) && !Inverse(Swept(kv, {}, {Listed(n, Format(7))}))
  {
    EmptyIsInverse();
    RegisterKeepsInverse(map[], n, s, 7);
    var kv := Register(map[], n, s, 7);
    PartialSweepKeepsInverseIff(kv, {}, {Listed(n, Format(7))});
    assert ByService(n, s) in kv && kv[ByService(n, s)] == Format(7);
  }

  /** Every mark of a stale service is among the reported ones. */
  ghost predicate AllMarksReported(kv: Registry, existing: set<string>, marks: map<string, nat>) {
    forall k | Stale(kv, existing, k) ::
      ServiceOf(kv, k) in marks && ParseUint32(MarkOf(kv, k)) == Some(marks[ServiceOf(kv, k)])
  }

  /** A complete clean-up reports all stale marks exactly when no stale service had two of them. */
  lemma AllMarksReportedIff(kv: Registry, existing: set<string>, marks: map<string, nat>)
    requires Reported(kv, existing, {}, marks)
    ensures AllMarksReported(kv, existing, marks) <==>
            forall k, k' | Stale(kv, existing, k) && Stale(kv, existing, k') && ServiceOf(kv, k) == ServiceOf(kv, k') ::
              ParseUint32(MarkOf(kv, k)) == ParseUint32(MarkOf(kv, k'))
  {
    forall k | Stale(kv, existing, k)
      ensures exists k' :: HasStaleMark(kv, existing, k', ServiceOf(kv, k), marks[ServiceOf(kv, k)]) {
      assert ServiceOf(kv, k) in marks;
    }
  }

  /** The service has this mark on some network. */
  ghost predicate OwnsMark(kv: Registry, s: string, mark: nat) {
    exists n :: ByService(n, s) in kv && kv[ByService(n, s)] == Format(mark)
  }

  /** On an inverse registry exactly the services that no longer exist are reported, each with a mark
      that it has; so with the only one if it has one only. */
  lemma ReportedMarksAreTheirs(kv: Registry, existing: set<string>, marks: map<string, nat>)
    requires Inverse(kv) && Reported(kv, existing, {}, marks)
    ensures forall s | s in marks :: s !in existing && OwnsMark(kv, s, marks[s])
    ensures forall n, s | ByService(n, s) in kv && s !in existing :: s in marks
    ensures forall n, s | ByService(n, s) in kv && s in marks
                          && (forall n' | ByService(n', s) in kv :: kv[ByService(n', s)] == kv[ByService(n, s)]) ::
              Format(marks[s]) == kv[ByService(n, s)]
  {
    forall s | s in marks ensures s !in existing && OwnsMark(kv, s, marks[s]) {
      var k :| HasStaleMark(kv, existing, k, s, marks[s]);
      StaleMarkIsOwned(kv, existing, k, s, marks[s]);
    }
    forall n, s | ByService(n, s) in kv && s !in existing ensures s in marks {
      assert IsMark(kv[ByService(n, s)]);
      assert Stale(kv, existing, ByService(n, s));
    }
  }

  lemma StaleMarkIsOwned(kv: Registry, existing: set<string>, k: Key, s: string, mark: nat)
    requires Inverse(kv) && HasStaleMark(kv, existing, k, s, mark)
    ensures s !in existing && OwnsMark(kv, s, mark)
  {
    match k {
      case ByService(n, _) =>
        assert IsMark(kv[ByService(n, s)]);
      case Listed(n, m) =>
        assert IsMark(m) && kv[ByService(n, kv[Listed(n, m)])] == m;
        assert ByService(n, s) in kv && kv[ByService(n, s)] == Format(mark);
    }
  }

  /** A complete clean-up of an inverse registry leaves exactly the keys of the existing services. */
  lemma CleanedUpKeeps(kv: Registry, existing: set<string>, n: string, s: string, m: string)
    requires Inverse(kv)
    ensures ByService(n, s) in CleanedUp(kv, existing) <==> ByService(n, s) in kv && s in existing
    ensures Listed(n, m) in CleanedUp(kv, existing) <==> Listed(n, m) in kv && kv[Listed(n, m)] in existing
    ensures forall k | k in CleanedUp(kv, existing) :: CleanedUp(kv, existing)[k] == kv[k]
  {
    if ByService(n, s) in kv {
      assert IsMark(kv[ByService(n, s)]);
    }
    if Listed(n, m) in kv {
      assert IsMark(m);
    }
  }

  /** Whatever the registry holds: a clean-up leaves a key whose service exists, whose mark cannot be
      read, or whose delete was missed. */
  lemma SweptKeeps(kv: Registry, existing: set<string>, missed: set<Key>, n: string, s: string, m: string)
    ensures ByService(n, s) in Swept(kv, existing, missed) <==>
            && ByService(n, s) in kv
            && (s in existing || ParseUint32(kv[ByService(n, s)]).None? || ByService(n, s) in missed)
    ensures Listed(n, m) in Swept(kv, existing, missed) <==>
            && Listed(n, m) in kv
            && (kv[Listed(n, m)] in existing || ParseUint32(m).None? || Listed(n, m) in missed)
    ensures forall k | k in Swept(kv, existing, missed) :: Swept(kv, existing, missed)[k] == kv[k]
  {
  }

  /** A service with marks on two networks: whatever is reported, one of the marks is not. */
  lemma OneMarkOfTwoIsReported(s: string, marks: map<string, nat>)
    requires Reported(TwoNetworks(s), {}, {}, marks)
    ensures Inverse(TwoNetworks(s)) && !AllMarksReported(TwoNetworks(s), {}, marks)
  {
    var kv := TwoNetworks(s);
    EmptyIsInverse();
    RegisterKeepsInverse(map[], "a", s, 7);
    RegisterKeepsInverse(Register(map[], "a", s, 7), "b", s, 8);
    FormattedIsMark(7);
    FormattedIsMark(8);
    assert Stale(kv, {}, ByService("a", s)) && Stale(kv, {}, ByService("b", s));
    AllMarksReportedIff(kv, {}, marks);
  }

  function TwoNetworks(s: string): Registry { Register(Register(map[], "a", s, 7), "b", s, 8) }

  /** One more key has been looked at, and deleted unless it is not stale or the delete failed. */
  lemma SweepOne(kv: Registry, existing: set<string>, left: set<Key>, missed: set<Key>, k: Key)
    requires k in left && k in kv && left !! missed
    ensures Stale(kv, existing, k) ==>
      && Swept(kv, existing, left - {k} + missed) == Swept(kv, existing, left + missed) - {k}
      && left - {k} + (missed + {k}) == left + missed
    ensures !Stale(kv, existing, k) ==> Swept(kv, existing, left - {k} + missed) == Swept(kv, existing, left + missed)
  {
  }

  lemma ReportOne(kv: Registry, existing: set<string>, left: set<Key>, k: Key, marks: map<string, nat>)
    requires k in left && k in kv && Reported(kv, existing, left, marks)
    ensures !Stale(kv, existing, k) ==> Reported(kv, existing, left - {k}, marks)
    ensures Stale(kv, existing, k) ==>
      Reported(kv, existing, left - {k}, marks[ServiceOf(kv, k) := ParseUint32(MarkOf(kv, k)).value])
  {
    if Stale(kv, existing, k) {
      var mark := ParseUint32(MarkOf(kv, k)).value;
      var marks' := marks[ServiceOf(kv, k) := mark];
      assert HasStaleMark(kv, existing, k, ServiceOf(kv, k), mark);
      forall s | s in marks' ensures exists k :: HasStaleMark(kv, existing, k, s, marks'[s]) { }
    }
  }

  // ---------- the calls ----------

  datatype Answer = Mark(mark: nat) | NoMark | CallError | GaveUp

  /** Contents that do not list the mark get the pair of keys. */
  predicate Registers(service: string, network: string, mark: nat, at: Registry, after: Registry) {
    Listed(network, Format(mark)) !in at && after == Register(at, network, service, mark)
  }

  /** The plain checksum is taken unless the list has it. */
  ghost predicate PlainIfFree(read: Registry, network: string, plain: nat, mark: nat) {
    mark == plain || exists k :: ListsMark(read, network, k, plain)
  }

  /** Between two contents somebody else registered a mark. */
  ghost predicate Overtaken(network: string, read: Registry, at: Registry) {
    exists mark: nat :: Listed(network, Format(mark)) !in read && Listed(network, Format(mark)) in at
  }

  /** What a call for a mark did, from the contents that it met: the first read, and then a read and
      a transaction for every pass. */
  ghost predicate GetEffect(
    service: string, network: string, plain: nat, passes: nat, path: seq<Registry>, answer: Answer, after: Registry)
    requires path != []
  {
    var at := path[|path| - 1];
    match answer
    case CallError => true
    case Mark(mark) =>
      && mark < UINT32
      && if KnownMark(path[0], network, service).Some?
         then |path| == 1 && KnownMark(path[0], network, service) == Some(mark) && after == at
         else
           && |path| >= 3 && Registers(service, network, mark, at, after)
           && PlainIfFree(path[|path| - 2], network, plain, mark)
    case NoMark =>
      && KnownMark(path[0], network, service).None? && |path| >= 2 && after == at
      && exists k :: ListsMark(at, network, k, plain)
    case GaveUp =>
      && KnownMark(path[0], network, service).None? && |path| == 1 + 2 * passes && after == at
      && forall i | 0 <= i < passes :: Overtaken(network, path[2 * i + 1], path[2 * i + 2])
  }

  /** After `pass` passes, each overtaken by somebody else. */
  ghost predicate Registering(
    server: Server<Key, string>, service: string, network: string, start: Registry, pass: nat, path: seq<Registry>,
    kv: Registry)
  {
    && server.Chain(start, path) && |path| == 1 + 2 * pass && kv == path[|path| - 1]
    && KnownMark(path[0], network, service).None?
    && forall i | 0 <= i < pass :: Overtaken(network, path[2 * i + 1], path[2 * i + 2])
  }

  lemma OneMorePass(
    server: Server<Key, string>, service: string, network: string, start: Registry, pass: nat, path: seq<Registry>,
    read: Registry, at: Registry)
    requires |path| > 0 && Registering(server, service, network, start, pass, path, path[|path| - 1])
    requires server.rely(path[|path| - 1], read)
    ensures server.Chain(start, path + [read])
    ensures server.rely(read, at) ==> server.Chain(start, path + [read, at])
    ensures server.rely(read, at) && Overtaken(network, read, at) ==>
      Registering(server, service, network, start, pass + 1, path + [read, at], at)
  {
    server.ChainGrows(start, path, read);
    if server.rely(read, at) {
      server.ChainGrows(start, path + [read], at);
      assert path + [read] + [at] == path + [read, at];
    }
  }

  class FwmarksManagement {
    const server: Server<Key, string>
    const crc32: string -> nat

    ghost predicate Valid() reads server {
      server.Valid() && forall s :: crc32(s) < UINT32
    }

    constructor (server: Server<Key, string>, crc32: string -> nat)
      requires server.Valid() && forall s :: crc32(s) < UINT32
      ensures Valid() && this.server == server && this.crc32 == crc32
    {
      this.server, this.crc32 := server, crc32;
    }

    /** The mark of the service, or a new one.  `path` are the contents that the calls met, one after
        the other.  As the only writer of its prefix a call ends in its first pass. */
    method GetMark(service: string, network: string, passes: nat) returns (answer: Answer, ghost path: seq<Registry>)
      requires Valid()
      modifies server
      ensures server.Chain(old(server.kv), path) && path != []
      ensures GetEffect(service, network, Plain(service, network), passes, path, answer, server.kv)
      ensures server.reliable ==> !answer.CallError?
      ensures server.Quiet() && passes > 0 ==>
        && (answer.Mark? || answer.NoMark?)
        && Transition(old(server.kv), Answered(service, network, answer), server.kv)
    {
      var contents := server.Read();
      path := [server.kv];
      if contents.None? {
        return CallError, path;
      }
      if ByService(network, service) in contents.value {
        var known := ParseUint32(contents.value[ByService(network, service)]);
        if known.Some? {
          return Mark(known.value), path;
        }
      }
      var pass := 0;
      while pass < passes
        invariant 0 <= pass <= passes && Registering(server, service, network, old(server.kv), pass, path, server.kv)
        invariant server.Quiet() ==> pass == 0 && server.kv == old(server.kv)
      {
        var reply, read, at := TryRegister(service, network);
        OneMorePass(server, service, network, old(server.kv), pass, path, read, at);
        path := if reply == Some(NoMark) || reply == Some(CallError) then path + [read] else path + [read, at];
        if reply.Some? {
          return reply.value, path;
        }
        pass := pass + 1;
      }
      return GaveUp, path;
    }

    function Plain(service: string, network: string): nat { crc32(service + "-" + network) }

    function Answered(service: string, network: string, answer: Answer): Operation {
      if answer.Mark? then Get(service, network, answer.mark) else GetFails(service, network, Plain(service, network))
    }

    /** One pass: generate a mark and try to register it; `None` if it has been registered meanwhile.
        `read` is what the list was read from, `at` what the transaction met. */
    method TryRegister(service: string, network: string)
      returns (answer: Option<Answer>, ghost read: Registry, ghost at: Registry)
      requires Valid()
      modifies server
      ensures server.rely(old(server.kv), read)
      ensures answer == Some(NoMark) ==>
        server.kv == read && exists k :: ListsMark(read, network, k, Plain(service, network))
      ensures answer == Some(CallError) ==> !server.reliable
      ensures answer.Some? ==> !answer.value.GaveUp?
      ensures answer.None? ==> server.rely(read, at) && server.kv == at && Overtaken(network, read, at)
      ensures answer.Some? && answer.value.Mark? ==>
        && server.rely(read, at) && answer.value.mark < UINT32
        && Registers(service, network, answer.value.mark, at, server.kv)
        && PlainIfFree(read, network, Plain(service, network), answer.value.mark)
      ensures server.Quiet() ==> answer.Some?
    {
      var contents := server.Read();
      read, at := server.kv, server.kv;
      if contents.None? {
        return Some(CallError), read, at;
      }
      var existing := ExistingMarks(contents.value, network);
      var mark, tried, noRandomness := GenerateFwmark(crc32, service, network, existing);
      if mark.None? {
        assert Plain(service, network) in existing;
        return Some(NoMark), read, at;
      }
      var reply;
      reply, at := server.Commit(RegisterTxn(network, service, mark.value));
      RegisterMeaning(at, network, service, mark.value);
      if reply.Failed? {
        return Some(CallError), read, at;
      }
      if !reply.succeeded {
        return None, read, at;
      }
      return Some(Mark(mark.value)), read, at;
    }

    /** Release a mark.  A release that does not match the registry changes nothing, and is not
        reported as an error. */
    method ReleaseMark(service: string, network: string, mark: nat) returns (error: bool, ghost at: Registry)
      requires Valid()
      modifies server
      ensures server.rely(old(server.kv), at) && (server.reliable ==> !error)
      ensures !error ==> server.kv == After(at, ReleaseTxn(network, service, mark))
      ensures server.Quiet() ==> Transition(old(server.kv), Release(service, network, mark), server.kv)
    {
      var reply;
      reply, at := server.Commit(ReleaseTxn(network, service, mark));
      return reply.Failed?, at;
    }

    /** Delete, one by one, the keys of the services that no longer exist.  For each of them one
        of its marks is reported.  The keys whose delete fails are `missed`. */
    method CleanUpStaleFwmarks(existing: set<string>)
      returns (ok: bool, marks: map<string, nat>, ghost missed: set<Key>)
      requires Valid()
      modifies server
      ensures server.reliable ==> ok && missed == {}
      // nobody else writes, but calls may fail
      ensures server.Alone() && ok ==>
        && server.kv == Swept(old(server.kv), existing, missed) && Reported(old(server.kv), existing, {}, marks)
        && (old(Inverse(server.kv)) ==> (Inverse(server.kv) <==> MissesWholePairs(old(server.kv), existing, missed)))
        && (old(Inverse(server.kv)) ==>
              forall s | s in marks :: s !in existing && OwnsMark(old(server.kv), s, marks[s]))
      ensures server.Alone() && !ok ==> server.kv == old(server.kv)
      ensures server.Quiet() ==> Transition(old(server.kv), CleanUp(existing), server.kv)
    {
      var contents := server.Read();
      if contents.None? {
        return false, map[], {};
      }
      marks, missed := Sweep(contents.value, existing);
      if server.Alone() && old(Inverse(server.kv)) {
        PartialSweepKeepsInverseIff(old(server.kv), existing, missed);
        ReportedMarksAreTheirs(old(server.kv), existing, marks);
      }
      assert Swept(old(server.kv), existing, {}) == CleanedUp(old(server.kv), existing);
      return true, marks, missed;
    }

    /** The loop over the keys that were read. */
    method Sweep(kv: Registry, existing: set<string>) returns (marks: map<string, nat>, ghost missed: set<Key>)
      requires Valid()
      modifies server
      ensures server.reliable ==> missed == {}
      ensures forall k | k in missed :: Stale(kv, existing, k)
      ensures server.Alone() && old(server.kv) == kv ==> server.kv == Swept(kv, existing, missed)
      ensures Reported(kv, existing, {}, marks)
    {
      marks, missed := map[], {};
      var left := kv.Keys;
      assert Swept(kv, existing, left + missed) == kv;
      while left != {}
        invariant left <= kv.Keys && left !! missed
        invariant server.reliable ==> missed == {}
        invariant forall k | k in missed :: Stale(kv, existing, k)
        invariant server.Alone() && old(server.kv) == kv ==> server.kv == Swept(kv, existing, left + missed)
        invariant Reported(kv, existing, left, marks)
        decreases |left|
      {
        var k :| k in left;
        SweepOne(kv, existing, left, missed, k);
        ReportOne(kv, existing, left, k, marks);
        if ServiceOf(kv, k) !in existing && ParseUint32(MarkOf(kv, k)).Some? {
          marks := marks[ServiceOf(kv, k) := ParseUint32(MarkOf(kv, k)).value];
          ghost var gone := DeleteKey(k);
          missed := if gone then missed else missed + {k};
        }
        left := left - {k};
      }
      assert left + missed == missed;
    }

    /** A delete that fails is only logged; `gone` tells whether it was carried out. */
    method DeleteKey(k: Key) returns (ghost gone: bool)
      requires Valid()
      modifies server
      ensures server.reliable ==> gone
      ensures server.Alone() ==> server.kv == if gone then old(server.kv) - {k} else old(server.kv)
    {
      var txn := Txn([], map[], {k});
      var reply, at := server.Commit(txn);
      gone := reply.Committed? || server.kv == After(at, txn);
    }
  }
}
