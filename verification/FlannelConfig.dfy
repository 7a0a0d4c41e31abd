/**
 The create-once flannel configuration of a network.  Every node reads the configuration, creates
 it if it is missing, and reads it again if another node was faster; these are three separate
 steps, and the nodes interleave.
 */
module FlannelConfig {
  import opened Common
  import opened Etcd

  datatype Config = Config(network: string, subnetLen: int, vni: int)

  /** What the key holds; something else than a configuration cannot be decoded. */
  datatype Content = Decodable(config: Config) | Undecodable

  /** A node that is about to: read, create, read again; or has ended, with a verdict or because a
      call failed. */
  datatype Phase = Reading | Creating | Rereading | Succeeded | Errored | Broken

  type NodeID = nat
  /** What each node wants the configuration to be. */
  type Nodes = map<NodeID, Config>

  datatype System = System(stored: Option<Content>, phase: map<NodeID, Phase>)

  /** A failing call may or may not have been carried out. */
  datatype Action = StepNode(node: NodeID) | FailNode(node: NodeID, carriedOut: bool) | DeleteConfig

  predicate WellFormed(nodes: Nodes, s: System) { s.phase.Keys == nodes.Keys }

  predicate WellFormedAction(nodes: Nodes, a: Action) { a.DeleteConfig? || a.node in nodes }

  predicate Matches(wanted: Config, found: Content) { found.Decodable? && found.config.network == wanted.network }

  function Compare(wanted: Config, found: Content): Phase {
    if Matches(wanted, found) then Succeeded else Errored
  }

  predicate Ended(p: Phase) { p.Succeeded? || p.Errored? || p.Broken? }

  /** The phase of a node, and what is stored. */
  datatype Turn = Turn(phase: Phase, stored: Option<Content>)

  /** One call of a node. */
  function Advance(wanted: Config, t: Turn): Turn {
    match t.phase
    case Reading => t.(phase := if t.stored.Some? then Compare(wanted, t.stored.value) else Creating)
    case Creating => if t.stored.None? then Turn(Succeeded, Some(Decodable(wanted))) else t.(phase := Rereading)
    case Rereading =>
      // a configuration that is gone again is not treated as an error
      t.(phase := if t.stored.Some? then Compare(wanted, t.stored.value) else Succeeded)
    case _ => t
  }

  /** One call of a node that fails. */
  function Break(wanted: Config, t: Turn, carriedOut: bool): Turn {
    if Ended(t.phase) then t
    else Turn(Broken, if carriedOut then Advance(wanted, t).stored else t.stored)
  }

  function Next(nodes: Nodes, s: System, a: Action): System
    requires WellFormed(nodes, s) && WellFormedAction(nodes, a)
  {
    if a.DeleteConfig? then s.(stored := None)
    else
      var n := a.node;
      var before := Turn(s.phase[n], s.stored);
      var t := if a.StepNode? then Advance(nodes[n], before) else Break(nodes[n], before, a.carriedOut);
      System(t.stored, s.phase[n := t.phase])
  }

  ghost predicate IsRun(nodes: Nodes, states: seq<System>, actions: seq<Action>) {
    && |states| == |actions| + 1
    && (forall i | 0 <= i < |states| :: WellFormed(nodes, states[i]))
    && (forall n | n in nodes :: states[0].phase[n] == Reading)
    && forall i | 0 <= i < |actions| ::
         && WellFormedAction(nodes, actions[i])
         && states[i + 1] == Next(nodes, states[i], actions[i])
  }

  /** Step k deletes a configuration that is there. */
  predicate Removes(states: seq<System>, actions: seq<Action>, k: nat)
    requires k < |actions| && k < |states|
  {
    actions[k].DeleteConfig? && states[k].stored.Some?
  }

  /** Up to state i nothing was deleted that was there. */
  predicate NothingRemoved(states: seq<System>, actions: seq<Action>, i: nat)
    requires i <= |actions| && i <= |states|
  {
    forall k | 0 <= k < i :: !Removes(states, actions, k)
  }

  /** Whoever lost the race, or has ended, has seen a configuration; the verdict of a node that
      has ended is the comparison with the configuration that is stored. */
  ghost predicate Invariant(nodes: Nodes, s: System) {
    && WellFormed(nodes, s)
    && forall n | n in nodes ::
         && (s.phase[n].Rereading? ==> s.stored.Some?)
         && (s.phase[n].Succeeded? || s.phase[n].Errored? ==>
               s.stored.Some? && s.phase[n] == Compare(nodes[n], s.stored.value))
  }

  lemma {:induction false} InvariantHolds(nodes: Nodes, states: seq<System>, actions: seq<Action>, i: nat)
    requires IsRun(nodes, states, actions) && i < |states| && NothingRemoved(states, actions, i)
    ensures Invariant(nodes, states[i])
  {
    if i > 0 {
      InvariantHolds(nodes, states, actions, i - 1);
      assert states[i - 1 + 1] == Next(nodes, states[i - 1], actions[i - 1]);
      assert !Removes(states, actions, i - 1);
    }
  }

  /** All nodes whose call succeeds want the same network, the stored one; a node that wants another
      network, and whose calls do not fail, ends with an error. */
  lemma ConfigAgreement(nodes: Nodes, states: seq<System>, actions: seq<Action>, i: nat, n: NodeID, m: NodeID)
    requires IsRun(nodes, states, actions) && i < |states| && NothingRemoved(states, actions, i)
    requires n in nodes && m in nodes
    ensures states[i].phase[n].Succeeded? && states[i].phase[m].Succeeded? ==> nodes[n].network == nodes[m].network
    ensures states[i].phase[n].Succeeded? || states[i].phase[n].Errored? ==>
      states[i].stored.Some? && (states[i].phase[n].Succeeded? <==> Matches(nodes[n], states[i].stored.value))
  {
    InvariantHolds(nodes, states, actions, i);
  }

  /** Two nodes succeed with different networks only if a configuration was deleted before. */
  lemma DisagreementNeedsDeletion(nodes: Nodes, states: seq<System>, actions: seq<Action>, i: nat, n: NodeID, m: NodeID)
    requires IsRun(nodes, states, actions) && i < |states| && n in nodes && m in nodes
    requires states[i].phase[n].Succeeded? && states[i].phase[m].Succeeded? && nodes[n].network != nodes[m].network
    ensures exists k :: 0 <= k < i && Removes(states, actions, k)
  {
    if NothingRemoved(states, actions, i) {
      ConfigAgreement(nodes, states, actions, i, n, m);
      assert false;
    }
  }

  /** Once there is something under the key it never changes. */
  lemma {:induction false} CreatedOnce(nodes: Nodes, states: seq<System>, actions: seq<Action>, i: nat, j: nat)
    requires IsRun(nodes, states, actions) && i <= j < |states| && NothingRemoved(states, actions, j)
    requires states[i].stored.Some?
    ensures states[j].stored == states[i].stored
  {
    if i < j {
      CreatedOnce(nodes, states, actions, i, j - 1);
      assert states[j - 1 + 1] == Next(nodes, states[j - 1], actions[j - 1]);
      assert !Removes(states, actions, j - 1);
    }
  }

  // ---------- every call ends ----------

  predicate IsOwn(a: Action, n: NodeID) { !a.DeleteConfig? && a.node == n }

  function OwnSteps(actions: seq<Action>, n: NodeID): nat {
    if actions == [] then 0
    else OwnSteps(actions[..|actions| - 1], n) + (if IsOwn(actions[|actions| - 1], n) then 1 else 0)
  }

  /** How many own steps a node still needs at most. */
  function Remaining(p: Phase): nat {
    match p
    case Reading => 3
    case Creating => 2
    case Rereading => 1
    case _ => 0
  }

  lemma OwnStepsCount(nodes: Nodes, s: System, a: Action, n: NodeID)
    requires WellFormed(nodes, s) && WellFormedAction(nodes, a) && n in nodes
    ensures IsOwn(a, n) && Remaining(s.phase[n]) > 0 ==> Remaining(Next(nodes, s, a).phase[n]) < Remaining(s.phase[n])
    ensures !IsOwn(a, n) || Remaining(s.phase[n]) == 0 ==> Next(nodes, s, a).phase[n] == s.phase[n]
  {
  }

  /** Three steps of its own bring every node to an end, whatever the others do and delete. */
  lemma {:induction false} EveryCallEnds(nodes: Nodes, states: seq<System>, actions: seq<Action>, i: nat, n: NodeID)
    requires IsRun(nodes, states, actions) && i < |states| && n in nodes
    ensures Remaining(states[i].phase[n]) + OwnSteps(actions[..i], n) <= 3 || Remaining(states[i].phase[n]) == 0
    ensures OwnSteps(actions[..i], n) >= 3 ==> Ended(states[i].phase[n])
  {
    if i > 0 {
      EveryCallEnds(nodes, states, actions, i - 1, n);
      assert states[i - 1 + 1] == Next(nodes, states[i - 1], actions[i - 1]);
      OwnStepsCount(nodes, states[i - 1], actions[i - 1], n);
      assert actions[..i][..i - 1] == actions[..i - 1];
    }
  }

  // ---------- what does not hold ----------

  /** Agreement is lost when the configuration is deleted in between. */
  lemma DeletionBreaksAgreement(a: Config, b: Config)
    returns (nodes: Nodes, states: seq<System>, actions: seq<Action>)
    requires a.network != b.network
    ensures IsRun(nodes, states, actions) && 0 in nodes && 1 in nodes && nodes[0] == a && nodes[1] == b
    ensures states[|actions|].phase[0].Succeeded? && states[|actions|].phase[1].Succeeded?
  {
    nodes := map[0 := a, 1 := b];
    var s0 := System(None, map[0 := Reading, 1 := Reading]);
    actions := [StepNode(0), StepNode(0), DeleteConfig, StepNode(1), StepNode(1)];
    var s1 := Next(nodes, s0, actions[0]);
    var s2 := Next(nodes, s1, actions[1]);
    var s3 := Next(nodes, s2, actions[2]);
    var s4 := Next(nodes, s3, actions[3]);
    var s5 := Next(nodes, s4, actions[4]);
    states := [s0, s1, s2, s3, s4, s5];
  }

  /** Only the network is compared: a node whose VNI differs from the stored one succeeds too. */
  lemma VniMayDiffer(a: Config, b: Config)
    returns (nodes: Nodes, states: seq<System>, actions: seq<Action>)
    requires a.network == b.network && a.vni != b.vni
    ensures IsRun(nodes, states, actions) && NothingRemoved(states, actions, |actions|) && 1 in nodes && nodes[1] == b
    ensures states[|actions|].phase[1].Succeeded? && states[|actions|].stored == Some(Decodable(a))
  {
    nodes := map[0 := a, 1 := b];
    var s0 := System(None, map[0 := Reading, 1 := Reading]);
    actions := [StepNode(0), StepNode(0), StepNode(1)];
    var s1 := Next(nodes, s0, actions[0]);
    var s2 := Next(nodes, s1, actions[1]);
    var s3 := Next(nodes, s2, actions[2]);
    states := [s0, s1, s2, s3];
  }

  // ---------- the call itself ----------

  datatype ConfigKey = ConfigKey
  type Contents = map<ConfigKey, Content>
  datatype Outcome = Fine | WrongNetwork(found: string) | BadContent | CallError

  function StoredIn(kv: Contents): Option<Content> { if ConfigKey in kv then Some(kv[ConfigKey]) else None }

  /** One call to etcd: what it met, and whether it failed. */
  datatype Visit = Visit(met: Contents, failed: bool, carriedOut: bool)

  function TurnAfter(wanted: Config, phase: Phase, v: Visit): Turn {
    var t := Turn(phase, StoredIn(v.met));
    if v.failed then Break(wanted, t, v.carriedOut) else Advance(wanted, t)
  }

  function Left(wanted: Config, phase: Phase, v: Visit): Contents {
    var stored := TurnAfter(wanted, phase, v).stored;
    if stored.Some? then v.met[ConfigKey := stored.value] else v.met
  }

  /** The calls of a node, from a phase to its end: each is a step of the node on what it met after the
      others had acted. */
  ghost predicate Calls(
    server: Server<ConfigKey, Content>, wanted: Config, phase: Phase, before: Contents, visits: seq<Visit>, end: Phase,
    after: Contents)
    decreases |visits|
  {
    if visits == [] then Ended(phase) && end == phase && after == before
    else
      var v := visits[0];
      && !Ended(phase) && server.rely(before, v.met) && (v.failed ==> !server.reliable)
      && Calls(server, wanted, TurnAfter(wanted, phase, v).phase, Left(wanted, phase, v), visits[1..], end, after)
  }

  /** The other nodes create the configuration at most once and never change it. */
  ghost predicate OthersKeepConfig(server: Server<ConfigKey, Content>) {
    forall s, t :: server.rely(s, t) && ConfigKey in s ==> ConfigKey in t && t[ConfigKey] == s[ConfigKey]
  }

  function PhaseOf(o: Outcome): Phase {
    match o
    case Fine => Succeeded
    case CallError => Broken
    case _ => Errored
  }

  method EnsureFlannelConfig(server: Server<ConfigKey, Content>, wanted: Config)
    returns (outcome: Outcome, ghost visits: seq<Visit>)
    requires server.Valid()
    modifies server
    // the steps of a node from `Reading` on
    ensures Calls(server, wanted, Reading, old(server.kv), visits, PhaseOf(outcome), server.kv)
    // the verdict is the one on what is stored
    ensures OthersKeepConfig(server) && !outcome.CallError? ==>
      ConfigKey in server.kv && outcome == Verdict(server.kv[ConfigKey], wanted)
    ensures OthersKeepConfig(server) ==>
      match outcome
      case Fine => server.kv[ConfigKey].Decodable? && server.kv[ConfigKey].config.network == wanted.network
      case WrongNetwork(found) =>
        server.kv[ConfigKey].Decodable? && server.kv[ConfigKey].config.network == found && found != wanted.network
      case BadContent => server.kv[ConfigKey].Undecodable?
      case CallError => true
    ensures OthersKeepConfig(server) && ConfigKey in old(server.kv) ==>
      ConfigKey in server.kv && server.kv[ConfigKey] == old(server.kv)[ConfigKey]
    ensures server.reliable ==> !outcome.CallError?
    ensures server.Quiet() ==>
      server.kv == if ConfigKey in old(server.kv) then old(server.kv)
                   else old(server.kv)[ConfigKey := Decodable(wanted)]
  {
    outcome, visits := MakeCalls(server, wanted);
    if OthersKeepConfig(server) {
      CallsKeepConfig(server, wanted, Reading, old(server.kv), visits, PhaseOf(outcome), server.kv);
    }
    if server.Quiet() {
      UndisturbedCalls(server, wanted, Reading, old(server.kv), visits, PhaseOf(outcome), server.kv);
    }
  }

  /** If the others keep the configuration, the calls find it, or create it, and keep it. */
  lemma {:induction false} CallsKeepConfig(
    server: Server<ConfigKey, Content>, wanted: Config, phase: Phase, before: Contents, visits: seq<Visit>, end: Phase,
    after: Contents)
    requires Calls(server, wanted, phase, before, visits, end, after) && OthersKeepConfig(server)
    requires phase.Rereading? || phase.Succeeded? || phase.Errored? ==> ConfigKey in before
    ensures ConfigKey in before ==> ConfigKey in after && after[ConfigKey] == before[ConfigKey]
    ensures !end.Broken? ==> ConfigKey in after
    decreases |visits|
  {
    if visits != [] {
      var v := visits[0];
      CallsKeepConfig(server, wanted, TurnAfter(wanted, phase, v).phase, Left(wanted, phase, v), visits[1..], end,
        after);
    }
  }

  lemma {:induction false} UndisturbedCalls(
    server: Server<ConfigKey, Content>, wanted: Config, phase: Phase, before: Contents, visits: seq<Visit>, end: Phase,
    after: Contents)
    requires Calls(server, wanted, phase, before, visits, end, after) && server.Quiet()
    requires if phase.Creating? then ConfigKey !in before else phase.Reading? || ConfigKey in before
    ensures after == if ConfigKey in before then before else before[ConfigKey := Decodable(wanted)]
    decreases |visits|
  {
    if visits != [] {
      var v := visits[0];
      assert v.met == before && !v.failed;
      UndisturbedCalls(server, wanted, TurnAfter(wanted, phase, v).phase, Left(wanted, phase, v), visits[1..], end,
        after);
    }
  }

  lemma OneCall(
    server: Server<ConfigKey, Content>, wanted: Config, phase: Phase, before: Contents, v: Visit, rest: seq<Visit>,
    end: Phase, after: Contents)
    requires !Ended(phase) && server.rely(before, v.met) && (v.failed ==> !server.reliable)
    requires Calls(server, wanted, TurnAfter(wanted, phase, v).phase, Left(wanted, phase, v), rest, end, after)
    ensures Calls(server, wanted, phase, before, [v] + rest, end, after)
  {
    assert ([v] + rest)[1..] == rest;
  }

  /** The outcome, in terms of what the last call left. */
  predicate Concludes(wanted: Config, outcome: Outcome, kv: Contents) {
    outcome.CallError? || outcome == if ConfigKey in kv then Verdict(kv[ConfigKey], wanted) else Fine
  }

  method MakeCalls(server: Server<ConfigKey, Content>, wanted: Config)
    returns (outcome: Outcome, ghost visits: seq<Visit>)
    requires server.Valid()
    modifies server
    ensures Calls(server, wanted, Reading, old(server.kv), visits, PhaseOf(outcome), server.kv)
    ensures Concludes(wanted, outcome, server.kv) && (server.reliable ==> !outcome.CallError?)
  {
    var contents := server.Read();
    ghost var reading := Visit(server.kv, contents.None?, false);
    ghost var rest := [];
    assert Left(wanted, Reading, reading) == server.kv;
    if contents.None? {
      outcome := CallError;
    } else if ConfigKey in contents.value {
      outcome := Verdict(contents.value[ConfigKey], wanted);
    } else {
      outcome, rest := CreateOrReread(server, wanted);
    }
    visits := [reading] + rest;
    OneCall(server, wanted, Reading, old(server.kv), reading, rest, PhaseOf(outcome), server.kv);
  }

  method CreateOrReread(server: Server<ConfigKey, Content>, wanted: Config)
    returns (outcome: Outcome, ghost visits: seq<Visit>)
    requires server.Valid()
    modifies server
    ensures Calls(server, wanted, Creating, old(server.kv), visits, PhaseOf(outcome), server.kv)
    ensures Concludes(wanted, outcome, server.kv) && (server.reliable ==> !outcome.CallError?)
  {
    var txn := Txn([Absent(ConfigKey)], map[ConfigKey := Decodable(wanted)], {});
    var reply, at := server.Commit(txn);
    assert Holds(at, txn.guards[0]) <==> Passes(at, txn);
    ghost var creating := Visit(at, reply.Failed?, server.kv == After(at, txn));
    ghost var rest := [];
    assert Left(wanted, Creating, creating) == server.kv;
    if reply.Failed? {
      outcome := CallError;
    } else if reply.succeeded {
      outcome := Fine;
    } else {
      outcome, rest := Reread(server, wanted);
    }
    visits := [creating] + rest;
    OneCall(server, wanted, Creating, old(server.kv), creating, rest, PhaseOf(outcome), server.kv);
  }

  method Reread(server: Server<ConfigKey, Content>, wanted: Config)
    returns (outcome: Outcome, ghost visits: seq<Visit>)
    requires server.Valid()
    modifies server
    ensures Calls(server, wanted, Rereading, old(server.kv), visits, PhaseOf(outcome), server.kv)
    ensures Concludes(wanted, outcome, server.kv) && (server.reliable ==> !outcome.CallError?)
  {
    var contents := server.Read();
    ghost var rereading := Visit(server.kv, contents.None?, false);
    assert Left(wanted, Rereading, rereading) == server.kv;
    outcome :=
      if contents.None? then CallError
      else if ConfigKey in contents.value then Verdict(contents.value[ConfigKey], wanted)
      else Fine;
    visits := [rereading];
    assert visits == [rereading] + [];
    OneCall(server, wanted, Rereading, old(server.kv), rereading, [], PhaseOf(outcome), server.kv);
  }

  function Verdict(found: Content, wanted: Config): (o: Outcome)
    ensures o.Fine? <==> Matches(wanted, found)
    ensures PhaseOf(o) == Compare(wanted, found)
  {
    if found.Undecodable? then BadContent
    else if found.config.network == wanted.network then Fine
    else WrongNetwork(found.config.network)
  }
}
