/**
  How far a script reaches: the addresses whose slots it may write, at which it may put code,
  and whose accounts it may change, read off its tree of calls.  Everything else stays as it
  was, through every run.
*/
module EvmReach {
  import opened Wrappers
  import opened EvmTypes
  import opened EvmStateManager
  import opened EvmFrames
  import opened EvmEffects

  datatype Reach = Reach(written: set<Addr>, created: set<Addr>, parties: set<Addr>)

  const NOTHING := Reach({}, {}, {})

  function Joined(a: Reach, b: Reach): Reach {
    Reach(a.written + b.written, a.created + b.created, a.parties + b.parties)
  }

  /** By the actions of a script that runs at an address. */
  function ReachOf(script: seq<Action>, here: Addr): Reach
    decreases script, 1
  {
    if script == [] then NOTHING
    else Joined(ReachOf(script[..|script|-1], here), ActionReach(script[|script|-1], here))
  }

  /** A plain call reaches what its script does at the target, a call of other code what it does here. */
  function ActionReach(action: Action, here: Addr): Reach
    decreases action, 2
  {
    match action
    case StorageStore(_, _) => Reach({here}, {}, {})
    case TransientStore(_, _) => Reach({here}, {}, {})
    case Call(kind, target, _, _, _, script) =>
      (match kind
       case Plain => Joined(Reach({}, {}, {here, target}), ReachOf(script, target))
       case StaticCall => NOTHING
       case _ => ReachOf(script, here))
    case Create(at, _, _, _, script, _) => Joined(Reach({}, {at}, {here, at}), ReachOf(script, at))
    case SelfDestruct(to) => Reach({}, {}, {here, to})
    case _ => NOTHING
  }

  // ----- what stays -----

  predicate SameSlot(w: World, w': World, a: Addr, k: Bytes) {
    && ((a, k) in w'.state.storage <==> (a, k) in w.state.storage)
    && ((a, k) in w.state.storage ==> w'.state.storage[(a, k)] == w.state.storage[(a, k)])
    && ((a, k) in w'.transient <==> (a, k) in w.transient)
    && ((a, k) in w.transient ==> w'.transient[(a, k)] == w.transient[(a, k)])
  }

  predicate SameCode(w: World, w': World, a: Addr) {
    && (a in w'.state.code <==> a in w.state.code)
    && (a in w.state.code ==> w'.state.code[a] == w.state.code[a])
  }

  predicate SameAccount(w: World, w': World, a: Addr) {
    AccountIn(w'.state, a) == AccountIn(w.state, a)
  }

  /** Nothing beyond the reach has changed. */
  ghost predicate Within(r: Reach, w: World, w': World) {
    && (forall a, k :: a !in r.written ==> SameSlot(w, w', a, k))
    && (forall a :: a !in r.created ==> SameCode(w, w', a))
    && (forall a :: a !in r.parties ==> SameAccount(w, w', a))
  }

  lemma WithinJoined(a: Reach, b: Reach, w: World, w': World, w'': World)
    requires Within(a, w, w') && Within(b, w', w'')
    ensures Within(Joined(a, b), w, w'')
  {
    forall x, k | x !in a.written + b.written ensures SameSlot(w, w'', x, k) {
      assert SameSlot(w, w', x, k) && SameSlot(w', w'', x, k);
    }
  }

  /** To the same reach, and once more to a part of it. */
  lemma WithinAgain(a: Reach, b: Reach, w: World, w': World, w'': World)
    requires Within(Joined(a, b), w, w') && Within(a, w', w'')
    ensures Within(Joined(a, b), w, w'')
  {
    WithinJoined(Joined(a, b), a, w, w', w'');
    assert Joined(Joined(a, b), a) == Joined(a, b);
  }

  predicate Inside(a: Reach, b: Reach) {
    a.written <= b.written && a.created <= b.created && a.parties <= b.parties
  }

  lemma WithinLarger(a: Reach, b: Reach, w: World, w': World)
    requires Within(a, w, w') && Inside(a, b)
    ensures Within(b, w, w')
  {
  }

  lemma UntouchedWithin(r: Reach, w: World, w': World)
    requires Untouched(w, w')
    ensures Within(r, w, w')
  {
  }

  /** The created addresses only grow, and only by those in reach. */
  predicate Grown(r: Reach, created: set<Addr>, created': set<Addr>) {
    created <= created' <= created + r.created
  }

  // ----- every run -----

  /** A script changes nothing beyond its reach; without error the created addresses grow within it. */
  lemma {:induction false} RunWithin(p: Params, script: seq<Action>, env: Env, s: Sys, l: Local)
    requires l.err.None?
    ensures var r := Run(p, script, env, s, l); var reach := ReachOf(script, env.address);
            Within(reach, s.world, r.0.world) && (r.1.err.None? ==> Grown(reach, l.created, r.1.created))
    decreases script, 3
  {
    if script != [] {
      var init, action := script[..|script|-1], script[|script|-1];
      RunWithin(p, init, env, s, l);
      var before := Run(p, init, env, s, l);
      if !Ended(before.1) {
        StepWithin(p, action, env, before.0, before.1);
        WithinJoined(ReachOf(init, env.address), ActionReach(action, env.address),
                     s.world, before.0.world, Step(p, action, env, before.0, before.1).0.world);
      }
    }
  }

  lemma {:induction false} StepWithin(p: Params, action: Action, env: Env, s: Sys, l: Local)
    requires l.err.None?
    ensures var r := Step(p, action, env, s, l); var reach := ActionReach(action, env.address);
            Within(reach, s.world, r.0.world) && (r.1.err.None? ==> Grown(reach, l.created, r.1.created))
    decreases action, 9
  {
    match action
    case Call(_, _, _, _, _, _) => CallWithin(p, action, env, s, l);
    case Create(_, _, _, _, _, _) => CreateWithin(p, action, env, s, l);
    case SelfDestruct(to) => SelfDestructWithin(p, env, to, s, l);
    case _ =>
  }

  lemma {:induction false} CallWithin(p: Params, action: Action, env: Env, s: Sys, l: Local)
    requires l.err.None? && action.Call?
    ensures var r := CallStep(p, action, env, s, l); var reach := ActionReach(action, env.address);
            Within(reach, s.world, r.0.world) && (r.1.err.None? ==> Grown(reach, l.created, r.1.created))
    decreases action, 8
  {
    if IsStaticCall(action) {
      StaticStep(p, action, env, s, l);
      UntouchedWithin(NOTHING, s.world, CallStep(p, action, env, s, l).0.world);
    } else {
      var m := MessageOf(action, env, l);
      var at := Stipend(m, action, env, s, l);
      MessageWithin(p, m, action.script, Fitting(m, at.0, at.1));
      CallReach(action, env, l);
      WithinLarger(MessageReach(m, action.script), ActionReach(action, env.address), s.world,
                   CallStep(p, action, env, s, l).0.world);
    }
  }

  /** A call's message reaches what the call does. */
  lemma CallReach(action: Action, env: Env, l: Local)
    requires action.Call? && !IsStaticCall(action)
    ensures Inside(MessageReach(MessageOf(action, env, l), action.script), ActionReach(action, env.address))
  {
  }

  lemma {:induction false} CreateWithin(p: Params, action: Action, env: Env, s: Sys, l: Local)
    requires l.err.None? && action.Create?
    ensures var r := CreateStep(p, action, env, s, l); var reach := ActionReach(action, env.address);
            Within(reach, s.world, r.0.world) && (r.1.err.None? ==> Grown(reach, l.created, r.1.created))
    decreases action, 8
  {
    var charged := ChargeState(s, l, p.newAccountStateGas);
    if charged.1.err.None? && !env.isStatic {
      CreateChildWithin(p, action, env, charged.0, charged.1);
    }
  }

  lemma {:induction false} CreateChildWithin(p: Params, action: Action, env: Env, s: Sys, l: Local)
    requires l.err.None? && action.Create?
    ensures var r := CreateChild(p, action, env, s, l); var reach := ActionReach(action, env.address);
            Within(reach, s.world, r.0.world) && (r.1.err.None? ==> Grown(reach, l.created, r.1.created))
    decreases action, 7
  {
    var at := Nonced(env, s, l);
    var m := MessageOf(action, env, at.1);
    var s1, own := Fitting(m, at.0, at.1), Reach({}, {}, {env.address});
    assert Within(own, s.world, s1.world);
    MessageWithin(p, m, action.script, s1);
    WithinJoined(own, MessageReach(m, action.script), s.world, s1.world, RunCall(p, m, action.script, s1).0.world);
    assert Joined(own, MessageReach(m, action.script)) == ActionReach(action, env.address);
  }

  lemma SelfDestructWithin(p: Params, env: Env, to: Addr, s: Sys, l: Local)
    ensures var r := SelfDestructStep(p, env, to, s, l);
            Within(ActionReach(SelfDestruct(to), env.address), s.world, r.0.world) && r.1.created == l.created
  {
  }

  /** The two accounts of a message, the new one's code, and what its script does at the receiver. */
  function MessageReach(m: Message, script: seq<Action>): Reach {
    Joined(Parties(m), ReachOf(script, m.to))
  }

  function Parties(m: Message): Reach {
    Reach({}, if m.isCreate then {m.to} else {},
          if !m.isCreate && (m.delegatecall || m.caller == m.to) then {} else {m.caller, m.to})
  }

  /** An inner message changes nothing beyond its reach, whether it fails or not. */
  lemma {:induction false} MessageWithin(p: Params, m: Message, script: seq<Action>, s: Sys)
    requires m.depth > 0
    ensures var r := RunCall(p, m, script, s); var reach := MessageReach(m, script);
            Within(reach, s.world, r.0.world) && (r.1.err.None? ==> Grown(reach, m.created, r.1.created))
    decreases script, 6
  {
    var r := RunCall(p, m, script, s);
    if r.1.err.Some? {
      FailedMessage(p, m, script, s);
    } else if m.isCreate {
      CreatedWithin(p, m, script, s);
    } else {
      assert BeforeCheckpoint(m, s) == s;
      CalledWithin(p, m, script, s);
    }
  }

  lemma {:induction false} CalledWithin(p: Params, m: Message, script: seq<Action>, s: Sys)
    requires m.depth > 0 && !m.isCreate
    ensures var r := ExecuteCall(p, m, script, s); var reach := MessageReach(m, script);
            r.1.err.None? ==> Within(reach, s.world, r.0.world) && Grown(reach, m.created, r.1.created)
    decreases script, 5
  {
    TransferMoves(p, m, s);
    var t := Transfer(p, m, s);
    if t.1.None? {
      assert Within(Parties(m), s.world, t.0.world);
      if script != [] {
        InterpreterWithin(p, m, script, t.0);
        WithinJoined(Parties(m), ReachOf(script, m.to), s.world, t.0.world,
                     RunInterpreter(p, m, script, t.0).0.world);
      }
    }
  }

  lemma {:induction false} InterpreterWithin(p: Params, m: Message, script: seq<Action>, s: Sys)
    ensures var r := RunInterpreter(p, m, script, s); var reach := ReachOf(script, m.to);
            Within(reach, s.world, r.0.world) && (r.1.err.None? ==> Grown(reach, m.created, r.1.created))
    decreases script, 4
  {
    RunWithin(p, script, EnvOf(m), s, Local(m.limit, BalanceHolder(s, m.to), m.created, false, None));
  }

  lemma {:induction false} CreatedWithin(p: Params, m: Message, script: seq<Action>, s: Sys)
    requires m.depth > 0 && m.isCreate && RunCall(p, m, script, s).1.err.None?
    ensures var r := RunCall(p, m, script, s); var reach := MessageReach(m, script);
            Within(reach, s.world, r.0.world) && Grown(reach, m.created, r.1.created) && m.to in r.1.created
    decreases script, 5
  {
    if script == [] {
      EmptyCreation(p, m, s);
    } else {
      var b, f, r := CreationStart(p, m, s), CreationFrame(p, m, script, s), RunCall(p, m, script, s);
      CreationDeploys(p, m, script, s);
      StartWithin(p, m, s);
      InterpreterWithin(p, Named(m), script, b);
      WithinJoined(Parties(m), ReachOf(script, m.to), s.world, b.world, f.0.world);
      DeployedWithin(m, f.0.world, r.0.world);
      WithinAgain(Parties(m), ReachOf(script, m.to), s.world, f.0.world, r.0.world);
      CreationResult(p, m, script, s);
    }
  }

  lemma StartWithin(p: Params, m: Message, s: Sys)
    requires m.depth > 0 && CreationRuns(p, m, s)
    ensures Within(Parties(m), s.world, CreationStart(p, m, s).world)
  {
    CreationStarts(p, m, s);
  }

  lemma DeployedWithin(m: Message, w: World, w': World)
    requires m.isCreate && w'.transient == w.transient && Deployed(w.state, w'.state, m.to, m.deployed)
    ensures Within(Parties(m), w, w')
  {
  }

  lemma CreationResult(p: Params, m: Message, script: seq<Action>, s: Sys)
    requires m.isCreate && script != [] && RunCall(p, m, script, s).1.err.None? && CreationRuns(p, m, s)
    ensures RunCall(p, m, script, s).1.created == CreationFrame(p, m, script, s).1.created
  {
  }
}
