/**
  Warm addresses and slots over every tree of frames: what is warm stays warm, a failed
  message gives back what was warm at its checkpoint, and the address of a creation is warm
  afterwards even when the creation fails.
*/
module EvmWarmth {
  import opened Wrappers
  import opened EvmTypes
  import opened EvmJournal
  import opened EvmFrames

  /** Whatever is warm in the first is so in the second. */
  ghost predicate Warmer(w: World, w': World) {
    forall a :: a in w.warmth.journal ==> a in w'.warmth.journal && w.warmth.journal[a] <= w'.warmth.journal[a]
  }

  lemma {:induction false} RunWarms(p: Params, script: seq<Action>, env: Env, s: Sys, l: Local)
    ensures Warmer(s.world, Run(p, script, env, s, l).0.world)
    decreases script, 3
  {
    if script != [] {
      RunWarms(p, script[..|script|-1], env, s, l);
      var before := Run(p, script[..|script|-1], env, s, l);
      if !Ended(before.1) {
        StepWarms(p, script[|script|-1], env, before.0, before.1);
      }
    }
  }

  /** No step cools anything, and an address or slot that is warmed is warm. */
  lemma {:induction false} StepWarms(p: Params, action: Action, env: Env, s: Sys, l: Local)
    ensures var w := Step(p, action, env, s, l).0.world;
            && Warmer(s.world, w)
            && (action.WarmAddress? ==> action.addr in w.warmth.journal)
            && (action.WarmSlot? ==> action.addr in w.warmth.journal && action.key in w.warmth.journal[action.addr])
    decreases action, 9
  {
    match action
    case Call(_, _, _, _, _, _) =>
      var m := MessageOf(action, env, l);
      var at := Stipend(m, action, env, s, l);
      MessageWarms(p, m, action.script, Fitting(m, at.0, at.1));
    case Create(_, _, _, _, _, _) =>
      var charged := ChargeState(s, l, p.newAccountStateGas);
      var at := Nonced(env, charged.0, charged.1);
      var m := MessageOf(action, env, at.1);
      MessageWarms(p, m, action.script, Fitting(m, at.0, at.1));
      assert Warmer(s.world, CreateStep(p, action, env, s, l).0.world);
    case SelfDestruct(to) => assert Warmer(s.world, SelfDestructStep(p, env, to, s, l).0.world);
    case _ =>
  }

  /** A message cools nothing; it warms the address of a creation before its checkpoint. */
  lemma {:induction false} MessageWarms(p: Params, m: Message, script: seq<Action>, s: Sys)
    ensures var r := RunCall(p, m, script, s);
            && Warmer(s.world, r.0.world) && (m.isCreate ==> m.to in r.0.world.warmth.journal)
            && (r.1.err.Some? && !m.isCreate ==> r.0.world.warmth.journal == s.world.warmth.journal)
    decreases script, 6
  {
    var snap := BeforeCheckpoint(m, s);
    if RunCall(p, m, script, s).1.err.None? && script != [] {
      if m.isCreate {
        var a := ReduceSender(m, snap).0;
        var m1 := m.(created := m.created + {m.to});
        InterpreterWarms(p, m1, script, Endow(p, m1, BalanceHolder(a, m.to), a).0);
      } else {
        InterpreterWarms(p, m, script, Transfer(p, m, snap).0);
      }
    }
  }

  lemma {:induction false} InterpreterWarms(p: Params, m: Message, script: seq<Action>, s: Sys)
    ensures Warmer(s.world, RunInterpreter(p, m, script, s).0.world)
    decreases script, 4
  {
    RunWarms(p, script, EnvOf(m), s, Local(m.limit, BalanceHolder(s, m.to), m.created, false, None));
  }
}
