/**
  Gas over every tree of message frames: execution gas stays within each frame's limit, so
  paying for a finished child never runs out, and the state-gas reservoir and the used
  counter together grow by exactly what state charges took from gas left.
*/
module EvmGas {
  import opened Wrappers
  import opened EvmTypes
  import opened EvmStateManager
  import opened EvmFrames

  // ----- execution gas -----

  /** As long as every stipend and child limit fitted, gas left is within the limit. */
  predicate GasKept(env: Env, s: Sys, s': Sys, l': Local) {
    && l'.gasLeft >= 0
    && (s'.audit.fits ==> s.audit.fits && l'.gasLeft <= env.limit)
  }

  lemma {:induction false} RunGas(p: Params, script: seq<Action>, env: Env, s: Sys, l: Local)
    requires 0 <= l.gasLeft <= env.limit
    ensures var r := Run(p, script, env, s, l); GasKept(env, s, r.0, r.1)
    decreases script, 3
  {
    if script != [] {
      RunGas(p, script[..|script|-1], env, s, l);
      var before := Run(p, script[..|script|-1], env, s, l);
      if !Ended(before.1) {
        StepGas(p, script[|script|-1], env, before.0, before.1);
      }
    }
  }

  lemma {:induction false} StepGas(p: Params, action: Action, env: Env, s: Sys, l: Local)
    requires l.gasLeft >= 0 && (s.audit.fits ==> l.gasLeft <= env.limit)
    ensures var r := Step(p, action, env, s, l); GasKept(env, s, r.0, r.1)
    decreases action, 9
  {
    match action
    case Call(_, _, _, _, _, _) =>
      var m := MessageOf(action, env, l);
      var at := Stipend(m, action, env, s, l);
      MessageGas(p, m, action.script, Fitting(m, at.0, at.1));
    case Create(_, _, _, _, _, _) =>
      var charged := ChargeState(s, l, p.newAccountStateGas);
      if charged.1.err.None? && !env.isStatic {
        CreateGas(p, action, env, charged.0, charged.1);
      }
    case _ =>
  }

  lemma {:induction false} CreateGas(p: Params, action: Action, env: Env, s: Sys, l: Local)
    requires action.Create? && l.gasLeft >= 0 && (s.audit.fits ==> l.gasLeft <= env.limit)
    ensures var r := CreateChild(p, action, env, s, l); GasKept(env, s, r.0, r.1)
    decreases action, 7
  {
    var at := Nonced(env, s, l);
    var m := MessageOf(action, env, at.1);
    MessageGas(p, m, action.script, Fitting(m, at.0, at.1));
  }

  /** No message uses more than its whole limit; nor less than nothing while all limits fitted. */
  lemma {:induction false} MessageGas(p: Params, m: Message, script: seq<Action>, s: Sys)
    ensures var r := RunCall(p, m, script, s); GasUsed(m, s, r.0, r.1)
    decreases script, 6
  {
    var snap := BeforeCheckpoint(m, s);
    if m.isCreate {
      CreatedGas(p, m, script, snap);
    } else if script != [] {
      FrameGas(p, m, script, Transfer(p, m, snap).0);
    }
  }

  predicate GasUsed(m: Message, s: Sys, s': Sys, r: CallResult) {
    r.gasUsed <= m.limit && (s'.audit.fits ==> s.audit.fits && 0 <= r.gasUsed)
  }

  lemma {:induction false} CreatedGas(p: Params, m: Message, script: seq<Action>, s: Sys)
    ensures var r := ExecuteCreate(p, m, script, s); GasUsed(m, s, r.0, r.1)
    decreases script, 5
  {
    var a := ReduceSender(m, s);
    var m1 := m.(created := m.created + {m.to});
    var target := BalanceHolder(a.0, m.to);
    var b := Endow(p, m1, target, a.0);
    if script != [] {
      FrameGas(p, m1, script, b.0);
      var r := RunInterpreter(p, m1, script, b.0);
      DepositGas(p, m1, b.0, r.0, r.1);
    }
  }

  lemma DepositGas(p: Params, m: Message, s0: Sys, s: Sys, r: CallResult)
    requires GasUsed(m, s0, s, r)
    ensures var d := Deposit(p, m, s, r); GasUsed(m, s0, d.0, d.1)
  {
  }

  lemma {:induction false} FrameGas(p: Params, m: Message, script: seq<Action>, s: Sys)
    ensures var r := RunInterpreter(p, m, script, s); GasUsed(m, s, r.0, r.1)
    decreases script, 4
  {
    RunGas(p, script, EnvOf(m), s, Local(m.limit, BalanceHolder(s, m.to), m.created, false, None));
  }

  // ----- state gas -----

  /** Both state-gas counters together. */
  function StateGas(s: Sys): int {
    s.reservoir + s.used
  }

  /** While no frame ended inside a charge or a static violation, growth is what was spilled. */
  predicate Conserved(s: Sys, s': Sys) {
    && s'.reservoir >= 0
    && (s'.audit.clean ==>
          && s.audit.clean && s'.audit.spilled >= s.audit.spilled
          && StateGas(s') - StateGas(s) == s'.audit.spilled - s.audit.spilled)
  }

  /** Between the start of a frame and a later point of it. */
  predicate FrameConserves(s: Sys, s': Sys, err: Option<Err>) {
    && Conserved(s, s')
    && (err.None? ==> StateGas(s') >= StateGas(s))
    && (err == Some(StaticStateChange) ==> !s'.audit.clean)
  }

  lemma {:induction false} RunStateGas(p: Params, script: seq<Action>, env: Env, s: Sys, l: Local)
    requires s.reservoir >= 0 && l.err.None?
    ensures var r := Run(p, script, env, s, l); FrameConserves(s, r.0, r.1.err)
    decreases script, 3
  {
    if script != [] {
      RunStateGas(p, script[..|script|-1], env, s, l);
      var before := Run(p, script[..|script|-1], env, s, l);
      if !Ended(before.1) {
        StepStateGas(p, script[|script|-1], env, before.0, before.1);
      }
    }
  }

  lemma {:induction false} StepStateGas(p: Params, action: Action, env: Env, s: Sys, l: Local)
    requires s.reservoir >= 0 && l.err.None?
    ensures var r := Step(p, action, env, s, l); FrameConserves(s, r.0, r.1.err)
    decreases action, 9
  {
    match action
    case Call(_, _, _, _, _, _) => CallStateGas(p, action, env, s, l);
    case Create(_, _, _, _, _, _) =>
      ChargeStateGas(s, l, p.newAccountStateGas);
      var charged := ChargeState(s, l, p.newAccountStateGas);
      if charged.1.err.None? && !env.isStatic {
        CreateStateGas(p, action, env, charged.0, charged.1);
      }
    case SelfDestruct(to) =>
      ChargeStateGas(PaidOut(env, to, l.contract.balance, s), l, p.newAccountStateGas);
    case ChargeStateGas(amount) => ChargeStateGas(s, l, amount);
    case _ =>
  }

  lemma ChargeStateGas(s: Sys, l: Local, amount: nat)
    requires s.reservoir >= 0 && l.err.None?
    ensures var c := ChargeState(s, l, amount); FrameConserves(s, c.0, c.1.err)
  {
  }

  lemma {:induction false} CallStateGas(p: Params, action: Action, env: Env, s: Sys, l: Local)
    requires action.Call? && s.reservoir >= 0 && l.err.None?
    ensures var r := CallStep(p, action, env, s, l); FrameConserves(s, r.0, r.1.err)
    decreases action, 8
  {
    var m := MessageOf(action, env, l);
    var at := Stipend(m, action, env, s, l);
    MessageStateGas(p, m, action.script, Fitting(m, at.0, at.1));
  }

  lemma {:induction false} CreateStateGas(p: Params, action: Action, env: Env, s: Sys, l: Local)
    requires action.Create? && s.reservoir >= 0 && l.err.None?
    ensures var r := CreateChild(p, action, env, s, l); FrameConserves(s, r.0, r.1.err)
    decreases action, 7
  {
    var at := Nonced(env, s, l);
    var m := MessageOf(action, env, at.1);
    MessageStateGas(p, m, action.script, Fitting(m, at.0, at.1));
  }

  /** Across a completed frame the counters never drop, and grow by exactly what was spilled. */
  lemma {:induction false} MessageStateGas(p: Params, m: Message, script: seq<Action>, s: Sys)
    requires s.reservoir >= 0
    ensures var s' := RunCall(p, m, script, s).0; Conserved(s, s') && StateGas(s') >= StateGas(s)
    decreases script, 6
  {
    var snap := BeforeCheckpoint(m, s);
    if m.isCreate {
      CreatedStateGas(p, m, script, snap);
      var r := ExecuteCreate(p, m, script, snap);
      if r.1.err.Some? { FailedStateGas(p, m, snap, r.0, r.1.err.value); }
    } else {
      CalledStateGas(p, m, script, snap);
      var r := ExecuteCall(p, m, script, snap);
      if r.1.err.Some? { FailedStateGas(p, m, snap, r.0, r.1.err.value); }
    }
  }

  /**
    A failed message counts nothing as used, and takes back the charge for a new account; what it
    spilled is in the reservoir again when no frame ended in a static violation or inside a charge.
  */
  lemma FailedCounters(p: Params, m: Message, script: seq<Action>, s: Sys)
    requires s.reservoir >= 0 && RunCall(p, m, script, s).1.err.Some?
    ensures var s', refund := RunCall(p, m, script, s).0, if m.isCreate then p.newAccountStateGas else 0;
            && s'.used == s.used - refund
            && (s'.audit.clean ==> s'.reservoir == s.reservoir + refund + s'.audit.spilled - s.audit.spilled)
  {
    MessageStateGas(p, m, script, s);
  }

  lemma FailedStateGas(p: Params, m: Message, snap: Sys, now: Sys, e: Err)
    requires snap.reservoir >= 0 && FrameConserves(snap, now, Some(e))
    ensures var s' := Failed(p, m, snap, now, e); Conserved(snap, s') && StateGas(s') >= StateGas(snap)
  {
  }

  lemma {:induction false} CalledStateGas(p: Params, m: Message, script: seq<Action>, s: Sys)
    requires s.reservoir >= 0
    ensures var r := ExecuteCall(p, m, script, s); FrameConserves(s, r.0, r.1.err)
    decreases script, 5
  {
    if script != [] {
      FrameStateGas(p, m, script, Transfer(p, m, s).0);
    }
  }

  lemma {:induction false} FrameStateGas(p: Params, m: Message, script: seq<Action>, s: Sys)
    requires s.reservoir >= 0
    ensures var r := RunInterpreter(p, m, script, s); FrameConserves(s, r.0, r.1.err)
    decreases script, 4
  {
    RunStateGas(p, script, EnvOf(m), s, Local(m.limit, BalanceHolder(s, m.to), m.created, false, None));
  }

  lemma {:induction false} CreatedStateGas(p: Params, m: Message, script: seq<Action>, s: Sys)
    requires s.reservoir >= 0
    ensures var r := ExecuteCreate(p, m, script, s); FrameConserves(s, r.0, r.1.err)
    decreases script, 5
  {
    var a := ReduceSender(m, s);
    var m1 := m.(created := m.created + {m.to});
    var target := BalanceHolder(a.0, m.to);
    var b := Endow(p, m1, target, a.0);
    if script != [] {
      FrameStateGas(p, m1, script, b.0);
      var r := RunInterpreter(p, m1, script, b.0);
      DepositStateGas(p, m1, b.0, r.0, r.1);
    }
  }

  lemma DepositStateGas(p: Params, m: Message, s0: Sys, s: Sys, r: CallResult)
    requires FrameConserves(s0, s, r.err)
    ensures var d := Deposit(p, m, s, r); FrameConserves(s0, d.0, d.1.err)
  {
  }
}
