/**
  What a message uses, exactly: the amounts its actions take, the state gas that the
  reservoir lacks and what its children use, less their stipends; all of the limit when it
  ends in an error other than a revert.
*/
module EvmSpending {
  import opened Wrappers
  import opened EvmTypes
  import opened EvmStateManager
  import opened EvmFrames
  import opened EvmEffects

  /** The part of a state charge that the reservoir does not cover. */
  function Shortfall(amount: nat, reservoir: int): int {
    if reservoir <= 0 then amount else if amount <= reservoir then 0 else amount - reservoir
  }

  /** A beneficiary that has to be created. */
  predicate NewBeneficiary(env: Env, to: Addr, st: State, amount: int) {
    to != env.address && IsEmpty(AccountOf(st, to)) && amount > 0
  }

  /** What one action takes from the gas left. */
  function Cost(p: Params, action: Action, env: Env, s: Sys, l: Local): int {
    match action
    case UseGas(amount) => amount
    case ChargeStateGas(amount) => Shortfall(amount, s.reservoir)
    case Call(_, _, _, _, _, _) => CallCost(p, action, env, s, l)
    case Create(_, _, _, _, _, _) => CreateCost(p, action, env, s, l)
    case SelfDestruct(to) =>
      if !NewBeneficiary(env, to, s.world.state, l.contract.balance) then 0
      else Shortfall(p.newAccountStateGas, s.reservoir)
    case _ => 0
  }

  /** What the child uses, if there is one, less the stipend that comes with value. */
  function CallCost(p: Params, call: Action, env: Env, s: Sys, l: Local): int
    requires call.Call?
  {
    var m := MessageOf(call, env, l);
    var at := Stipend(m, call, env, s, l);
    if call.kind.Plain? && env.isStatic && call.value != 0 then 0
    else
      (if env.depth >= p.stackLimit || (!call.kind.DelegateCall? && l.contract.balance < m.value) then 0
       else RunCall(p, m, call.script, Fitting(m, at.0, at.1)).1.gasUsed)
      - (if call.value != 0 && (call.kind.Plain? || call.kind.CallCode?) then call.stipend else 0)
  }

  /** The state gas for the new account, and what the child uses, if there is one. */
  function CreateCost(p: Params, create: Action, env: Env, s: Sys, l: Local): int
    requires create.Create?
  {
    var charged := ChargeState(s, l, p.newAccountStateGas);
    var at := Nonced(env, charged.0, charged.1);
    var m := MessageOf(create, env, at.1);
    Shortfall(p.newAccountStateGas, s.reservoir)
    + (if !MayCreate(p, create, env, l) || create.initSize > p.maxInitCodeSize then 0
       else RunCall(p, m, create.script, Fitting(m, at.0, at.1)).1.gasUsed)
  }

  /** What the actions that are run of a script take together. */
  function Spent(p: Params, script: seq<Action>, env: Env, s: Sys, l: Local): int
  {
    if script == [] then 0
    else
      var before := Run(p, script[..|script|-1], env, s, l);
      Spent(p, script[..|script|-1], env, s, l)
      + (if Ended(before.1) then 0 else Cost(p, script[|script|-1], env, before.0, before.1))
  }

  predicate Orderly(err: Option<Err>) {
    err.None? || err == Some(Reverted)
  }

  lemma StepSpends(p: Params, action: Action, env: Env, s: Sys, l: Local)
    requires !Ended(l) && Orderly(Step(p, action, env, s, l).1.err)
    ensures Step(p, action, env, s, l).1.gasLeft == l.gasLeft - Cost(p, action, env, s, l)
  {
    match action
    case Call(_, _, _, _, _, _) => CallSpends(p, action, env, s, l);
    case Create(_, _, _, _, _, _) => CreateSpends(p, action, env, s, l);
    case _ =>
  }

  lemma CallSpends(p: Params, call: Action, env: Env, s: Sys, l: Local)
    requires call.Call? && !Ended(l) && Orderly(CallStep(p, call, env, s, l).1.err)
    ensures CallStep(p, call, env, s, l).1.gasLeft == l.gasLeft - CallCost(p, call, env, s, l)
  {
  }

  lemma CreateSpends(p: Params, create: Action, env: Env, s: Sys, l: Local)
    requires create.Create? && !Ended(l) && Orderly(CreateStep(p, create, env, s, l).1.err)
    ensures CreateStep(p, create, env, s, l).1.gasLeft == l.gasLeft - CreateCost(p, create, env, s, l)
  {
    var charged := ChargeState(s, l, p.newAccountStateGas);
    assert charged.1.gasLeft == l.gasLeft - Shortfall(p.newAccountStateGas, s.reservoir);
  }

  /** Until it ends without error or in a revert, a script has taken what its actions cost. */
  lemma {:induction false} RunSpends(p: Params, script: seq<Action>, env: Env, s: Sys, l: Local)
    requires l.err.None? && Orderly(Run(p, script, env, s, l).1.err)
    ensures Run(p, script, env, s, l).1.gasLeft == l.gasLeft - Spent(p, script, env, s, l)
  {
    if script != [] {
      var init := script[..|script|-1];
      var before := Run(p, init, env, s, l);
      RunSpends(p, init, env, s, l);
      if !Ended(before.1) {
        StepSpends(p, script[|script|-1], env, before.0, before.1);
      }
    }
  }

  // ----- messages -----

  /** A frame as it starts. */
  function Fresh(m: Message, s: Sys): Local {
    Local(m.limit, BalanceHolder(s, m.to), m.created, false, None)
  }

  /** A frame uses what its script spent, or all of its limit after an error other than a revert. */
  lemma FrameUses(p: Params, m: Message, script: seq<Action>, s: Sys)
    ensures var r := RunInterpreter(p, m, script, s).1;
            r.gasUsed == if Orderly(r.err) then Spent(p, script, EnvOf(m), s, Fresh(m, s)) else m.limit
  {
    var l := Run(p, script, EnvOf(m), s, Fresh(m, s)).1;
    if Orderly(l.err) { RunSpends(p, script, EnvOf(m), s, Fresh(m, s)); }
  }

  /** A call uses what its frame does, and nothing without code or when its transfer fails. */
  lemma CallUses(p: Params, m: Message, script: seq<Action>, s: Sys)
    requires !m.isCreate
    ensures var r, t := RunCall(p, m, script, s).1, Transfer(p, m, BeforeCheckpoint(m, s));
            r.gasUsed == if script == [] || t.1.Some? then 0
                         else if Orderly(r.err) then Spent(p, script, EnvOf(m), t.0, Fresh(m, t.0))
                         else m.limit
  {
    FrameUses(p, m, script, Transfer(p, m, BeforeCheckpoint(m, s)).0);
  }

  /** A creation that succeeds uses what its frame does and the cost of the deposit. */
  lemma CreationUses(p: Params, m: Message, script: seq<Action>, s: Sys)
    requires m.isCreate && script != [] && RunCall(p, m, script, s).1.err.None?
    ensures var b, f := CreationStart(p, m, s), CreationFrame(p, m, script, s);
            RunCall(p, m, script, s).1.gasUsed ==
            Spent(p, script, EnvOf(m), b, Fresh(Named(m), b)) + DepositCost(p, m, f.0.reservoir)
  {
    CreationDeploys(p, m, script, s);
    FrameUses(p, Named(m), script, CreationStart(p, m, s));
  }

  // ----- scripts that only use gas -----

  predicate Plain(action: Action) {
    action.UseGas? || action.ChargeStateGas? || action.RefillStateGas? || action.WarmAddress? || action.WarmSlot?
  }

  predicate Straight(script: seq<Action>) {
    forall i :: 0 <= i < |script| ==> Plain(script[i])
  }

  /** What is left of the reservoir once the charges and refills of a script are made. */
  function Left(script: seq<Action>, reservoir: int): int {
    if script == [] then reservoir
    else
      var before := Left(script[..|script|-1], reservoir);
      match script[|script|-1]
      case ChargeStateGas(amount) => before - (amount - Shortfall(amount, before))
      case RefillStateGas(amount) => before + amount
      case _ => before
  }

  /** What its uses and the uncovered parts of its charges add up to. */
  function Drawn(script: seq<Action>, reservoir: int): (r: nat)
  {
    if script == [] then 0
    else
      var init := script[..|script|-1];
      Drawn(init, reservoir) +
      match script[|script|-1]
      case UseGas(amount) => amount
      case ChargeStateGas(amount) => Shortfall(amount, Left(init, reservoir))
      case _ => 0
  }

  /** The state gas that its charges and refills count as used. */
  function Used(script: seq<Action>): int {
    if script == [] then 0
    else
      Used(script[..|script|-1]) +
      match script[|script|-1]
      case ChargeStateGas(amount) => amount
      case RefillStateGas(amount) => 0 - amount
      case _ => 0
  }

  /** It gets to its end exactly if the gas suffices for all of it, and has then used just that. */
  lemma {:induction false} StraightRun(p: Params, script: seq<Action>, env: Env, s: Sys, l: Local)
    requires Straight(script) && !Ended(l) && l.gasLeft >= 0
    ensures var r, drawn := Run(p, script, env, s, l), Drawn(script, s.reservoir);
            if drawn <= l.gasLeft then
              && r.1 == l.(gasLeft := l.gasLeft - drawn)
              && r.0.reservoir == Left(script, s.reservoir) && r.0.used == s.used + Used(script)
            else r.1.err == Some(OutOfGas)
  {
    if script != [] {
      StraightRun(p, script[..|script|-1], env, s, l);
    }
  }

  /** So a call of such a script uses the sum, or its whole limit when that is less. */
  lemma StraightCall(p: Params, m: Message, script: seq<Action>, s: Sys)
    requires !m.isCreate && script != [] && Straight(script) && Transfer(p, m, BeforeCheckpoint(m, s)).1.None?
    ensures var r, drawn := RunCall(p, m, script, s).1, Drawn(script, s.reservoir);
            && (r.err.None? <==> drawn <= m.limit)
            && r.gasUsed == if drawn <= m.limit then drawn else m.limit
  {
    var t := Transfer(p, m, BeforeCheckpoint(m, s)).0;
    assert t.reservoir == s.reservoir;
    assert RunCall(p, m, script, s).1.gasUsed == RunInterpreter(p, m, script, t).1.gasUsed;
    assert RunCall(p, m, script, s).1.err == RunInterpreter(p, m, script, t).1.err;
    StraightRun(p, script, EnvOf(m), t, Fresh(m, t));
  }
}
