/**
  Paying for inner messages.  A parent pays what its child used with a charge that should
  always be safe; these lemmas say for which messages it is, whatever the child does, and
  what that means for the limits that call opcodes hand out.
*/
module EvmPayment {
  import opened Wrappers
  import opened EvmTypes
  import opened EvmJournal
  import opened EvmStateManager
  import opened EvmFrames
  import opened EvmGas
  import opened EvmEffects

  /** A call with another limit and another child. */
  function CallWith(call: Action, limit: nat, script: seq<Action>): Action
    requires call.Call?
  {
    Call(call.kind, call.target, call.value, limit, call.stipend, script)
  }

  function CreateWith(create: Action, script: seq<Action>): Action
    requires create.Create?
  {
    Create(create.at, create.value, create.limit, create.initSize, script, create.deployed)
  }

  // ----- calls -----

  /** The child of a call gets to run: no violation, depth and balance suffice, the transfer succeeds. */
  predicate CallEntered(p: Params, call: Action, env: Env, s: Sys, l: Local)
    requires call.Call?
  {
    var m := MessageOf(call, env, l);
    && !(call.kind.Plain? && env.isStatic && call.value != 0)
    && env.depth < p.stackLimit && (m.delegatecall || l.contract.balance >= m.value)
    && Transfer(p, m, s).1.None?
  }

  /** With this child the call makes its parent run out of gas. */
  predicate CallRunsOut(p: Params, call: Action, script: seq<Action>, env: Env, s: Sys, l: Local)
    requires call.Call?
  {
    CallStep(p, CallWith(call, call.limit, script), env, s, l).1.err == Some(OutOfGas)
  }

  lemma CallPaidWithinLimit(p: Params, call: Action, env: Env, s: Sys, l: Local)
    requires call.Call? && l.err.None? && l.gasLeft >= 0 && call.limit <= l.gasLeft
    ensures CallStep(p, call, env, s, l).1.err != Some(OutOfGas)
  {
    var m, at := MessageOf(call, env, l), Stipend(MessageOf(call, env, l), call, env, s, l);
    MessageGas(p, m, call.script, Fitting(m, at.0, at.1));
  }

  /** A child that does not get to run, or has no code, uses no gas. */
  lemma CallPaidUnlessRun(p: Params, call: Action, env: Env, s: Sys, l: Local)
    requires call.Call? && l.err.None? && l.gasLeft >= 0
    requires !CallEntered(p, call, env, s, l) || call.script == []
    ensures CallStep(p, call, env, s, l).1.err != Some(OutOfGas)
  {
    var m, at := MessageOf(call, env, l), Stipend(MessageOf(call, env, l), call, env, s, l);
    SameTransfer(p, m, s, Fitting(m, at.0, at.1));
    if Transfer(p, m, s).1.Some? || call.script == [] {
      CallNotRun(p, m, call.script, Fitting(m, at.0, at.1));
    }
  }

  lemma CallNotRun(p: Params, m: Message, script: seq<Action>, s: Sys)
    requires !m.isCreate && m.depth > 0 && (Transfer(p, m, s).1.Some? || script == [])
    ensures RunCall(p, m, script, s).1.gasUsed == 0
  {
  }

  /** Whether a transfer succeeds depends on the accounts alone. */
  lemma SameTransfer(p: Params, m: Message, s: Sys, s': Sys)
    requires s.world.state == s'.world.state
    ensures Transfer(p, m, s).1 == Transfer(p, m, s').1
  {
  }

  lemma HaltEnds(p: Params, env: Env, s: Sys, l: Local)
    requires !Ended(l)
    ensures Run(p, [Halt], env, s, l) == (s, Fail(l, Exceptional))
  {
    assert [Halt][..0] == [] && [Halt][0] == Halt;
    assert Run(p, [], env, s, l) == (s, l);
  }

  /** A child that fails at once uses its whole limit. */
  lemma CallHalts(p: Params, m: Message, s: Sys)
    requires !m.isCreate && m.depth > 0 && Transfer(p, m, s).1.None?
    ensures RunCall(p, m, [Halt], s).1 == CallResult(m.limit, Some(Exceptional), {})
  {
    var t := Transfer(p, m, s).0;
    HaltEnds(p, EnvOf(m), t, Local(m.limit, BalanceHolder(t, m.to), m.created, false, None));
  }

  /**
    No child makes the parent of a call run out of gas if and only if the child's limit fits
    in the parent's gas left, or the child does not get to run.
  */
  lemma CallPayment(p: Params, call: Action, env: Env, s: Sys, l: Local)
    requires call.Call? && l.err.None? && l.gasLeft >= 0
    ensures (forall script :: !CallRunsOut(p, call, script, env, s, l)) <==>
            call.limit <= l.gasLeft || !CallEntered(p, call, env, s, l)
  {
    if call.limit <= l.gasLeft || !CallEntered(p, call, env, s, l) {
      forall script ensures !CallRunsOut(p, call, script, env, s, l) {
        var c := CallWith(call, call.limit, script);
        assert CallEntered(p, c, env, s, l) == CallEntered(p, call, env, s, l);
        if call.limit <= l.gasLeft {
          CallPaidWithinLimit(p, c, env, s, l);
        } else {
          CallPaidUnlessRun(p, c, env, s, l);
        }
      }
    } else {
      CallOverruns(p, call, env, s, l);
      assert CallRunsOut(p, call, [Halt], env, s, l);
    }
  }

  lemma CallOverruns(p: Params, call: Action, env: Env, s: Sys, l: Local)
    requires call.Call? && l.err.None? && l.gasLeft < call.limit && CallEntered(p, call, env, s, l)
    ensures CallRunsOut(p, call, [Halt], env, s, l)
  {
    var c := CallWith(call, call.limit, [Halt]);
    var m := MessageOf(c, env, l);
    assert m == MessageOf(call, env, l);
    var at := Stipend(m, c, env, s, l);
    SameTransfer(p, m, s, Fitting(m, at.0, at.1));
    CallHalts(p, m, Fitting(m, at.0, at.1));
  }

  /** No child costs its parent more than the limit that was asked for, and one that fails at once costs just that. */
  lemma CallCosts(p: Params, call: Action, env: Env, s: Sys, l: Local)
    requires call.Call? && l.err.None? && 0 <= call.limit <= l.gasLeft
    ensures l.gasLeft - CallStep(p, call, env, s, l).1.gasLeft <= call.limit
    ensures CallEntered(p, call, env, s, l) ==>
              CallStep(p, CallWith(call, call.limit, [Halt]), env, s, l).1.gasLeft == l.gasLeft - call.limit
  {
    var m, at := MessageOf(call, env, l), Stipend(MessageOf(call, env, l), call, env, s, l);
    MessageGas(p, m, call.script, Fitting(m, at.0, at.1));
    if CallEntered(p, call, env, s, l) {
      assert MessageOf(CallWith(call, call.limit, [Halt]), env, l) == m;
      SameTransfer(p, m, s, Fitting(m, at.0, at.1));
      CallHalts(p, m, Fitting(m, at.0, at.1));
    }
  }

  // ----- creations -----

  /** The child of a creation gets to run, or finds its address taken, which uses its limit as well. */
  predicate CreateEntered(p: Params, create: Action, env: Env, s: Sys, l: Local)
    requires create.Create?
  {
    var at := Nonced(env, s, l);
    var m := MessageOf(create, env, at.1);
    var a := ReduceSender(m, at.0).0;
    var target := BalanceHolder(a, m.to);
    && env.depth < p.stackLimit && l.contract.balance >= create.value && l.contract.nonce < p.maxUint64
    && create.initSize <= p.maxInitCodeSize
    && (target.nonce > 0 || target.hasCode || target.hasStorage || target.balance + create.value <= p.maxInteger)
  }

  predicate CreateRunsOut(p: Params, create: Action, script: seq<Action>, env: Env, s: Sys, l: Local)
    requires create.Create?
  {
    CreateChild(p, CreateWith(create, script), env, s, l).1.err == Some(OutOfGas)
  }

  lemma CreatePaidWithinLimit(p: Params, create: Action, env: Env, s: Sys, l: Local)
    requires create.Create? && l.err.None? && l.gasLeft >= 0 && create.limit <= l.gasLeft
    ensures CreateChild(p, create, env, s, l).1.err != Some(OutOfGas)
  {
    var at := Nonced(env, s, l);
    var m := MessageOf(create, env, at.1);
    MessageGas(p, m, create.script, Fitting(m, at.0, at.1));
  }

  /** What running a creation comes to before its script: the refusal that uses no gas. */
  lemma CreateRefused(p: Params, m: Message, script: seq<Action>, s: Sys)
    requires m.isCreate && m.depth > 0 && BalanceHolder(s, m.caller).balance >= m.value
    requires m.initSize <= p.maxInitCodeSize
    requires var target := BalanceHolder(ReduceSender(m, s).0, m.to);
             target.nonce == 0 && !target.hasCode && !target.hasStorage && target.balance + m.value > p.maxInteger
    ensures RunCall(p, m, script, s).1.gasUsed == 0
  {
  }

  lemma CreatePaidUnlessRun(p: Params, create: Action, env: Env, s: Sys, l: Local)
    requires create.Create? && l.err.None? && l.gasLeft >= 0 && !CreateEntered(p, create, env, s, l)
    ensures CreateChild(p, create, env, s, l).1.err != Some(OutOfGas)
  {
    var at := Nonced(env, s, l);
    var m := MessageOf(create, env, at.1);
    var s1 := Fitting(m, at.0, at.1);
    if env.depth < p.stackLimit && l.contract.balance >= create.value && l.contract.nonce < p.maxUint64
      && create.initSize <= p.maxInitCodeSize {
      assert BalanceHolder(ReduceSender(m, s1).0, m.to) == BalanceHolder(ReduceSender(m, at.0).0, m.to);
      CreateRefused(p, m, create.script, s1);
    }
  }

  /** A creation that finds its address taken or fails at once uses its whole limit. */
  lemma CreateHalts(p: Params, m: Message, s: Sys)
    requires m.isCreate && m.depth > 0 && BalanceHolder(s, m.caller).balance >= m.value
    requires m.initSize <= p.maxInitCodeSize
    requires var target := BalanceHolder(ReduceSender(m, s).0, m.to);
             target.nonce > 0 || target.hasCode || target.hasStorage || target.balance + m.value <= p.maxInteger
    ensures RunCall(p, m, [Halt], s).1.gasUsed == m.limit
  {
    var snap := BeforeCheckpoint(m, s);
    var a := ReduceSender(m, snap).0;
    assert a.world.state == ReduceSender(m, s).0.world.state;
    var m1 := m.(created := m.created + {m.to});
    var b := Endow(p, m1, BalanceHolder(a, m.to), a);
    HaltEnds(p, EnvOf(m1), b.0, Local(m.limit, BalanceHolder(b.0, m.to), m1.created, false, None));
  }

  lemma CreateOverruns(p: Params, create: Action, env: Env, s: Sys, l: Local)
    requires create.Create? && l.err.None? && l.gasLeft < create.limit && CreateEntered(p, create, env, s, l)
    ensures CreateRunsOut(p, create, [Halt], env, s, l)
  {
    var c := CreateWith(create, [Halt]);
    var at := Nonced(env, s, l);
    var m := MessageOf(c, env, at.1);
    var s1 := Fitting(m, at.0, at.1);
    assert m == MessageOf(create, env, at.1);
    assert BalanceHolder(ReduceSender(m, s1).0, m.to) == BalanceHolder(ReduceSender(m, at.0).0, m.to);
    CreateHalts(p, m, s1);
  }

  /** The same for a creation. */
  lemma CreatePayment(p: Params, create: Action, env: Env, s: Sys, l: Local)
    requires create.Create? && l.err.None? && l.gasLeft >= 0
    ensures (forall script :: !CreateRunsOut(p, create, script, env, s, l)) <==>
            create.limit <= l.gasLeft || !CreateEntered(p, create, env, s, l)
  {
    if create.limit <= l.gasLeft || !CreateEntered(p, create, env, s, l) {
      forall script ensures !CreateRunsOut(p, create, script, env, s, l) {
        var c := CreateWith(create, script);
        assert CreateEntered(p, c, env, s, l) == CreateEntered(p, create, env, s, l);
        if create.limit <= l.gasLeft {
          CreatePaidWithinLimit(p, c, env, s, l);
        } else {
          CreatePaidUnlessRun(p, c, env, s, l);
        }
      }
    } else {
      CreateOverruns(p, create, env, s, l);
      assert CreateRunsOut(p, create, [Halt], env, s, l);
    }
  }

  // ----- creations that revert -----

  /** Data that no code may begin with. */
  predicate Refused(data: Bytes) {
    data != [] && data[0] == FORMAT
  }

  /**
    A creation whose frame reverts, by whatever script, ends as the frame did if and only if
    its data does not begin like refused code; otherwise it loses all its gas.
  */
  lemma RevertedCreation(p: Params, m: Message, script: seq<Action>, s: Sys)
    requires CreationRuns(p, m, s) && script != [] && CreationFrame(p, m, script, s).1.err == Some(Reverted)
    ensures var frame, r := CreationFrame(p, m, script, s).1, RunCall(p, m, script, s).1;
            && r == (if Refused(m.deployed) then CallResult(m.limit, Some(InvalidBytecode), {})
                     else CallResult(frame.gasUsed, Some(Reverted), {}))
            && (r.err == Some(Reverted) <==> !Refused(m.deployed))
  {
    var a := ReduceSender(m, BeforeCheckpoint(m, s)).0;
    var b := Endow(p, Named(m), BalanceHolder(a, m.to), a).0;
    FrameGas(p, Named(m), script, b);
    var frame := RunInterpreter(p, Named(m), script, b);
    DepositReverted(p, Named(m), frame.0, frame.1);
  }

  lemma DepositReverted(p: Params, m: Message, s: Sys, r: CallResult)
    requires r.err == Some(Reverted) && r.gasUsed <= m.limit
    ensures Deposit(p, m, s, r) ==
            (s, if Refused(m.deployed) then r.(gasUsed := m.limit, err := Some(InvalidBytecode)) else r)
  {
  }

  /** A script that reverts at once uses no gas, unless its data begins like refused code. */
  lemma RevertedAtOnce(p: Params, m: Message, s: Sys)
    requires CreationRuns(p, m, s)
    ensures CreationFrame(p, m, [RevertFrame], s).1 == CallResult(0, Some(Reverted), {})
    ensures RunCall(p, m, [RevertFrame], s).1 ==
            if Refused(m.deployed) then CallResult(m.limit, Some(InvalidBytecode), {})
            else CallResult(0, Some(Reverted), {})
  {
    var a := ReduceSender(m, BeforeCheckpoint(m, s)).0;
    var b := Endow(p, Named(m), BalanceHolder(a, m.to), a).0;
    var l := Local(m.limit, BalanceHolder(b, m.to), Named(m).created, false, None);
    assert [RevertFrame][..0] == [] && [RevertFrame][0] == RevertFrame;
    assert Run(p, [], EnvOf(Named(m)), b, l) == (b, l);
    assert Run(p, [RevertFrame], EnvOf(Named(m)), b, l) == (b, Fail(l, Reverted));
    RevertedCreation(p, m, [RevertFrame], s);
  }

  // ----- the limit a call opcode hands out -----

  /** The child's limit and the gas left once the call's own cost is paid. */
  datatype Schedule = Schedule(limit: nat, left: int)

  /**
    The limit is capped by all but one 64th of what the regular cost leaves, before the state
    gas for a new account is charged; nothing when the call cannot be afforded.
  */
  function ScheduleCall(requested: nat, gasLeft: int, reservoir: int, regular: nat, newAccount: nat): Option<Schedule>
  {
    var rest := gasLeft - regular;
    if regular > gasLeft || regular + newAccount > gasLeft + reservoir then None
    else
      var allowed := rest - rest / 64;
      Some(Schedule(if requested > allowed then allowed else requested,
                    rest - (if newAccount > reservoir then newAccount - reservoir else 0)))
  }

  /** Only a call that sends value to an account that is absent or empty is charged for a new one. */
  function NewAccountCharge(p: Params, call: Action, s: Sys): nat
    requires call.Call?
  {
    if call.kind.Plain? && call.value != 0 && IsEmpty(AccountOf(s.world.state, call.target)) then p.newAccountStateGas
    else 0
  }

  /** A call opcode: its gas, its state gas, and the call with the scheduled limit. */
  function CallOpcode(p: Params, call: Action, requested: nat, regular: nat, env: Env, s: Sys, l: Local): (Sys, Local)
    requires call.Call?
  {
    var charge := NewAccountCharge(p, call, s);
    var schedule := ScheduleCall(requested, l.gasLeft, s.reservoir, regular, charge);
    if call.kind.Plain? && env.isStatic && call.value != 0 then Violation(s, l)
    else if schedule.None? then (s, Fail(l.(gasLeft := 0), OutOfGas))
    else
      var charged := ChargeState(s, l, charge);
      CallStep(p, CallWith(call, schedule.value.limit, call.script), env, charged.0, UseGasOf(charged.1, regular))
  }

  /** The part of the new-account charge that the reservoir does not cover fits in what the limit leaves over. */
  predicate Covered(p: Params, call: Action, requested: nat, regular: nat, s: Sys, l: Local)
    requires call.Call?
  {
    var spilled, rest := NewAccountCharge(p, call, s) - s.reservoir, l.gasLeft - regular;
    spilled <= rest / 64 || spilled <= rest - requested
  }

  predicate OpcodeRunsOut(p: Params, call: Action, script: seq<Action>, requested: nat, regular: nat, env: Env, s: Sys,
                          l: Local)
    requires call.Call?
  {
    CallOpcode(p, CallWith(call, call.limit, script), requested, regular, env, s, l).1.err == Some(OutOfGas)
  }

  /** The schedule is what both charges leave. */
  lemma ScheduleCharges(p: Params, call: Action, requested: nat, regular: nat, env: Env, s: Sys, l: Local)
    requires call.Call? && l.err.None? && s.reservoir >= 0
    requires ScheduleCall(requested, l.gasLeft, s.reservoir, regular, NewAccountCharge(p, call, s)).Some?
    ensures var charge := NewAccountCharge(p, call, s);
            var schedule := ScheduleCall(requested, l.gasLeft, s.reservoir, regular, charge).value;
            var charged := ChargeState(s, l, NewAccountCharge(p, call, s));
            && UseGasOf(charged.1, regular) == l.(gasLeft := schedule.left) && schedule.left >= 0
            && charged.0.world == s.world
            && (schedule.limit <= schedule.left <==> Covered(p, call, requested, regular, s, l))
  {
  }

  /**
    No child makes the parent of an affordable call run out of gas if and only if the
    new-account charge is covered or the child does not get to run.
  */
  lemma ScheduledPayment(p: Params, call: Action, requested: nat, regular: nat, env: Env, s: Sys, l: Local)
    requires call.Call? && l.err.None? && s.reservoir >= 0
    requires ScheduleCall(requested, l.gasLeft, s.reservoir, regular, NewAccountCharge(p, call, s)).Some?
    ensures (forall script :: !OpcodeRunsOut(p, call, script, requested, regular, env, s, l)) <==>
            Covered(p, call, requested, regular, s, l) || !CallEntered(p, call, env, s, l)
  {
    var charge := NewAccountCharge(p, call, s);
    var schedule := ScheduleCall(requested, l.gasLeft, s.reservoir, regular, charge).value;
    var s1, l1 := ChargeState(s, l, charge).0, l.(gasLeft := schedule.left);
    var c := CallWith(call, schedule.limit, call.script);
    ScheduleCharges(p, call, requested, regular, env, s, l);
    CallPayment(p, c, env, s1, l1);
    EnteredAnyway(p, call, schedule.limit, env, s, l, s1, l1);
    if !(call.kind.Plain? && env.isStatic && call.value != 0) {
      forall script
        ensures OpcodeRunsOut(p, call, script, requested, regular, env, s, l) <==>
                CallRunsOut(p, c, script, env, s1, l1)
      {
        assert NewAccountCharge(p, CallWith(call, call.limit, script), s) == charge;
        assert CallWith(CallWith(call, call.limit, script), schedule.limit, script) == CallWith(c, c.limit, script);
      }
    }
  }

  /** Otherwise a child that fails at once overruns. */
  lemma OpcodeOverruns(p: Params, call: Action, requested: nat, regular: nat, env: Env, s: Sys, l: Local)
    requires call.Call? && l.err.None? && s.reservoir >= 0 && call.script == [Halt]
    requires ScheduleCall(requested, l.gasLeft, s.reservoir, regular, NewAccountCharge(p, call, s)).Some?
    requires !Covered(p, call, requested, regular, s, l) && CallEntered(p, call, env, s, l)
    ensures CallOpcode(p, call, requested, regular, env, s, l).1.err == Some(OutOfGas)
  {
    var charge := NewAccountCharge(p, call, s);
    var schedule := ScheduleCall(requested, l.gasLeft, s.reservoir, regular, charge).value;
    var s1, l1 := ChargeState(s, l, charge).0, l.(gasLeft := schedule.left);
    ScheduleCharges(p, call, requested, regular, env, s, l);
    EnteredAnyway(p, call, schedule.limit, env, s, l, s1, l1);
    CallOverruns(p, CallWith(call, schedule.limit, call.script), env, s1, l1);
  }

  /** Whether a child gets to run does not depend on gas. */
  lemma EnteredAnyway(p: Params, call: Action, limit: nat, env: Env, s: Sys, l: Local, s': Sys, l': Local)
    requires call.Call? && s'.world == s.world && l' == l.(gasLeft := l'.gasLeft)
    ensures CallEntered(p, CallWith(call, limit, call.script), env, s', l') == CallEntered(p, call, env, s, l)
  {
    var m, m' := MessageOf(call, env, l), MessageOf(CallWith(call, limit, call.script), env, l');
    assert m' == m.(limit := m'.limit);
    SameTransfer(p, m, s, s');
  }

  /** Only a call with value to an empty account that still has something to run can overrun. */
  lemma OverrunsOnlyEmptyAccounts(p: Params, call: Action, requested: nat, regular: nat, env: Env, s: Sys, l: Local)
    requires call.Call? && l.err.None? && s.reservoir >= 0
    requires ScheduleCall(requested, l.gasLeft, s.reservoir, regular, NewAccountCharge(p, call, s)).Some?
    requires CallOpcode(p, call, requested, regular, env, s, l).1.err == Some(OutOfGas)
    ensures call.kind.Plain? && call.value != 0 && IsEmpty(AccountOf(s.world.state, call.target)) && call.script != []
  {
    var schedule := ScheduleCall(requested, l.gasLeft, s.reservoir, regular, NewAccountCharge(p, call, s)).value;
    var s1, l1 := ChargeState(s, l, NewAccountCharge(p, call, s)).0, l.(gasLeft := schedule.left);
    var c := CallWith(call, schedule.limit, call.script);
    ScheduleCharges(p, call, requested, regular, env, s, l);
    if call.script == [] {
      CallPaidUnlessRun(p, c, env, s1, l1);
    } else if Covered(p, call, requested, regular, s, l) {
      CallPaidWithinLimit(p, c, env, s1, l1);
    }
  }

  // ----- a call that overruns -----

  /** The parameters of the Amsterdam hardfork, which meters state gas. */
  const AMSTERDAM := Params(1024, 65536, 32768, 120 * 1530, 1530, 6,
    0xffff_ffff_ffff_ffff_ffff_ffff_ffff_ffff_ffff_ffff_ffff_ffff_ffff_ffff_ffff_ffff, 0xffff_ffff_ffff_ffff)

  const BLAKE2F: Addr := 9

  /** A contract with one wei, alone in the state, and its frame with a million gas. */
  const CONTRACT := Account(1, 1, true, false)
  const ALONE := Sys(World(State(map[100 := Some(CONTRACT)], map[], map[]), map[], Warmth(map[], {})), 0, 0,
                      Audit(0, 0, true, true))
  const FRAME := Env(100, 200, 0, false, 1, 1_000_000)
  const MILLION := Local(1_000_000, CONTRACT, {}, false, None)

  /** It sends its wei to a precompile, which refuses its input. */
  const CALL := Call(Plain, BLAKE2F, 1, 0, 2300, [Halt])

  lemma OverrunningCallEnters()
    ensures CallEntered(AMSTERDAM, CALL, FRAME, ALONE, MILLION)
  {
    var m := MessageOf(CALL, FRAME, MILLION);
    var a := ReduceSender(m, ALONE);
    assert a.1.None? && BalanceHolder(a.0, BLAKE2F) == EMPTY_ACCOUNT;
    assert EMPTY_ACCOUNT.balance + m.value <= AMSTERDAM.maxInteger;
  }

  /**
    The precompile at address 9 has no account, so the call is charged for a new one, beside
    9000 for the value and 100 for a warm address: it may use 975418 where 807300 is left.
  */
  lemma OverrunningCall()
    ensures ScheduleCall(1_000_000, 1_000_000, 0, 9100, AMSTERDAM.newAccountStateGas) == Some(Schedule(975418, 807300))
    ensures NewAccountCharge(AMSTERDAM, CALL, ALONE) == AMSTERDAM.newAccountStateGas
    ensures CallOpcode(AMSTERDAM, CALL, 1_000_000, 9100, FRAME, ALONE, MILLION).1.err == Some(OutOfGas)
  {
    OverrunningCallEnters();
    OpcodeOverruns(AMSTERDAM, CALL, 1_000_000, 9100, FRAME, ALONE, MILLION);
  }
}
