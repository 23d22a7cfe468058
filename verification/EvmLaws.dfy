/**
  What every tree of message frames keeps: the cached contract is the stored one, value is
  conserved, gas stays within each limit, and the two state-gas counters together grow by
  exactly what state charges took from gas left.
*/
module EvmLaws {
  import opened Wrappers
  import opened EvmTypes
  import opened EvmJournal
  import opened EvmStateManager
  import opened EvmFrames
  import opened Sums

  // ----- sums of balances -----

  function BalanceIn(acc: Option<Account>): int {
    if acc.Some? then acc.value.balance else 0
  }

  ghost function Total(m: map<Addr, Option<Account>>): int {
    Sum(m, BalanceIn)
  }

  lemma TotalPut(s: State, a: Addr, acc: Account)
    ensures Total(s.accounts[a := Some(acc)]) == Total(s.accounts) - BalanceIn(AccountOf(s, a)) + acc.balance
  {
    SumPut(s.accounts, BalanceIn, a, Some(acc));
  }

  /** All balances together with what was burned. */
  ghost function Worth(s: Sys): int {
    Total(s.world.state.accounts) + s.audit.burned
  }

  lemma JournalPutWorth(s: Sys, a: Addr, acc: Account)
    ensures Worth(JournalPut(s, a, acc)) == Worth(s) - BalanceHolder(s, a).balance + acc.balance
  {
    TotalPut(s.world.state, a, acc);
  }

  // ----- the cached contract -----

  /** A running frame's cached contract is the stored account. */
  predicate Cached(env: Env, s: Sys, l: Local) {
    !Ended(l) ==> AccountOf(s.world.state, env.address) == Some(l.contract)
  }

  ghost predicate Persist(s: State, t: State) {
    forall a :: a in s.accounts && s.accounts[a].Some? ==> a in t.accounts && t.accounts[a].Some?
  }

  ghost predicate NoDebt(s: State) {
    forall a :: a in s.accounts ==> BalanceIn(s.accounts[a]) >= 0
  }

  /** A delegated call runs in an account that exists. */
  predicate Hosted(m: Message, s: Sys) {
    m.delegatecall ==> AccountOf(s.world.state, m.to).Some?
  }

  /** What a step or script without error keeps. */
  ghost predicate ValueKept(env: Env, s: Sys, l: Local, s': Sys, l': Local)
  {
    && Cached(env, s', l')
    && (l'.err.None? ==> Worth(s') == Worth(s) && Persist(s.world.state, s'.world.state) && NoDebt(s'.world.state))
  }

  /** What a message keeps, whether it succeeds or fails. */
  ghost predicate MessageKeeps(s: Sys, s': Sys)
  {
    Worth(s') == Worth(s) && Persist(s.world.state, s'.world.state) && NoDebt(s'.world.state)
  }

  lemma {:induction false} RunValue(p: Params, script: seq<Action>, env: Env, s: Sys, l: Local)
    requires Cached(env, s, l) && l.err.None? && NoDebt(s.world.state)
    ensures var r := Run(p, script, env, s, l); ValueKept(env, s, l, r.0, r.1)
    decreases script, 3
  {
    if script != [] {
      RunValue(p, script[..|script|-1], env, s, l);
      var before := Run(p, script[..|script|-1], env, s, l);
      if !Ended(before.1) {
        StepValue(p, script[|script|-1], env, before.0, before.1);
      }
    }
  }

  lemma {:induction false} StepValue(p: Params, action: Action, env: Env, s: Sys, l: Local)
    requires Cached(env, s, l) && !Ended(l) && NoDebt(s.world.state)
    ensures var r := Step(p, action, env, s, l); ValueKept(env, s, l, r.0, r.1)
    decreases action, 9
  {
    match action
    case Call(_, _, _, _, _, _) => CallValue(p, action, env, s, l);
    case Create(_, _, _, _, _, _) =>
      var charged := ChargeState(s, l, p.newAccountStateGas);
      if charged.1.err.None? && !env.isStatic {
        CreateValue(p, action, env, charged.0, charged.1);
      }
    case SelfDestruct(to) => SelfDestructValue(p, env, to, s, l);
    case _ =>
  }

  lemma {:induction false} CallValue(p: Params, action: Action, env: Env, s: Sys, l: Local)
    requires action.Call? && Cached(env, s, l) && !Ended(l) && NoDebt(s.world.state)
    ensures var r := CallStep(p, action, env, s, l); ValueKept(env, s, l, r.0, r.1)
    decreases action, 8
  {
    var m := MessageOf(action, env, l);
    var at := Stipend(m, action, env, s, l);
    MessageValue(p, m, action.script, Fitting(m, at.0, at.1));
    SettleValue(p, m, action.script, env, Fitting(m, at.0, at.1), at.1);
  }

  lemma {:induction false} CreateValue(p: Params, action: Action, env: Env, s: Sys, l: Local)
    requires action.Create? && Cached(env, s, l) && !Ended(l) && NoDebt(s.world.state)
    ensures var r := CreateChild(p, action, env, s, l); ValueKept(env, s, l, r.0, r.1)
    decreases action, 7
  {
    var at := Nonced(env, s, l);
    JournalPutWorth(s, env.address, at.1.contract);
    var m := MessageOf(action, env, at.1);
    MessageValue(p, m, action.script, Fitting(m, at.0, at.1));
    SettleValue(p, m, action.script, env, Fitting(m, at.0, at.1), at.1);
  }

  /** Settling an inner message keeps the cache: a failed one left the state alone. */
  lemma SettleValue(p: Params, m: Message, script: seq<Action>, env: Env, s: Sys, l: Local)
    requires Cached(env, s, l) && !Ended(l) && m.depth > 0
    requires MessageKeeps(s, RunCall(p, m, script, s).0)
    ensures var r := RunCall(p, m, script, s); Cached(env, r.0, Settle(env, r.0, l, r.1))
  {
    var r := RunCall(p, m, script, s);
    assert AccountOf(s.world.state, env.address).Some?;
  }

  lemma SelfDestructValue(p: Params, env: Env, to: Addr, s: Sys, l: Local)
    requires Cached(env, s, l) && !Ended(l) && NoDebt(s.world.state)
    ensures var r := SelfDestructStep(p, env, to, s, l); ValueKept(env, s, l, r.0, r.1)
  {
    if !env.isStatic {
      assert BalanceIn(AccountOf(s.world.state, env.address)) == l.contract.balance;
      var acc := BalanceHolder(s, to);
      var paid := if to == env.address then s else JournalPut(s, to, acc.(balance := acc.balance + l.contract.balance));
      JournalPutWorth(s, to, acc.(balance := acc.balance + l.contract.balance));
      var own := BalanceHolder(paid, env.address);
      TotalPut(paid.world.state, env.address, own.(balance := 0));
    }
  }

  /** A whole message conserves value, whether it commits or reverts. */
  lemma {:induction false} MessageValue(p: Params, m: Message, script: seq<Action>, s: Sys)
    requires Hosted(m, s) && NoDebt(s.world.state)
    ensures MessageKeeps(s, RunCall(p, m, script, s).0)
    decreases script, 6
  {
    var snap := BeforeCheckpoint(m, s);
    var acc := BalanceHolder(s, m.caller);
    JournalPutWorth(s, m.caller, acc.(nonce := acc.nonce + 1));
    assert MessageKeeps(s, snap);
    if m.isCreate {
      CreatedValue(p, m, script, snap);
    } else {
      CalledValue(p, m, script, snap);
    }
  }

  lemma ReduceValue(m: Message, s: Sys)
    requires NoDebt(s.world.state)
    ensures var a := ReduceSender(m, s);
            a.1.None? ==> (
              && Worth(a.0) == Worth(s) - m.value
              && Persist(s.world.state, a.0.world.state) && NoDebt(a.0.world.state))
  {
    var acc := BalanceHolder(s, m.caller);
    JournalPutWorth(s, m.caller, acc.(balance := acc.balance - m.value));
  }

  lemma AddValue(p: Params, m: Message, acc: Account, s: Sys)
    requires NoDebt(s.world.state) && acc.balance == BalanceHolder(s, m.to).balance
    ensures var b := AddToBalance(p, m, acc, s);
            b.1.None? ==> && Worth(b.0) == Worth(s) + m.value && Persist(s.world.state, b.0.world.state)
                          && NoDebt(b.0.world.state) && AccountOf(b.0.world.state, m.to).Some?
  {
    JournalPutWorth(s, m.to, acc.(balance := acc.balance + m.value));
  }

  lemma TransferKeeps(p: Params, m: Message, s: Sys)
    requires Hosted(m, s) && NoDebt(s.world.state)
    ensures var t := Transfer(p, m, s); t.1.None? ==> MessageKeeps(s, t.0) && AccountOf(t.0.world.state, m.to).Some?
  {
    if !m.delegatecall {
      ReduceValue(m, s);
      var a := ReduceSender(m, s);
      if a.1.None? {
        AddValue(p, m, BalanceHolder(a.0, m.to), a.0);
      }
    }
  }

  lemma EndowKeeps(p: Params, m: Message, s: Sys)
    requires NoDebt(s.world.state)
    ensures var b := Endow(p, m, BalanceHolder(s, m.to), s);
            b.1.None? ==> && Worth(b.0) == Worth(s) + m.value && Persist(s.world.state, b.0.world.state)
                          && NoDebt(b.0.world.state) && AccountOf(b.0.world.state, m.to).Some?
  {
    var target := BalanceHolder(s, m.to);
    var s1 := JournalPut(s, m.to, target);
    JournalPutWorth(s, m.to, target);
    assert NoDebt(s1.world.state);
    AddValue(p, m, target.(nonce := target.nonce + 1), s1);
  }

  lemma {:induction false} CalledValue(p: Params, m: Message, script: seq<Action>, s: Sys)
    requires Hosted(m, s) && NoDebt(s.world.state)
    ensures var r := ExecuteCall(p, m, script, s); r.1.err.None? ==> MessageKeeps(s, r.0)
    decreases script, 5
  {
    TransferKeeps(p, m, s);
    var t := Transfer(p, m, s);
    if script != [] && t.1.None? {
      InterpreterValue(p, m, script, t.0);
    }
  }

  lemma {:induction false} InterpreterValue(p: Params, m: Message, script: seq<Action>, s: Sys)
    requires AccountOf(s.world.state, m.to).Some? && NoDebt(s.world.state)
    ensures var r := RunInterpreter(p, m, script, s); r.1.err.None? ==> MessageKeeps(s, r.0)
    decreases script, 4
  {
    RunValue(p, script, EnvOf(m), s, Local(m.limit, BalanceHolder(s, m.to), m.created, false, None));
  }

  lemma {:induction false} CreatedValue(p: Params, m0: Message, script: seq<Action>, s: Sys)
    requires NoDebt(s.world.state)
    ensures var r := ExecuteCreate(p, m0, script, s); r.1.err.None? ==> MessageKeeps(s, r.0)
    decreases script, 5
  {
    ReduceValue(m0, s);
    var a := ReduceSender(m0, s);
    var m := m0.(created := m0.created + {m0.to});
    var target := BalanceHolder(a.0, m.to);
    if a.1.None? && m0.initSize <= p.maxInitCodeSize && target.nonce == 0 && !target.hasCode && !target.hasStorage {
      EndowKeeps(p, m, a.0);
      var b := Endow(p, m, target, a.0);
      if script != [] && b.1.None? {
        InterpreterValue(p, m, script, b.0);
        var r := RunInterpreter(p, m, script, b.0);
        DepositValue(p, m, r.0, r.1);
      }
    }
  }

  lemma DepositValue(p: Params, m: Message, s: Sys, r: CallResult)
    requires r.err.None? ==> NoDebt(s.world.state)
    ensures var d := Deposit(p, m, s, r); d.1.err.None? ==> r.err.None? && MessageKeeps(s, d.0)
  {
    var acc := AccountOf(s.world.state, m.to);
    var base := if acc.Some? then acc.value else EMPTY_ACCOUNT;
    TotalPut(s.world.state, m.to, base.(hasCode := true));
  }

  /** By the cached balance, an inner creation never takes more than its creator has. */
  lemma CreatorCanPay(action: Action, env: Env, s: Sys, l: Local)
    requires action.Create? && Cached(env, s, l) && !Ended(l) && l.contract.balance >= action.value
    ensures var at := Nonced(env, s, l);
            Solvent(MessageOf(action, env, at.1), Fitting(MessageOf(action, env, at.1), at.0, at.1))
  {
  }

  /** The sender of a creation can pay; otherwise the error leaves the whole call. */
  predicate Solvent(m: Message, s: Sys) {
    m.isCreate ==> BalanceHolder(BeforeCheckpoint(m, s), m.caller).balance >= m.value
  }

  /** A script says nothing beyond the action that ends the frame. */
  lemma {:induction false} RunStops(p: Params, script: seq<Action>, i: nat, env: Env, s: Sys, l: Local)
    requires i <= |script| && Ended(Run(p, script[..i], env, s, l).1)
    ensures Run(p, script, env, s, l) == Run(p, script[..i], env, s, l)
    decreases |script|
  {
    if i == |script| {
      assert script[..i] == script;
    } else {
      assert script[..|script|-1][..i] == script[..i];
      RunStops(p, script[..|script|-1], i, env, s, l);
    }
  }
}
