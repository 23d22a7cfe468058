/**
  What a message does to accounts, code and storage, told without its frames: value moves
  from its sender to its receiver, static frames change nothing, deployed code ends up at the
  new account, and a failed message leaves at most a nonce.
*/
module EvmEffects {
  import opened Wrappers
  import opened EvmTypes
  import opened EvmJournal
  import opened EvmStateManager
  import opened EvmFrames
  import opened EvmLaws

  /** The stored account, or an empty one. */
  function AccountIn(st: State, a: Addr): Account {
    var acc := AccountOf(st, a);
    if acc.Some? then acc.value else EMPTY_ACCOUNT
  }

  ghost predicate SameAccounts(st: State, st': State) {
    forall a :: AccountIn(st', a) == AccountIn(st, a)
  }

  /** Code, storage and transient storage. */
  predicate SameData(w: World, w': World) {
    w'.state.code == w.state.code && w'.state.storage == w.state.storage && w'.transient == w.transient
  }

  ghost predicate Untouched(w: World, w': World) {
    SameData(w, w') && SameAccounts(w.state, w'.state)
  }

  function Credited(acc: Account, amount: int): Account {
    acc.(balance := acc.balance + amount)
  }

  /** What `a` gains when `value` goes from one account to another, or to itself. */
  function Gain(a: Addr, from: Addr, to: Addr, value: int): int {
    (if a == to then value else 0) - (if a == from then value else 0)
  }

  /** One balance is lower and one higher by the value, and every other account is the same. */
  ghost predicate Moved(st: State, st': State, from: Addr, to: Addr, value: int) {
    forall a :: AccountIn(st', a) == Credited(AccountIn(st, a), Gain(a, from, to, value))
  }

  // ----- moving value -----

  /** Why a transfer fails: the receiver's balance would overflow, or the sender's does not suffice. */
  function TransferError(p: Params, from: Addr, to: Addr, value: nat, st: State): Option<Err> {
    var own := from == to && AccountOf(st, to).Some?;
    if AccountIn(st, to).balance + (if own then 0 else value) > p.maxInteger then Some(ValueOverflow)
    else if AccountIn(st, from).balance < value then Some(InsufficientBalance)
    else None
  }

  /** A transfer moves its value from the caller to the receiver, a delegated call nothing. */
  lemma TransferMoves(p: Params, m: Message, s: Sys)
    ensures var t := Transfer(p, m, s);
            && t.1 == (if m.delegatecall then None else TransferError(p, m.caller, m.to, m.value, s.world.state))
            && SameData(s.world, t.0.world)
            && (t.1.None? ==> Paid(m, s.world.state, t.0.world.state) && Touches(m, s, t.0))
  {
  }

  /** Both accounts of a transfer are marked touched. */
  predicate Touches(m: Message, s: Sys, s': Sys) {
    s'.world.warmth.touched == s.world.warmth.touched + if m.delegatecall then {} else {m.caller, m.to}
  }

  /** The value of a message has gone from its caller to its receiver. */
  ghost predicate Paid(m: Message, st: State, st': State) {
    if m.delegatecall then SameAccounts(st, st') else Moved(st, st', m.caller, m.to, m.value)
  }

  // ----- static frames -----

  predicate IsStaticCall(action: Action) {
    action.Call? && action.kind.StaticCall?
  }

  /** A static frame changes nothing, whatever its script and the frames below do, and however it ends. */
  lemma {:induction false} StaticRun(p: Params, script: seq<Action>, env: Env, s: Sys, l: Local)
    requires env.isStatic
    ensures var r := Run(p, script, env, s, l); Untouched(s.world, r.0.world) && r.1.created == l.created
    decreases script, 3
  {
    if script != [] {
      StaticRun(p, script[..|script|-1], env, s, l);
      var before := Run(p, script[..|script|-1], env, s, l);
      if !Ended(before.1) {
        StaticStep(p, script[|script|-1], env, before.0, before.1);
      }
    }
  }

  /** Nor does a static call from any frame. */
  lemma {:induction false} StaticStep(p: Params, action: Action, env: Env, s: Sys, l: Local)
    requires env.isStatic || IsStaticCall(action)
    ensures var r := Step(p, action, env, s, l); Untouched(s.world, r.0.world) && r.1.created == l.created
    decreases action, 9
  {
    if action.Call? {
      var m := MessageOf(action, env, l);
      var at := Stipend(m, action, env, s, l);
      StaticMessage(p, m, action.script, Fitting(m, at.0, at.1));
    }
  }

  lemma StaticCalls(p: Params, action: Action, env: Env, s: Sys, l: Local)
    requires action.Call?
    ensures env.isStatic || IsStaticCall(action) ==> Untouched(s.world, CallStep(p, action, env, s, l).0.world)
  {
    if env.isStatic || IsStaticCall(action) { StaticStep(p, action, env, s, l); }
  }

  /** An inner static message moves its value, if it has any, and changes nothing else. */
  lemma {:induction false} StaticMessage(p: Params, m: Message, script: seq<Action>, s: Sys)
    requires m.isStatic && !m.isCreate && m.depth > 0
    ensures var r := RunCall(p, m, script, s);
            && SameData(s.world, r.0.world)
            && if r.1.err.Some? then SameAccounts(s.world.state, r.0.world.state)
               else Paid(m, s.world.state, r.0.world.state) && r.1.created == m.created
    decreases script, 6
  {
    assert BeforeCheckpoint(m, s) == s;
    TransferMoves(p, m, s);
    if script != [] {
      StaticInterpreter(p, m, script, Transfer(p, m, s).0);
    }
  }

  lemma {:induction false} StaticInterpreter(p: Params, m: Message, script: seq<Action>, s: Sys)
    requires m.isStatic
    ensures var r := RunInterpreter(p, m, script, s);
            Untouched(s.world, r.0.world) && (r.1.err.None? ==> r.1.created == m.created)
    decreases script, 4
  {
    StaticRun(p, script, EnvOf(m), s, Local(m.limit, BalanceHolder(s, m.to), m.created, false, None));
  }

  // ----- messages -----

  /** Every account is the same, but for the sender's nonce at depth 0. */
  ghost predicate OnlyCounted(m: Message, st: State, st': State) {
    forall a :: AccountIn(st', a) == Counted(AccountIn(st, a), m.depth == 0 && a == m.caller)
  }

  /** A failed message leaves the state it found, but for the sender's nonce at depth 0. */
  lemma FailedMessage(p: Params, m: Message, script: seq<Action>, s: Sys)
    requires RunCall(p, m, script, s).1.err.Some?
    ensures var r := RunCall(p, m, script, s);
            && SameData(s.world, r.0.world) && r.1.created == {}
            && OnlyCounted(m, s.world.state, r.0.world.state)
  {
    BeforeCounts(m, s);
  }

  function Counted(acc: Account, up: bool): Account {
    acc.(nonce := acc.nonce + if up then 1 else 0)
  }

  /** A call without code moves its value, if it has the right to, and does nothing else. */
  lemma EmptyCall(p: Params, m: Message, s: Sys)
    requires !m.isCreate && m.depth > 0
    ensures var r := RunCall(p, m, [], s);
            && SameData(s.world, r.0.world)
            && r.1.err == (if m.delegatecall then None else TransferError(p, m.caller, m.to, m.value, s.world.state))
            && if r.1.err.Some? then SameAccounts(s.world.state, r.0.world.state)
               else Paid(m, s.world.state, r.0.world.state)
  {
    assert BeforeCheckpoint(m, s) == s;
    TransferMoves(p, m, s);
  }

  /** Depth and cached balance allow the child, and no static frame sends value. */
  predicate Allowed(p: Params, action: Action, env: Env, l: Local)
    requires action.Call?
  {
    env.depth < p.stackLimit && l.contract.balance >= action.value && !(env.isStatic && action.value != 0)
  }

  /** A plain call without code moves its value from this account to the target; other calls move nothing. */
  lemma CallMoves(p: Params, action: Action, env: Env, s: Sys, l: Local)
    requires action.Call? && action.script == []
    ensures var st, r := s.world.state, CallStep(p, action, env, s, l).0;
            && SameData(s.world, r.world)
            && if action.kind.Plain? && Allowed(p, action, env, l)
                  && TransferError(p, env.address, action.target, action.value, st).None?
               then Moved(st, r.world.state, env.address, action.target, action.value)
               else SameAccounts(st, r.world.state)
  {
    var m := MessageOf(action, env, l);
    var at := Stipend(m, action, env, s, l);
    EmptyCall(p, m, Fitting(m, at.0, at.1));
  }

  // ----- creations -----

  function Named(m: Message): Message {
    m.(created := m.created + {m.to})
  }

  predicate Free(acc: Account) {
    acc.nonce == 0 && !acc.hasCode && !acc.hasStorage
  }

  /** A creation whose sender can pay, whose code is not too long and whose address is free. */
  predicate CreationRuns(p: Params, m: Message, s: Sys) {
    var st := BeforeCheckpoint(m, s).world.state;
    && m.isCreate && m.initSize <= p.maxInitCodeSize && AccountIn(st, m.caller).balance >= m.value
    && Free(AccountIn(st, m.to))
    && AccountIn(st, m.to).balance + (if m.caller == m.to then 0 else m.value) <= p.maxInteger
  }

  /** Where its frame starts. */
  function CreationStart(p: Params, m: Message, s: Sys): Sys {
    var a := ReduceSender(m, BeforeCheckpoint(m, s)).0;
    Endow(p, Named(m), BalanceHolder(a, m.to), a).0
  }

  /** What its frame comes to, before anything is made of what it returns. */
  function CreationFrame(p: Params, m: Message, script: seq<Action>, s: Sys): (Sys, CallResult) {
    RunInterpreter(p, Named(m), script, CreationStart(p, m, s))
  }

  /** The nonces of the sender, at depth 0, and of the new account are counted up, and the value has moved. */
  ghost predicate Started(m: Message, st: State, st': State) {
    forall a ::
      AccountIn(st', a) == Credited(Counted(Counted(AccountIn(st, a), m.depth == 0 && a == m.caller), a == m.to),
                                    Gain(a, m.caller, m.to, m.value))
  }

  lemma CreationStarts(p: Params, m: Message, s: Sys)
    requires CreationRuns(p, m, s)
    ensures var b := CreationStart(p, m, s);
            && SameData(s.world, b.world) && Started(m, s.world.state, b.world.state)
            && b.world.warmth.touched == s.world.warmth.touched + {m.caller, m.to}
  {
    BeforeCounts(m, s);
    EndowMoves(p, m, BeforeCheckpoint(m, s));
  }

  lemma BeforeCounts(m: Message, s: Sys)
    ensures var b := BeforeCheckpoint(m, s);
            && SameData(s.world, b.world) && OnlyCounted(m, s.world.state, b.world.state)
  {
  }

  lemma EndowMoves(p: Params, m: Message, s: Sys)
    requires AccountIn(s.world.state, m.caller).balance >= m.value
    requires AccountIn(s.world.state, m.to).balance + (if m.caller == m.to then 0 else m.value) <= p.maxInteger
    ensures var a := ReduceSender(m, s).0; var b := Endow(p, Named(m), BalanceHolder(a, m.to), a).0;
            && SameData(s.world, b.world)
            && forall x :: AccountIn(b.world.state, x) ==
                           Credited(Counted(AccountIn(s.world.state, x), x == m.to), Gain(x, m.caller, m.to, m.value))
  {
  }

  /** Code, when there is any, has been put at `to`, and nothing else has changed. */
  ghost predicate Deployed(st: State, st': State, to: Addr, code: Bytes) {
    && st'.storage == st.storage && st'.code == (if code == [] then st.code else st.code[to := code])
    && forall a ::
         AccountIn(st', a) == if a == to && code != [] then AccountIn(st, a).(hasCode := true) else AccountIn(st, a)
  }

  /** What the deposit takes from the gas: the words to hash and the state gas the reservoir lacks. */
  function DepositCost(p: Params, m: Message, reservoir: int): int {
    var stateGas := |m.deployed| * p.costPerStateByte;
    (|m.deployed| + 31) / 32 * p.codeDepositHashWordGas
    + (if stateGas < reservoir then 0 else stateGas - reservoir)
  }

  /** The returned code can be paid for, is not too long and does not begin with the format byte. */
  predicate Depositable(p: Params, m: Message, reservoir: int, gasUsed: int) {
    && gasUsed + DepositCost(p, m, reservoir) <= m.limit && |m.deployed| <= p.maxCodeSize
    && !(m.deployed != [] && m.deployed[0] == 0xef)
  }

  lemma DepositPuts(p: Params, m: Message, s: Sys, r: CallResult)
    ensures var d := Deposit(p, m, s, r);
            && (d.1.err.None? <==> r.err.None? && Depositable(p, m, s.reservoir, r.gasUsed))
            && d.0.world.transient == s.world.transient
            && (if d.1.err.Some? then d.0.world.state == s.world.state
                else Deployed(s.world.state, d.0.world.state, m.to, m.deployed))
            && (d.1.err.None? ==>
                 var stateGas := |m.deployed| * p.costPerStateByte;
                 && d.1 == r.(gasUsed := r.gasUsed + DepositCost(p, m, s.reservoir))
                 && d.0.used == s.used + stateGas
                 && d.0.reservoir == if stateGas == 0 then s.reservoir
                                     else if stateGas < s.reservoir then s.reservoir - stateGas else 0)
  {
  }

  /**
    A creation succeeds exactly when its frame gets to run, ends without error and can pay for
    the returned code; that code is then at the new account, and the rest is as the frame left it.
  */
  lemma CreationDeploys(p: Params, m: Message, script: seq<Action>, s: Sys)
    requires m.isCreate && script != []
    ensures var r, f := RunCall(p, m, script, s), CreationFrame(p, m, script, s);
            && (r.1.err.None? <==>
                 CreationRuns(p, m, s) && f.1.err.None? && Depositable(p, m, f.0.reservoir, f.1.gasUsed))
            && (r.1.err.None? ==>
                 && Deployed(f.0.world.state, r.0.world.state, m.to, m.deployed)
                 && r.1.gasUsed == f.1.gasUsed + DepositCost(p, m, f.0.reservoir)
                 && r.0.world.transient == if m.depth == 0 then map[] else f.0.world.transient)
  {
    var f := CreationFrame(p, m, script, s);
    DepositPuts(p, Named(m), f.0, f.1);
  }

  /** Without init code a creation moves its value once the checks are met. */
  lemma EmptyCreation(p: Params, m: Message, s: Sys)
    requires m.isCreate
    ensures var r := RunCall(p, m, [], s);
            && SameData(s.world, r.0.world)
            && (r.1.err.None? <==> CreationRuns(p, m, s))
            && if r.1.err.None? then Started(m, s.world.state, r.0.world.state)
               else OnlyCounted(m, s.world.state, r.0.world.state)
  {
    BeforeCounts(m, s);
    if CreationRuns(p, m, s) {
      CreationStarts(p, m, s);
    } else {
      FailedMessage(p, m, [], s);
    }
  }

  /** The creator may create: depth, cached balance and nonce allow it. */
  predicate MayCreate(p: Params, action: Action, env: Env, l: Local)
    requires action.Create?
  {
    env.depth < p.stackLimit && l.contract.balance >= action.value && l.contract.nonce < p.maxUint64
  }

  predicate Creatable(p: Params, action: Action, env: Env, st: State)
    requires action.Create?
  {
    var acc := AccountIn(st, action.at);
    && action.initSize <= p.maxInitCodeSize && action.at != env.address && Free(acc)
    && acc.balance + action.value <= p.maxInteger
  }

  /**
    A creation without init code counts up this account's nonce when it may create, and moves
    the value to the new account and counts up its nonce when that can be created.
  */
  lemma CreateMoves(p: Params, action: Action, env: Env, s: Sys, l: Local)
    requires action.Create? && action.script == [] && Cached(env, s, l) && !Ended(l)
    ensures var st, r := s.world.state, CreateChild(p, action, env, s, l).0;
            var may := MayCreate(p, action, env, l);
            var made := may && Creatable(p, action, env, st);
            && SameData(s.world, r.world)
            && forall a :: AccountIn(r.world.state, a) ==
                 Credited(Counted(Counted(AccountIn(st, a), may && a == env.address), made && a == action.at),
                          if made then Gain(a, env.address, action.at, action.value) else 0)
  {
    if MayCreate(p, action, env, l) {
      var at := Nonced(env, s, l);
      var m := MessageOf(action, env, at.1);
      CreationAsked(p, action, env, s, l);
      EmptyCreation(p, m, Fitting(m, at.0, at.1));
    }
  }

  /** The message of a creation finds its conditions met as they are before the nonce is counted up. */
  lemma CreationAsked(p: Params, action: Action, env: Env, s: Sys, l: Local)
    requires action.Create? && Cached(env, s, l) && !Ended(l) && MayCreate(p, action, env, l)
    ensures var at := Nonced(env, s, l);
            var m := MessageOf(action, env, at.1);
            var s1 := Fitting(m, at.0, at.1);
            && (CreationRuns(p, m, s1) <==> Creatable(p, action, env, s.world.state))
            && SameData(s.world, s1.world)
            && forall a :: AccountIn(s1.world.state, a) == Counted(AccountIn(s.world.state, a), a == env.address)
  {
  }

  // ----- self-destruction -----

  ghost predicate Burned(st: State, st': State, from: Addr, amount: int) {
    forall a :: AccountIn(st', a) == if a == from then Credited(AccountIn(st, a), -amount) else AccountIn(st, a)
  }

  /** The whole balance goes to a beneficiary; to the account itself it stays, or is burned if it is new. */
  lemma SelfDestructMoves(p: Params, env: Env, to: Addr, s: Sys, l: Local)
    requires Cached(env, s, l) && !Ended(l)
    ensures var r := SelfDestructStep(p, env, to, s, l);
            && SameData(s.world, r.0.world)
            && (r.1.err.None? ==>
                 if to == env.address && env.address in l.created then
                   Burned(s.world.state, r.0.world.state, to, l.contract.balance)
                 else Moved(s.world.state, r.0.world.state, env.address, to, l.contract.balance))
  {
  }

  // ----- a message as its caller sees it -----

  /** Besides, the value has gone from the sender to the receiver. */
  ghost predicate Sent(m: Message, st: State, st': State) {
    forall a ::
      AccountIn(st', a) == Credited(Counted(AccountIn(st, a), m.depth == 0 && a == m.caller),
                                    if m.delegatecall then 0 else Gain(a, m.caller, m.to, m.value))
  }

  /**
    A failed message changes at most a nonce.  A successful one moves its value: nothing more
    happens in a static call or without code to run; the code of a creation is at its address.
  */
  ghost predicate Effects(m: Message, script: seq<Action>, w: World, w': World, err: Option<Err>) {
    && (err.Some? ==> SameData(w, w') && OnlyCounted(m, w.state, w'.state))
    && (err.None? && !m.isCreate && (script == [] || (m.isStatic && m.depth > 0)) ==>
          SameData(w, w') && Sent(m, w.state, w'.state))
    && (err.None? && m.isCreate && script == [] ==> SameData(w, w') && Started(m, w.state, w'.state))
    && (err.None? && m.isCreate && script != [] && m.deployed != [] ==>
          && m.to in w'.state.code && w'.state.code[m.to] == m.deployed
          && AccountIn(w'.state, m.to).hasCode)
  }

  lemma MessageEffects(p: Params, m: Message, script: seq<Action>, s: Sys)
    ensures var r := RunCall(p, m, script, s); Effects(m, script, s.world, r.0.world, r.1.err)
  {
    BeforeCounts(m, s);
    if RunCall(p, m, script, s).1.err.Some? {
      FailedMessage(p, m, script, s);
    } else if m.isCreate {
      if script == [] { EmptyCreation(p, m, s); } else { CreationDeploys(p, m, script, s); }
    } else if script == [] {
      TransferMoves(p, m, BeforeCheckpoint(m, s));
    } else if m.isStatic && m.depth > 0 {
      StaticMessage(p, m, script, s);
    }
  }
}
