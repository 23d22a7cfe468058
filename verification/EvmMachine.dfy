/**
  The machine itself: a journal, transient storage and a state manager changed in place,
  each with its own undo mechanism, and two state-gas counters with a stack of snapshots.
  Every method is proved to compute what the frame functions say and to return with all
  checkpoint stacks as it found them.
*/
module EvmMachine {
  import opened Wrappers
  import opened EvmTypes
  import opened EvmJournal
  import opened EvmStateManager
  import opened EvmFrames
  import opened EvmLaws
  import opened EvmEffects
  import EvmSpending
  import EvmTransient

  // ----- transient storage as it can be observed -----

  function Slots(s: EvmTransient.Storage): set<(Addr, Bytes)> {
    set a, k | a in s && k in s[a] :: (a, k)
  }

  function Observed(s: EvmTransient.Storage): Transient {
    map x | x in Slots(s) && EvmTransient.View(s, x.0, x.1) != EvmTransient.ZERO_WORD :: EvmTransient.View(s, x.0, x.1)
  }

  lemma ObservedSame(s: EvmTransient.Storage, t: EvmTransient.Storage)
    requires EvmTransient.SameView(s, t)
    ensures Observed(s) == Observed(t)
  {
    forall x: (Addr, Bytes) ensures x in Observed(s) <==> x in Observed(t) {
      assert EvmTransient.View(s, x.0, x.1) == EvmTransient.View(t, x.0, x.1);
    }
  }

  lemma ObservedWrite(s: EvmTransient.Storage, a: Addr, k: Bytes, v: Bytes)
    ensures Observed(EvmTransient.Write(s, a, k, v)) == TransientWrite(Observed(s), a, k, v)
  {
    var s' := EvmTransient.Write(s, a, k, v);
    forall x: (Addr, Bytes)
      ensures x in Observed(s') <==> x in TransientWrite(Observed(s), a, k, v)
      ensures x in Observed(s') ==> Observed(s')[x] == TransientWrite(Observed(s), a, k, v)[x]
    {
      EvmTransient.WriteView(s, a, k, v, x.0, x.1);
    }
  }

  function ObservedAll(copies: seq<EvmTransient.Storage>): seq<Transient> {
    seq(|copies|, i requires 0 <= i < |copies| => Observed(copies[i]))
  }

  lemma CopyAtRest(log: seq<EvmTransient.Modification>, index: nat, now: EvmTransient.Storage,
                   copy: EvmTransient.Storage)
    requires log == [] && EvmTransient.TransientStorage.Level(log, index, now, copy)
    ensures Observed(copy) == Observed(now)
  {
    ObservedSame(now, copy);
  }

  /** Everything that is kept for undoing. */
  datatype Stacks = Stacks(
    journal: seq<Snapshot>, indices: seq<nat>, transient: seq<Transient>, states: seq<State>, gas: seq<(int, int)>)

  /** One checkpoint deeper: the tops hold what was there at `snap`. */
  ghost predicate Opened(base: Stacks, snap: Sys, t: Stacks)
  {
    && t.journal != [] && t.journal[..|t.journal|-1] == base.journal
    && t.journal[|t.journal|-1].warmth == snap.world.warmth
    && t.indices != [] && t.indices[..|t.indices|-1] == base.indices
    && t.transient != [] && t.transient[..|t.transient|-1] == base.transient
    && t.transient[|t.transient|-1] == snap.world.transient
    && t.states == base.states + [snap.world.state]
    && t.gas == base.gas + [(snap.reservoir, snap.used)]
  }

  /** All checkpoints are from when transient storage was empty. */
  ghost predicate Unused(t: Stacks)
  {
    && (forall j :: 0 <= j < |t.indices| ==> t.indices[j] == 0)
    && (forall j :: 0 <= j < |t.transient| ==> t.transient[j] == map[])
  }

  /** A message inside its checkpoint. */
  ghost function Executed(p: Params, m: Message, script: seq<Action>, s: Sys): (Sys, CallResult) {
    if m.isCreate then EvmFrames.ExecuteCreate(p, m, script, s) else EvmFrames.ExecuteCall(p, m, script, s)
  }

  class Evm {
    const params: Params
    const journal: Journal
    const transient: EvmTransient.TransientStorage
    const manager: SimpleStateManager
    var stateGasReservoir: int
    var executionStateGasUsed: int
    var stateGasSnapshots: seq<(int, int)>
    ghost var audit: Audit

    ghost predicate Valid()
      reads this, journal, transient, manager
    {
      journal.Valid() && transient.Valid() && manager.Valid()
    }

    ghost function Now(): Sys
      requires Valid()
      reads this, journal, transient, manager
    {
      Sys(World(manager.Top(), Observed(transient.storage), journal.Now()),
          stateGasReservoir, executionStateGasUsed, audit)
    }

    ghost function Kept(): Stacks
      requires Valid()
      reads this, journal, transient, manager
    {
      Stacks(journal.snaps, transient.indices, ObservedAll(transient.saved), manager.Below(), stateGasSnapshots)
    }

    /** Between transactions transient storage is empty. */
    ghost predicate AtRest()
      reads transient
    {
      && Observed(transient.storage) == map[] && transient.changeJournal == []
      && forall j :: 0 <= j < |transient.indices| ==> transient.indices[j] == 0
    }

    constructor (p: Params)
      ensures Valid() && AtRest() && params == p && Kept() == Stacks([], [0], [map[]], [], [])
      ensures Now() == Sys(World(State(map[], map[], map[]), map[], Warmth(map[], {})), 0, 0, Audit(0, 0, true, true))
      ensures fresh(journal) && fresh(transient) && fresh(manager)
    {
      params := p;
      journal := new Journal();
      transient := new EvmTransient.TransientStorage();
      manager := new SimpleStateManager();
      stateGasReservoir, executionStateGasUsed, stateGasSnapshots := 0, 0, [];
      audit := Audit(0, 0, true, true);
    }

    // ----- the journal's operations on accounts and checkpoints -----

    /** The stored account, or an empty one. */
    method Account(a: Addr) returns (acc: Account)
      requires Valid()
      ensures acc == BalanceHolder(Now(), a)
    {
      var found := manager.GetAccount(a);
      acc := if found.Some? then found.value else EMPTY_ACCOUNT;
    }

    method PutAccount(a: Addr, acc: Account)
      requires Valid()
      modifies journal, manager
      ensures Valid() && Kept() == old(Kept()) && Now() == JournalPut(old(Now()), a, acc)
    {
      journal.TouchAccount(a);
      manager.PutAccount(a, Some(acc));
    }

    method Checkpoint()
      requires Valid()
      modifies journal, transient, manager, this`stateGasSnapshots
      ensures Valid() && Now() == old(Now()) && Opened(old(Kept()), Now(), Kept())
      ensures old(AtRest()) ==> AtRest()
    {
      journal.Checkpoint();
      manager.Checkpoint();
      transient.Checkpoint();
      stateGasSnapshots := stateGasSnapshots + [(stateGasReservoir, executionStateGasUsed)];
    }

    method Commit(ghost base: Stacks, ghost snap: Sys)
      requires Valid() && Opened(base, snap, Kept())
      modifies journal, transient, manager, this`stateGasSnapshots
      ensures Valid() && Now() == old(Now()) && Kept() == base
      ensures old(AtRest()) ==> AtRest()
    {
      journal.Commit();
      manager.Commit();
      var ok := transient.Commit();
      stateGasSnapshots := stateGasSnapshots[..|stateGasSnapshots|-1];
    }

    /**
      Accounts, code, storage, transient storage and warm addresses are those of `snap`, touched
      accounts but for RIPEMD160.
    */
    ghost predicate GivenBack(snap: Sys)
      requires Valid()
      reads this, journal, transient, manager
    {
      && manager.Top() == snap.world.state && Observed(transient.storage) == snap.world.transient
      && journal.journal == snap.world.warmth.journal
      && snap.world.warmth.touched <= journal.touched <= snap.world.warmth.touched + {RIPEMD160}
    }

    method Revert(m: Message, e: Err, ghost base: Stacks, ghost snap: Sys)
      requires Valid() && Opened(base, snap, Kept())
      modifies journal, transient, manager, this
      ensures Valid() && Kept() == base && GivenBack(snap)
      ensures e == StaticStateChange ==> stateGasReservoir + executionStateGasUsed == snap.reservoir + snap.used
      ensures Now() == Failed(params, m, snap, old(Now()), e)
      ensures old(AtRest()) ==> AtRest()
    {
      RevertWorld(base, snap);
      RestoreStateGas(m, e, snap, old(Now()));
    }

    /** The three undo mechanisms, side by side. */
    method RevertWorld(ghost base: Stacks, ghost snap: Sys)
      requires Valid() && Opened(base, snap, Kept())
      modifies journal, transient, manager
      ensures Valid() && Kept() == base.(gas := stateGasSnapshots)
      ensures Now().world ==
              World(snap.world.state, snap.world.transient, Restored(snap.world.warmth, old(journal.Now())))
      ensures old(AtRest()) ==> AtRest()
    {
      journal.Revert();
      manager.Revert();
      RevertTransient();
    }

    method RevertTransient()
      requires transient.Valid() && transient.indices != []
      modifies transient
      ensures transient.Valid() && transient.indices == old(transient.indices)[..|old(transient.indices)|-1]
      ensures var copies := old(ObservedAll(transient.saved));
              && |copies| > 0 && ObservedAll(transient.saved) == copies[..|copies|-1]
              && Observed(transient.storage) == copies[|copies|-1]
      ensures old(AtRest()) ==> AtRest()
    {
      ghost var copy, n := transient.saved[|transient.saved|-1], |transient.indices| - 1;
      if AtRest() {
        CopyAtRest(transient.changeJournal, transient.indices[n], transient.storage, copy);
      }
      var ok := transient.Revert();
      ObservedSame(transient.storage, copy);
    }

    /** Back to the counters at the frame's start, crediting what was spilled unless it stays consumed. */
    method RestoreStateGas(m: Message, e: Err, ghost snap: Sys, ghost now: Sys)
      requires stateGasSnapshots != [] && stateGasSnapshots[|stateGasSnapshots|-1] == (snap.reservoir, snap.used)
      requires now.reservoir == stateGasReservoir && now.used == executionStateGasUsed && now.audit == audit
      modifies this
      ensures stateGasSnapshots == old(stateGasSnapshots)[..|old(stateGasSnapshots)|-1]
      ensures var f := Failed(params, m, snap, now, e);
              stateGasReservoir == f.reservoir && executionStateGasUsed == f.used && audit == f.audit
    {
      var consumeSpilled := e == StaticStateChange;
      var n := |stateGasSnapshots| - 1;
      var (reservoir, used) := stateGasSnapshots[n];
      stateGasSnapshots := stateGasSnapshots[..n];
      var usedThisFrame := executionStateGasUsed - used;
      var reservoirPaid := reservoir - stateGasReservoir;
      var spilled := if usedThisFrame > reservoirPaid then usedThisFrame - reservoirPaid else 0;
      stateGasReservoir := reservoir + (if consumeSpilled then 0 else spilled);
      executionStateGasUsed := used;
      audit := audit.(burned := snap.audit.burned);
      if m.isCreate {
        stateGasReservoir := stateGasReservoir + params.newAccountStateGas;
        executionStateGasUsed := executionStateGasUsed - params.newAccountStateGas;
      }
    }

    // ----- moving value -----

    /** Take the value from the sender; on failure the object in the map is changed all the same. */
    method ReduceSenderBalance(m: Message) returns (err: Option<Err>)
      requires Valid()
      modifies journal, manager
      ensures Valid() && Kept() == old(Kept())
      ensures (Now(), err) == ReduceSender(m, old(Now()))
    {
      var found := manager.GetAccount(m.caller);
      var account := if found.Some? then found.value else EMPTY_ACCOUNT;
      account := account.(balance := account.balance - m.value);
      if account.balance < 0 {
        if found.Some? {
          manager.PutAccount(m.caller, Some(account));
        }
        return Some(InsufficientBalance);
      }
      PutAccount(m.caller, account);
      return None;
    }

    method AddToAccount(m: Message, toAccount: Account) returns (err: Option<Err>)
      requires Valid()
      modifies journal, manager
      ensures Valid() && Kept() == old(Kept())
      ensures (Now(), err) == AddToBalance(params, m, toAccount, old(Now()))
    {
      var newBalance := toAccount.balance + m.value;
      if newBalance > params.maxInteger {
        return Some(ValueOverflow);
      }
      PutAccount(m.to, toAccount.(balance := newBalance));
      return None;
    }

    method TransferValue(m: Message) returns (err: Option<Err>)
      requires Valid()
      modifies journal, manager
      ensures Valid() && Kept() == old(Kept())
      ensures (Now(), err) == Transfer(params, m, old(Now()))
      ensures err == if m.delegatecall then None else TransferError(params, m.caller, m.to, m.value, old(manager.Top()))
      ensures err.None? ==> Paid(m, old(manager.Top()), manager.Top())
    {
      TransferMoves(params, m, Now());
      err := None;
      if !m.delegatecall {
        err := ReduceSenderBalance(m);
        var toAccount := Account(m.to);
        var overflow := AddToAccount(m, toAccount);
        if overflow.Some? {
          err := overflow;
        }
      }
    }

    lemma RestIsUnused()
      requires Valid() && AtRest()
      ensures Unused(Kept())
    {
      forall j | 0 <= j < |transient.saved| ensures ObservedAll(transient.saved)[j] == map[] {
        assert EvmTransient.TransientStorage.Level(transient.changeJournal, transient.indices[j],
                                                   transient.storage, transient.saved[j]);
        CopyAtRest(transient.changeJournal, transient.indices[j], transient.storage, transient.saved[j]);
      }
    }

    /** The new account gets its first nonce and the value. */
    method EndowAccount(m: Message, target: Account) returns (err: Option<Err>)
      requires Valid()
      modifies journal, manager
      ensures Valid() && Kept() == old(Kept())
      ensures (Now(), err) == Endow(params, m, target, old(Now()))
    {
      PutAccount(m.to, target);
      err := AddToAccount(m, target.(nonce := target.nonce + 1));
    }

    /** Once the frame at depth 0 has run, transient storage is emptied. */
    method PostMessageCleanup()
      requires Valid() && Unused(Kept())
      modifies transient
      ensures Valid() && AtRest() && Kept() == old(Kept())
      ensures Now() == old(Now()).(world := old(Now()).world.(transient := map[]))
    {
      ghost var before := ObservedAll(transient.saved);
      assert forall j :: 0 <= j < |before| ==> before[j] == map[];
      transient.Clear();
      assert forall j :: 0 <= j < |before| ==> ObservedAll(transient.saved)[j] == map[];
      assert ObservedAll(transient.saved) == before;
    }

    // ----- messages -----

    /**
      A message in its own checkpoint.  Except for a creation at the top whose sender cannot
      pay, all undo stacks are as before and the machine is where the frame functions say: a
      failed message gives the checkpoint back, a successful one passes all its writes on.
      In that one case the error passes through and the checkpoint stays open.
    */
    method RunCall(m: Message, script: seq<Action>) returns (thrown: bool, result: CallResult)
      requires Valid() && Hosted(m, Now()) && NoDebt(Now().world.state) && (m.depth == 0 ==> AtRest())
      modifies this, journal, transient, manager
      ensures Valid() && (thrown <==> !Solvent(m, old(Now())))
      ensures !thrown ==> Kept() == old(Kept()) && (Now(), result) == EvmFrames.RunCall(params, m, script, old(Now()))
      ensures !thrown && result.err.Some? ==> GivenBack(BeforeCheckpoint(m, old(Now()))) && result.created == {}
      ensures !thrown && result.err == Some(StaticStateChange) ==>
        stateGasReservoir + executionStateGasUsed == old(stateGasReservoir + executionStateGasUsed)
      ensures !thrown && result.err.None? ==>
              (Now(), result) == Executed(params, m, script, BeforeCheckpoint(m, old(Now())))
      ensures !thrown ==> Effects(m, script, old(Now().world), Now().world, result.err)
      ensures !thrown && m.depth == 0 ==> AtRest()
      ensures thrown ==> Opened(old(Kept()), BeforeCheckpoint(m, old(Now())), Kept())
      decreases script, 6
    {
      ghost var base := Kept();
      MessageEffects(params, m, script, Now());
      Prepare(m);
      ghost var snap := Now();
      Checkpoint();
      ghost var inside := Kept();
      if m.isCreate {
        thrown, result := ExecuteCreate(m, script);
        if thrown { return; }
      } else {
        thrown := false;
        result := ExecuteCall(m, script);
      }
      assert Kept() == inside;
      result := CloseMessage(m, result, base, snap);
    }

    /** Count up the sender's nonce at depth 0, and warm the address of a creation. */
    method Prepare(m: Message)
      requires Valid() && NoDebt(Now().world.state)
      modifies journal, manager
      ensures Valid() && Kept() == old(Kept()) && Now() == BeforeCheckpoint(m, old(Now())) && NoDebt(Now().world.state)
    {
      if m.depth == 0 {
        var callerAccount := Account(m.caller);
        PutAccount(m.caller, callerAccount.(nonce := callerAccount.nonce + 1));
      }
      if m.isCreate {
        journal.AddWarmedAddress(m.to);
      }
    }

    /** Revert the checkpoint of a failed message, commit that of another. */
    method CloseMessage(m: Message, r: CallResult, ghost base: Stacks, ghost snap: Sys) returns (result: CallResult)
      requires Valid() && Opened(base, snap, Kept())
      modifies this, journal, transient, manager
      ensures Valid() && Kept() == base && (old(AtRest()) ==> AtRest())
      ensures r.err.Some? ==> result == r.(created := {}) && GivenBack(snap)
      ensures r.err.Some? ==> Now() == Failed(params, m, snap, old(Now()), r.err.value)
      ensures r.err == Some(StaticStateChange) ==>
              stateGasReservoir + executionStateGasUsed == snap.reservoir + snap.used
      ensures r.err.None? ==> result == r && Now() == old(Now())
    {
      result := r;
      if r.err.Some? {
        Revert(m, r.err.value, base, snap);
        result := r.(created := {});
      } else {
        Commit(base, snap);
      }
    }

    method ExecuteCall(m: Message, script: seq<Action>) returns (result: CallResult)
      requires Valid() && Hosted(m, Now()) && NoDebt(Now().world.state) && (m.depth == 0 ==> AtRest())
      modifies this, journal, transient, manager
      ensures Valid() && Kept() == old(Kept()) && (m.depth == 0 ==> AtRest())
      ensures (Now(), result) == EvmFrames.ExecuteCall(params, m, script, old(Now()))
      ensures script == [] && result.err.None? ==> Paid(m, old(manager.Top()), manager.Top())
      decreases script, 5
    {
      if m.depth == 0 { RestIsUnused(); }
      TransferKeeps(params, m, Now());
      var err := TransferValue(m);
      if script == [] || err.Some? {
        return CallResult(0, err, m.created);
      }
      result := RunInterpreter(m, script);
      if m.depth == 0 {
        PostMessageCleanup();
      }
    }

    method RunInterpreter(m: Message, script: seq<Action>) returns (result: CallResult)
      requires Valid() && AccountOf(Now().world.state, m.to).Some? && NoDebt(Now().world.state)
      modifies this, journal, transient, manager
      ensures Valid() && Kept() == old(Kept())
      ensures (Now(), result) == EvmFrames.RunInterpreter(params, m, script, old(Now()))
      ensures result.gasUsed ==
              if !EvmSpending.Orderly(result.err) then m.limit
              else EvmSpending.Spent(params, script, EnvOf(m), old(Now()), EvmSpending.Fresh(m, old(Now())))
      decreases script, 4
    {
      EvmSpending.FrameUses(params, m, script, Now());
      var contract := Account(m.to);
      var interpreter := new Interpreter(this, EnvOf(m), contract, m.created);
      interpreter.Run(script);
      var gasUsed := m.limit - interpreter.gasLeft;
      var created := interpreter.createdAddresses;
      if interpreter.err.Some? {
        if interpreter.err != Some(Reverted) {
          gasUsed := m.limit;
        }
        created := {};
      }
      result := CallResult(gasUsed, interpreter.err, created);
    }

    method ExecuteCreate(m0: Message, script: seq<Action>) returns (thrown: bool, result: CallResult)
      requires Valid() && NoDebt(Now().world.state) && (m0.depth == 0 ==> AtRest())
      modifies this, journal, transient, manager
      ensures Valid() && Kept() == old(Kept()) && (m0.depth == 0 ==> AtRest())
      ensures thrown <==> BalanceHolder(old(Now()), m0.caller).balance < m0.value
      ensures !thrown ==> (Now(), result) == EvmFrames.ExecuteCreate(params, m0, script, old(Now()))
      decreases script, 5
    {
      if m0.depth == 0 { RestIsUnused(); }
      ReduceValue(m0, Now());
      var err := ReduceSenderBalance(m0);
      result := CallResult(0, err, m0.created);
      thrown := err.Some?;
      if thrown { return; }
      if m0.initSize > params.maxInitCodeSize {
        result := CallResult(m0.limit, Some(InitcodeSize), m0.created);
        return;
      }
      var m := m0.(created := m0.created + {m0.to});
      var target := Account(m.to);
      if target.nonce > 0 || target.hasCode || target.hasStorage {
        result := CallResult(m.limit, Some(CreateCollision), m.created);
        return;
      }
      EndowKeeps(params, m, Now());
      var overflow := EndowAccount(m, target);
      if script == [] || overflow.Some? {
        result := CallResult(0, overflow, m.created);
        return;
      }
      result := RunInterpreter(m, script);
      result := DepositCode(m, result);
      if m.depth == 0 {
        PostMessageCleanup();
      }
    }

    /** Charge for the returned code, from the reservoir first, and store it. */
    method DepositCode(m: Message, r: CallResult) returns (result: CallResult)
      requires Valid()
      modifies this, manager
      ensures Valid() && Kept() == old(Kept())
      ensures (Now(), result) == Deposit(params, m, old(Now()), r)
      ensures result.err.None? <==> r.err.None? && Depositable(params, m, old(stateGasReservoir), r.gasUsed)
      ensures if result.err.Some? then manager.Top() == old(manager.Top())
              else Deployed(old(manager.Top()), manager.Top(), m.to, m.deployed)
    {
      DepositPuts(params, m, Now(), r);
      result := r;
      var length := |m.deployed|;
      var totalGas, returnFee, stateGasCreate, fromReservoir, spill := r.gasUsed, 0, 0, 0, 0;
      if r.err.None? {
        returnFee := (length + 31) / 32 * params.codeDepositHashWordGas;
        stateGasCreate := length * params.costPerStateByte;
        fromReservoir := if stateGasCreate < stateGasReservoir then stateGasCreate else stateGasReservoir;
        spill := stateGasCreate - fromReservoir;
        totalGas := totalGas + returnFee + spill;
      }
      var allowedCodeSize := r.err.Some? || length <= params.maxCodeSize;
      if totalGas > m.limit || !allowedCodeSize {
        result := r.(gasUsed := m.limit, err := Some(if !allowedCodeSize then CodeSize else OutOfGas));
      } else if Formatted(m, r) {
        result := r.(gasUsed := m.limit, err := Some(InvalidBytecode));
      } else {
        result := r.(gasUsed := totalGas);
        if stateGasCreate > 0 {
          stateGasReservoir := stateGasReservoir - fromReservoir;
          executionStateGasUsed := executionStateGasUsed + stateGasCreate;
          audit := audit.(spilled := audit.spilled + spill);
        }
        if r.err.None? && length > 0 {
          manager.PutCode(m.to, m.deployed);
        }
      }
    }
  }

  /** One running frame. */
  class Interpreter {
    const evm: Evm
    const env: Env
    var gasLeft: int
    var contract: Account
    var createdAddresses: set<Addr>
    var stopped: bool
    var err: Option<Err>

    ghost function Here(): Local
      reads this
    {
      Local(gasLeft, contract, createdAddresses, stopped, err)
    }

    /** Able to take a step: running, with the stored account cached and no account in debt. */
    ghost predicate Ready()
      reads this, evm, evm.journal, evm.transient, evm.manager
    {
      && evm.Valid() && !Ended(Here()) && Cached(env, evm.Now(), Here()) && NoDebt(evm.Now().world.state)
    }

    constructor (evm: Evm, env: Env, contract: Account, created: set<Addr>)
      ensures this.evm == evm && this.env == env && Here() == Local(env.limit, contract, created, false, None)
    {
      this.evm, this.env, this.contract, createdAddresses := evm, env, contract, created;
      gasLeft, stopped, err := env.limit, false, None;
    }

    method Trap(e: Err)
      modifies this`err
      ensures Here() == Fail(old(Here()), e)
    {
      err := Some(e);
    }

    method UseGas(amount: int)
      modifies this`gasLeft, this`err
      ensures Here() == UseGasOf(old(Here()), amount)
    {
      gasLeft := gasLeft - amount;
      if gasLeft < 0 {
        gasLeft := 0;
        Trap(OutOfGas);
      }
    }

    /** A state change in a static frame. */
    method TrapStatic()
      requires evm.Valid()
      modifies this`err, evm`audit
      ensures evm.Valid() && evm.Kept() == old(evm.Kept())
      ensures (evm.Now(), Here()) == Violation(old(evm.Now()), old(Here()))
    {
      evm.audit := evm.audit.(clean := false);
      Trap(StaticStateChange);
    }

    /** Reservoir first, then gas left; the used counter only once both sufficed. */
    method ChargeStateGas(amount: nat)
      requires evm.Valid() && err.None?
      modifies this`gasLeft, this`err, evm
      ensures evm.Valid() && evm.Kept() == old(evm.Kept())
      ensures (evm.Now(), Here()) == ChargeState(old(evm.Now()), old(Here()), amount)
    {
      if amount == 0 { return; }
      var remaining := amount;
      if evm.stateGasReservoir > 0 {
        var fromReservoir := if remaining < evm.stateGasReservoir then remaining else evm.stateGasReservoir;
        evm.stateGasReservoir := evm.stateGasReservoir - fromReservoir;
        remaining := remaining - fromReservoir;
      }
      if remaining > 0 {
        UseGas(remaining);
        if err.Some? {
          evm.audit := evm.audit.(clean := false);
          return;
        }
      }
      evm.executionStateGasUsed := evm.executionStateGasUsed + amount;
      evm.audit := evm.audit.(spilled := evm.audit.spilled + remaining);
    }

    method RefillStateGasReservoir(amount: nat)
      requires evm.Valid()
      modifies evm
      ensures evm.Valid() && evm.Kept() == old(evm.Kept()) && evm.Now() == Refill(old(evm.Now()), amount)
    {
      evm.stateGasReservoir := evm.stateGasReservoir + amount;
      evm.executionStateGasUsed := evm.executionStateGasUsed - amount;
    }

    // ----- running -----

    /** Step through a script until the frame ends. */
    method Run(script: seq<Action>)
      requires Ready()
      modifies this, evm, evm.journal, evm.transient, evm.manager
      ensures evm.Valid() && evm.Kept() == old(evm.Kept())
      ensures (evm.Now(), Here()) == EvmFrames.Run(evm.params, script, env, old(evm.Now()), old(Here()))
      ensures env.isStatic ==> Untouched(old(evm.Now().world), evm.Now().world)
      decreases script, 3
    {
      ghost var s, l, p := evm.Now(), Here(), evm.params;
      if env.isStatic { StaticRun(p, script, env, s, l); }
      var i := 0;
      while i < |script| && !stopped && err.None?
        invariant i <= |script|
        invariant evm.Valid() && evm.Kept() == old(evm.Kept())
        invariant (evm.Now(), Here()) == EvmFrames.Run(p, script[..i], env, s, l)
      {
        RunValue(p, script[..i], env, s, l);
        assert script[..i+1][..i] == script[..i];
        Step(script[i]);
        i := i + 1;
      }
      if i < |script| {
        RunStops(p, script, i, env, s, l);
      } else {
        assert script[..i] == script;
      }
    }

    method Step(action: Action)
      requires Ready()
      modifies this, evm, evm.journal, evm.transient, evm.manager
      ensures evm.Valid() && evm.Kept() == old(evm.Kept())
      ensures (evm.Now(), Here()) == EvmFrames.Step(evm.params, action, env, old(evm.Now()), old(Here()))
      decreases action, 9
    {
      match action
      case Call(_, _, _, _, _, _) => BaseCall(action);
      case Create(_, _, _, _, _, _) => Create(action);
      case SelfDestruct(to) => SelfDestruct(to);
      case StorageStore(k, v) => StorageStore(k, v);
      case TransientStore(k, v) => TransientStorageStore(k, v);
      case _ => StepPlain(action);
    }

    /** The actions that only use gas, warm something or end the frame. */
    method StepPlain(action: Action)
      requires Ready() && !action.Call? && !action.Create? && !action.SelfDestruct? && !action.StorageStore?
      requires !action.TransientStore?
      modifies this, evm, evm.journal
      ensures evm.Valid() && evm.Kept() == old(evm.Kept())
      ensures (evm.Now(), Here()) == EvmFrames.Step(evm.params, action, env, old(evm.Now()), old(Here()))
    {
      match action
      case UseGas(amount) => UseGas(amount);
      case ChargeStateGas(amount) => ChargeStateGas(amount);
      case RefillStateGas(amount) => RefillStateGasReservoir(amount);
      case WarmAddress(a) => evm.journal.AddWarmedAddress(a);
      case WarmSlot(a, k) => evm.journal.AddWarmedStorage(a, k);
      case Stop => stopped := true;
      case RevertFrame => Trap(Reverted);
      case Halt => Trap(Exceptional);
    }

    method StorageStore(k: Bytes, v: Bytes)
      requires Ready()
      modifies this`contract, this`err, evm`audit, evm.manager
      ensures evm.Valid() && evm.Kept() == old(evm.Kept())
      ensures (evm.Now(), Here()) == StoreStep(env, k, v, old(evm.Now()), old(Here()))
      ensures env.isStatic ==> err == Some(StaticStateChange) && evm.manager.Top() == old(evm.manager.Top())
      ensures !env.isStatic ==>
                && err.None? && SameAccounts(old(evm.manager.Top()), evm.manager.Top())
                && evm.manager.Top().code == old(evm.manager.Top()).code
                && evm.manager.Top().storage == old(evm.manager.Top()).storage[(env.address, k) := v]
    {
      if env.isStatic {
        TrapStatic();
      } else {
        evm.manager.PutStorage(env.address, k, v);
        var account := evm.manager.GetAccount(env.address);
        if account.None? {
          assert false;
        } else {
          contract := account.value;
        }
      }
    }

    method TransientStorageStore(k: Word, v: ShortWord)
      requires Ready()
      modifies this`err, evm`audit, evm.transient
      ensures evm.Valid() && evm.Kept() == old(evm.Kept())
      ensures (evm.Now(), Here()) == TransientStep(env, k, v, old(evm.Now()), old(Here()))
      ensures err == if env.isStatic then Some(StaticStateChange) else None
      ensures forall a, j :: EvmTransient.View(evm.transient.storage, a, j) ==
                             if !env.isStatic && a == env.address && j == k then v
                             else old(EvmTransient.View(evm.transient.storage, a, j))
    {
      if env.isStatic {
        TrapStatic();
      } else {
        ObservedWrite(evm.transient.storage, env.address, k, v);
        var ok := evm.transient.Put(env.address, k, v);
        if !ok {
          assert false;
        }
      }
    }

    /** Check depth and balance, run the child, pay for it and take over what it leaves. */
    method BaseCall(action: Action)
      requires Ready() && action.Call?
      modifies this, evm, evm.journal, evm.transient, evm.manager
      ensures evm.Valid() && evm.Kept() == old(evm.Kept())
      ensures (evm.Now(), Here()) == CallStep(evm.params, action, env, old(evm.Now()), old(Here()))
      ensures env.isStatic || IsStaticCall(action) ==> Untouched(old(evm.Now().world), evm.Now().world)
      decreases action, 8
    {
      StaticCalls(evm.params, action, env, evm.Now(), Here());
      var m := MessageOf(action, env, Local(gasLeft, contract, createdAddresses, stopped, err));
      if action.kind.Plain? && env.isStatic && action.value != 0 {
        TrapStatic();
        return;
      }
      PassStipend(m, action);
      if env.depth >= evm.params.stackLimit || (!m.delegatecall && contract.balance < m.value) {
        return;
      }
      RunChild(m, action.script);
    }

    method PassStipend(m: Message, action: Action)
      requires evm.Valid() && action.Call?
      modifies this`gasLeft, evm`audit
      ensures evm.Valid() && evm.Kept() == old(evm.Kept())
      ensures (evm.Now(), Here()) == Stipend(m, action, env, old(evm.Now()), old(Here()))
    {
      gasLeft := gasLeft + (m.limit - action.limit);
      evm.audit := evm.audit.(fits := evm.audit.fits && gasLeft <= env.limit);
    }

    /** Run an inner message and settle with it. */
    method RunChild(m: Message, script: seq<Action>)
      requires Ready() && m.depth > 0 && Hosted(m, evm.Now())
      requires Solvent(m, Fitting(m, evm.Now(), Here()))
      modifies this, evm, evm.journal, evm.transient, evm.manager
      ensures evm.Valid() && evm.Kept() == old(evm.Kept())
      ensures var r := EvmFrames.RunCall(evm.params, m, script, Fitting(m, old(evm.Now()), old(Here())));
              (evm.Now(), Here()) == (r.0, Settle(env, r.0, old(Here()), r.1))
      decreases script, 7
    {
      evm.audit := evm.audit.(fits := evm.audit.fits && m.limit <= gasLeft);
      MessageValue(evm.params, m, script, evm.Now());
      assert AccountOf(evm.Now().world.state, env.address).Some?;
      var thrown, results := evm.RunCall(m, script);
      if thrown {
        assert false;
      } else {
        SettleWith(results);
      }
    }

    method SettleWith(results: CallResult)
      requires evm.Valid() && AccountOf(evm.Now().world.state, env.address).Some?
      modifies this
      ensures Here() == Settle(env, evm.Now(), old(Here()), results)
    {
      UseGas(results.gasUsed);
      if err.None? && results.err.None? {
        createdAddresses := createdAddresses + results.created;
        var account := evm.manager.GetAccount(env.address);
        if account.None? {
          assert false;
        } else {
          contract := account.value;
        }
      }
    }

    method Create(action: Action)
      requires Ready() && action.Create?
      modifies this, evm, evm.journal, evm.transient, evm.manager
      ensures evm.Valid() && evm.Kept() == old(evm.Kept())
      ensures (evm.Now(), Here()) == CreateStep(evm.params, action, env, old(evm.Now()), old(Here()))
      decreases action, 8
    {
      ChargeStateGas(evm.params.newAccountStateGas);
      if err.None? {
        if env.isStatic {
          TrapStatic();
        } else {
          CreateContract(action);
        }
      }
    }

    /** Refund the charge when no child frame is entered. */
    method CreateContract(action: Action)
      requires Ready() && action.Create?
      modifies this, evm, evm.journal, evm.transient, evm.manager
      ensures evm.Valid() && evm.Kept() == old(evm.Kept())
      ensures (evm.Now(), Here()) == CreateChild(evm.params, action, env, old(evm.Now()), old(Here()))
      decreases action, 7
    {
      if env.depth >= evm.params.stackLimit || contract.balance < action.value
         || contract.nonce >= evm.params.maxUint64 {
        RefillStateGasReservoir(evm.params.newAccountStateGas);
        return;
      }
      CreatorCanPay(action, env, evm.Now(), Here());
      contract := contract.(nonce := contract.nonce + 1);
      evm.PutAccount(env.address, contract);
      if action.initSize > evm.params.maxInitCodeSize {
        RefillStateGasReservoir(evm.params.newAccountStateGas);
        return;
      }
      var m := MessageOf(action, env, Local(gasLeft, contract, createdAddresses, stopped, err));
      RunChild(m, action.script);
    }

    /** Pay the balance out and zero it, unless that would keep it in an older account. */
    method SelfDestruct(to: Addr)
      requires Ready()
      modifies this, evm, evm.journal, evm.transient, evm.manager
      ensures evm.Valid() && evm.Kept() == old(evm.Kept())
      ensures (evm.Now(), Here()) == SelfDestructStep(evm.params, env, to, old(evm.Now()), old(Here()))
      ensures err.None? ==>
                if to == env.address && env.address in createdAddresses then
                  Burned(old(evm.manager.Top()), evm.manager.Top(), to, old(contract.balance))
                else Moved(old(evm.manager.Top()), evm.manager.Top(), env.address, to, old(contract.balance))
    {
      SelfDestructMoves(evm.params, env, to, evm.Now(), Here());
      if env.isStatic {
        TrapStatic();
        return;
      }
      var toSelf := to == env.address;
      var found := evm.manager.GetAccount(to);
      var beneficiaryWasNew := !toSelf && IsEmpty(found) && contract.balance > 0;
      PayBeneficiary(to);
      if beneficiaryWasNew {
        ChargeStateGas(evm.params.newAccountStateGas);
        if err.Some? { return; }
      }
      if env.address in createdAddresses || !toSelf {
        ZeroBalance(to);
      }
      stopped := true;
    }

    method PayBeneficiary(to: Addr)
      requires evm.Valid()
      modifies evm.journal, evm.manager
      ensures evm.Valid() && evm.Kept() == old(evm.Kept())
      ensures evm.Now() == PaidOut(env, to, contract.balance, old(evm.Now()))
    {
      if to != env.address {
        var toAccount := evm.Account(to);
        evm.PutAccount(to, toAccount.(balance := toAccount.balance + contract.balance));
      }
    }

    method ZeroBalance(to: Addr)
      requires evm.Valid()
      modifies evm`audit, evm.manager
      ensures evm.Valid() && evm.Kept() == old(evm.Kept())
      ensures evm.Now() == Zeroed(env, to, old(evm.Now()))
    {
      var own := evm.Account(env.address);
      evm.manager.PutAccount(env.address, Some(own.(balance := 0)));
      evm.audit := evm.audit.(burned := evm.audit.burned + if to == env.address then own.balance else 0);
    }
  }
}
