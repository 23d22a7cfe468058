/**
  Message frames as values.  A frame runs a script of actions; `RunCall` wraps a frame in a
  checkpoint and gives back the checkpoint's world when the frame fails.  These functions
  say what the machine computes without its undo logs and map stacks; `audit` counts what
  the conservation laws talk about and influences nothing.
*/
module EvmFrames {
  import opened Wrappers
  import opened EvmTypes
  import opened EvmJournal
  import opened EvmStateManager
  import EvmTransient

  datatype Err =
    | OutOfGas | Reverted | InsufficientBalance | ValueOverflow | CreateCollision
    | InitcodeSize | CodeSize | InvalidBytecode | StaticStateChange | Exceptional

  datatype CallKind = Plain | CallCode | StaticCall | DelegateCall

  /** What a frame may do, one step at a time; opcode charges are explicit actions. */
  datatype Action =
    | UseGas(amount: nat)
    | ChargeStateGas(amount: nat)
    | RefillStateGas(amount: nat)
    | StorageStore(key: Word, word: ShortWord)
    | TransientStore(key: Word, word: ShortWord)
    | WarmAddress(addr: Addr)
    | WarmSlot(addr: Addr, key: Word)
    | Call(kind: CallKind, target: Addr, value: nat, limit: nat, stipend: nat, script: seq<Action>)
    | Create(at: Addr, value: nat, limit: nat, initSize: nat, script: seq<Action>, deployed: Bytes)
    | SelfDestruct(beneficiary: Addr)
    | Stop
    | RevertFrame
    | Halt

  /** The protocol parameters that matter here. */
  datatype Params = Params(
    stackLimit: nat, maxInitCodeSize: nat, maxCodeSize: nat, newAccountStateGas: nat,
    costPerStateByte: nat, codeDepositHashWordGas: nat, maxInteger: nat, maxUint64: nat)

  /** Transient storage as it can be observed: the slots that do not read as zeros. */
  type Transient = map<(Addr, Bytes), Bytes>

  datatype World = World(state: State, transient: Transient, warmth: Warmth)

  /**
    State gas charged to gas left, balance burned, and whether no frame so far ended in a
    static violation or ran out inside a state charge, and every child limit fitted.
  */
  datatype Audit = Audit(spilled: int, burned: int, clean: bool, fits: bool)

  datatype Sys = Sys(world: World, reservoir: int, used: int, audit: Audit)

  datatype Env = Env(address: Addr, caller: Addr, callValue: nat, isStatic: bool, depth: nat, limit: nat)

  /** What a running frame keeps to itself: its gas, its cached account, and how it ended. */
  datatype Local = Local(gasLeft: int, contract: Account, created: set<Addr>, stopped: bool, err: Option<Err>)

  datatype Message = Message(
    caller: Addr, to: Addr, value: nat, limit: nat, delegatecall: bool, isStatic: bool, depth: nat,
    isCreate: bool, initSize: nat, deployed: Bytes, created: set<Addr>)

  datatype CallResult = CallResult(gasUsed: int, err: Option<Err>, created: set<Addr>)

  predicate Ended(l: Local) {
    l.stopped || l.err.Some?
  }

  function Min(a: int, b: int): int {
    if a < b then a else b
  }

  // ----- accounts -----

  function BalanceHolder(s: Sys, a: Addr): Account
  {
    var acc := AccountOf(s.world.state, a);
    if acc.Some? then acc.value else EMPTY_ACCOUNT
  }

  function SetState(s: Sys, state: State): Sys {
    s.(world := s.world.(state := state))
  }

  function Touch(s: Sys, a: Addr): Sys {
    s.(world := s.world.(warmth := s.world.warmth.(touched := s.world.warmth.touched + {a})))
  }

  /** Store an account and mark it touched. */
  function JournalPut(s: Sys, a: Addr, acc: Account): Sys {
    SetState(Touch(s, a), WithAccount(s.world.state, a, Some(acc)))
  }

  function WarmUp(s: Sys, a: Addr): Sys {
    if a in s.world.warmth.journal then s
    else s.(world := s.world.(warmth := s.world.warmth.(journal := s.world.warmth.journal[a := {}])))
  }

  function WarmUpSlot(s: Sys, a: Addr, k: Bytes): Sys {
    var j := s.world.warmth.journal;
    s.(world := s.world.(warmth := s.world.warmth.(journal := j[a := (if a in j then j[a] else {}) + {k}])))
  }

  // ----- gas -----

  function UseGasOf(l: Local, amount: int): Local {
    if l.gasLeft - amount < 0 then l.(gasLeft := 0, err := Some(OutOfGas)) else l.(gasLeft := l.gasLeft - amount)
  }

  /** Reservoir first, then gas left; the used counter grows only when both together suffice. */
  function ChargeState(s: Sys, l: Local, amount: nat): (Sys, Local)
  {
    var fromReservoir := if s.reservoir > 0 then Min(amount, s.reservoir) else 0;
    var remaining := amount - fromReservoir;
    var s1 := s.(reservoir := s.reservoir - fromReservoir);
    var l1 := if remaining > 0 then UseGasOf(l, remaining) else l;
    if l1.err.Some? then (s1.(audit := s1.audit.(clean := false)), l1)
    else (s1.(used := s1.used + amount, audit := s1.audit.(spilled := s1.audit.spilled + remaining)), l1)
  }

  function Refill(s: Sys, amount: nat): Sys {
    s.(reservoir := s.reservoir + amount, used := s.used - amount)
  }

  function Fail(l: Local, e: Err): Local {
    l.(err := Some(e))
  }

  // ----- frames -----

  /** The frame after a whole script, or after the action that ended it. */
  function Run(p: Params, script: seq<Action>, env: Env, s: Sys, l: Local): (Sys, Local)
    decreases script, 3
  {
    if script == [] then (s, l)
    else
      var before := Run(p, script[..|script|-1], env, s, l);
      if Ended(before.1) then before else Step(p, script[|script|-1], env, before.0, before.1)
  }

  function Step(p: Params, action: Action, env: Env, s: Sys, l: Local): (Sys, Local)
    decreases action, 9
  {
    match action
    case UseGas(amount) => (s, UseGasOf(l, amount))
    case ChargeStateGas(amount) => ChargeState(s, l, amount)
    case RefillStateGas(amount) => (Refill(s, amount), l)
    case StorageStore(k, v) => StoreStep(env, k, v, s, l)
    case TransientStore(k, v) => TransientStep(env, k, v, s, l)
    case WarmAddress(a) => (WarmUp(s, a), l)
    case WarmSlot(a, k) => (WarmUpSlot(s, a, k), l)
    case Call(_, _, _, _, _, _) => CallStep(p, action, env, s, l)
    case Create(_, _, _, _, _, _) => CreateStep(p, action, env, s, l)
    case SelfDestruct(to) => SelfDestructStep(p, env, to, s, l)
    case Stop => (s, l.(stopped := true))
    case RevertFrame => (s, Fail(l, Reverted))
    case Halt => (s, Fail(l, Exceptional))
  }

  /** A static violation ends the frame. */
  function Violation(s: Sys, l: Local): (Sys, Local) {
    (s.(audit := s.audit.(clean := false)), Fail(l, StaticStateChange))
  }

  function StoreStep(env: Env, k: Bytes, v: Bytes, s: Sys, l: Local): (Sys, Local)
  {
    if env.isStatic then Violation(s, l)
    else
      var state := s.world.state;
      var s1 := SetState(s, state.(storage := state.storage[(env.address, k) := v]));
      (s1, l.(contract := BalanceHolder(s1, env.address)))
  }

  function TransientWrite(t: Transient, a: Addr, k: Bytes, v: Bytes): Transient {
    if v == EvmTransient.ZERO_WORD then t - {(a, k)} else t[(a, k) := v]
  }

  function TransientStep(env: Env, k: Word, v: ShortWord, s: Sys, l: Local): (Sys, Local)
  {
    if env.isStatic then Violation(s, l)
    else (s.(world := s.world.(transient := TransientWrite(s.world.transient, env.address, k, v))), l)
  }

  function MessageOf(action: Action, env: Env, l: Local): Message
    requires action.Call? || action.Create?
  {
    if action.Create? then
      Message(env.address, action.at, action.value, action.limit, false, false, env.depth + 1,
              true, action.initSize, action.deployed, l.created)
    else
      var stipend := if action.value != 0 && (action.kind.Plain? || action.kind.CallCode?) then action.stipend else 0;
      Message(
        if action.kind.DelegateCall? then env.caller else env.address,
        if action.kind.Plain? || action.kind.StaticCall? then action.target else env.address,
        match action.kind case StaticCall => 0 case DelegateCall => env.callValue case _ => action.value,
        action.limit + stipend, action.kind.DelegateCall?, env.isStatic || action.kind.StaticCall?, env.depth + 1,
        false, 0, [], l.created)
  }

  /** The stipend of a call with value, which should have been charged before. */
  function Stipend(m: Message, action: Action, env: Env, s: Sys, l: Local): (Sys, Local)
    requires action.Call?
  {
    var l1 := l.(gasLeft := l.gasLeft + (m.limit - action.limit));
    (s.(audit := s.audit.(fits := s.audit.fits && l1.gasLeft <= env.limit)), l1)
  }

  /** Note whether a child's limit fits in the gas left. */
  function Fitting(m: Message, s: Sys, l: Local): Sys {
    s.(audit := s.audit.(fits := s.audit.fits && m.limit <= l.gasLeft))
  }

  /** The creating account's nonce goes up, and is stored. */
  function Nonced(env: Env, s: Sys, l: Local): (Sys, Local) {
    var l1 := l.(contract := l.contract.(nonce := l.contract.nonce + 1));
    (JournalPut(s, env.address, l1.contract), l1)
  }

  function CallStep(p: Params, action: Action, env: Env, s: Sys, l: Local): (Sys, Local)
    requires action.Call?
    decreases action, 8
  {
    var m := MessageOf(action, env, l);
    if action.kind.Plain? && env.isStatic && action.value != 0 then Violation(s, l)
    else
      var at := Stipend(m, action, env, s, l);
      if env.depth >= p.stackLimit || (!m.delegatecall && at.1.contract.balance < m.value) then at
      else
        var r := RunCall(p, m, action.script, Fitting(m, at.0, at.1));
        (r.0, Settle(env, r.0, at.1, r.1))
  }

  /** Pay for a finished child and take over what it leaves when it succeeded. */
  function Settle(env: Env, s: Sys, l: Local, r: CallResult): Local
  {
    var l1 := UseGasOf(l, r.gasUsed);
    if l1.err.Some? || r.err.Some? then l1
    else l1.(created := l1.created + r.created, contract := BalanceHolder(s, env.address))
  }

  function CreateStep(p: Params, action: Action, env: Env, s: Sys, l: Local): (Sys, Local)
    requires action.Create?
    decreases action, 8
  {
    var charged := ChargeState(s, l, p.newAccountStateGas);
    if charged.1.err.Some? then charged
    else if env.isStatic then Violation(charged.0, charged.1)
    else CreateChild(p, action, env, charged.0, charged.1)
  }

  function CreateChild(p: Params, action: Action, env: Env, s: Sys, l: Local): (Sys, Local)
    requires action.Create?
    decreases action, 7
  {
    if env.depth >= p.stackLimit || l.contract.balance < action.value || l.contract.nonce >= p.maxUint64 then
      (Refill(s, p.newAccountStateGas), l)
    else
      var at := Nonced(env, s, l);
      if action.initSize > p.maxInitCodeSize then (Refill(at.0, p.newAccountStateGas), at.1)
      else
        var m := MessageOf(action, env, at.1);
        var r := RunCall(p, m, action.script, Fitting(m, at.0, at.1));
        (r.0, Settle(env, r.0, at.1, r.1))
  }

  predicate IsEmpty(acc: Option<Account>) {
    acc.None? || (acc.value.balance == 0 && acc.value.nonce == 0 && !acc.value.hasCode)
  }

  /** The balance goes to a beneficiary other than the contract itself. */
  function PaidOut(env: Env, to: Addr, amount: int, s: Sys): Sys {
    if to == env.address then s
    else var acc := BalanceHolder(s, to); JournalPut(s, to, acc.(balance := acc.balance + amount))
  }

  /** The contract's own balance becomes nothing; it is burned when it was not paid out. */
  function Zeroed(env: Env, to: Addr, s: Sys): Sys {
    var own := BalanceHolder(s, env.address);
    var z := SetState(s, WithAccount(s.world.state, env.address, Some(own.(balance := 0))));
    z.(audit := z.audit.(burned := z.audit.burned + if to == env.address then own.balance else 0))
  }

  function SelfDestructStep(p: Params, env: Env, to: Addr, s: Sys, l: Local): (Sys, Local)
  {
    if env.isStatic then Violation(s, l)
    else
      var toSelf := to == env.address;
      var isNew := !toSelf && IsEmpty(AccountOf(s.world.state, to)) && l.contract.balance > 0;
      var paid := PaidOut(env, to, l.contract.balance, s);
      var charged := if isNew then ChargeState(paid, l, p.newAccountStateGas) else (paid, l);
      if charged.1.err.Some? then charged
      else
        (if env.address in l.created || !toSelf then Zeroed(env, to, charged.0) else charged.0,
         charged.1.(stopped := true))
  }

  // ----- messages -----

  /** Before the checkpoint: the caller's nonce at depth 0, the new address made warm. */
  function BeforeCheckpoint(m: Message, s: Sys): Sys
  {
    var s1 := if m.depth == 0 then
                var acc := BalanceHolder(s, m.caller); JournalPut(s, m.caller, acc.(nonce := acc.nonce + 1))
              else s;
    if m.isCreate then WarmUp(s1, m.to) else s1
  }

  /** A message in its own checkpoint.  A failed frame gives back the world of the checkpoint. */
  function RunCall(p: Params, m: Message, script: seq<Action>, s: Sys): (Sys, CallResult)
    decreases script, 6
  {
    var snap := BeforeCheckpoint(m, s);
    var r := if m.isCreate then ExecuteCreate(p, m, script, snap) else ExecuteCall(p, m, script, snap);
    if r.1.err.Some? then (Failed(p, m, snap, r.0, r.1.err.value), r.1.(created := {})) else r
  }

  function Failed(p: Params, m: Message, snap: Sys, now: Sys, e: Err): Sys
  {
    var usedThisFrame := now.used - snap.used;
    var reservoirPaid := snap.reservoir - now.reservoir;
    var spilled := if usedThisFrame > reservoirPaid then usedThisFrame - reservoirPaid else 0;
    var back := Sys(
      World(snap.world.state,
            snap.world.transient,
            Restored(snap.world.warmth, now.world.warmth)),
      snap.reservoir + (if e == StaticStateChange then 0 else spilled),
      snap.used,
      now.audit.(burned := snap.audit.burned));
    if m.isCreate then Refill(back, p.newAccountStateGas) else back
  }

  /** Take the value from the sender; the account found in the map is changed even on failure. */
  function ReduceSender(m: Message, s: Sys): (Sys, Option<Err>)
  {
    var acc := BalanceHolder(s, m.caller);
    var reduced := acc.(balance := acc.balance - m.value);
    if reduced.balance < 0 then
      (if AccountOf(s.world.state, m.caller).Some? then SetState(s, WithAccount(s.world.state, m.caller, Some(reduced)))
       else s,
       Some(InsufficientBalance))
    else (JournalPut(s, m.caller, reduced), None)
  }

  function AddToBalance(p: Params, m: Message, acc: Account, s: Sys): (Sys, Option<Err>)
  {
    if acc.balance + m.value > p.maxInteger then (s, Some(ValueOverflow))
    else (JournalPut(s, m.to, acc.(balance := acc.balance + m.value)), None)
  }

  function Transfer(p: Params, m: Message, s: Sys): (Sys, Option<Err>)
  {
    if m.delegatecall then (s, None)
    else
      var a := ReduceSender(m, s);
      var b := AddToBalance(p, m, BalanceHolder(a.0, m.to), a.0);
      (b.0, if b.1.Some? then b.1 else a.1)
  }

  function ExecuteCall(p: Params, m: Message, script: seq<Action>, s: Sys): (Sys, CallResult)
    decreases script, 5
  {
    var t := Transfer(p, m, s);
    if script == [] || t.1.Some? then (t.0, CallResult(0, t.1, m.created))
    else
      var r := RunInterpreter(p, m, script, t.0);
      (ClearedAtTop(m, r.0), r.1)
  }

  function ClearedAtTop(m: Message, s: Sys): Sys {
    if m.depth == 0 then s.(world := s.world.(transient := map[])) else s
  }

  function EnvOf(m: Message): Env {
    Env(m.to, m.caller, m.value, m.isStatic, m.depth, m.limit)
  }

  function RunInterpreter(p: Params, m: Message, script: seq<Action>, s: Sys): (Sys, CallResult)
    decreases script, 4
  {
    var r := Run(p, script, EnvOf(m), s, Local(m.limit, BalanceHolder(s, m.to), m.created, false, None));
    (r.0, FrameResult(m, r.1))
  }

  /** An error other than a revert consumes all gas and gives up the created addresses. */
  function FrameResult(m: Message, l: Local): CallResult
  {
    CallResult(
      if l.err.Some? && l.err != Some(Reverted) then m.limit else m.limit - l.gasLeft,
      l.err,
      if l.err.Some? then {} else l.created)
  }

  function ExecuteCreate(p: Params, m0: Message, script: seq<Action>, s: Sys): (Sys, CallResult)
    decreases script, 5
  {
    var a := ReduceSender(m0, s);
    var m := m0.(created := m0.created + {m0.to});
    var target := BalanceHolder(a.0, m.to);
    if a.1.Some? then (a.0, CallResult(0, a.1, m0.created))
    else if m0.initSize > p.maxInitCodeSize then (a.0, CallResult(m.limit, Some(InitcodeSize), m0.created))
    else if target.nonce > 0 || target.hasCode || target.hasStorage then
      (a.0, CallResult(m.limit, Some(CreateCollision), m.created))
    else
      var b := Endow(p, m, target, a.0);
      if script == [] || b.1.Some? then (b.0, CallResult(0, b.1, m.created))
      else
        var r := RunInterpreter(p, m, script, b.0);
        var d := Deposit(p, m, r.0, r.1);
        (ClearedAtTop(m, d.0), d.1)
  }

  /** The new account gets its first nonce and the value. */
  function Endow(p: Params, m: Message, target: Account, s: Sys): (Sys, Option<Err>) {
    AddToBalance(p, m, target.(nonce := target.nonce + 1), JournalPut(s, m.to, target))
  }

  const FORMAT: Byte := 0xef

  /** What a creation frame returns: its code, or the data of a revert. */
  function Returned(m: Message, r: CallResult): Bytes {
    if r.err.None? || r.err == Some(Reverted) then m.deployed else []
  }

  /** The returned bytes begin like a format that may not be deployed. */
  predicate Formatted(m: Message, r: CallResult) {
    Returned(m, r) != [] && Returned(m, r)[0] == FORMAT
  }

  /** Charge for the returned code and store it; a failed frame only has its returned bytes looked at. */
  function Deposit(p: Params, m: Message, s: Sys, r: CallResult): (Sys, CallResult)
  {
    var length := |m.deployed|;
    var returnFee := (length + 31) / 32 * p.codeDepositHashWordGas;
    var stateGas := length * p.costPerStateByte;
    var fromReservoir := if stateGas < s.reservoir then stateGas else s.reservoir;
    var spill := stateGas - fromReservoir;
    var total := r.gasUsed + if r.err.Some? then 0 else returnFee + spill;
    var allowed := r.err.Some? || length <= p.maxCodeSize;
    if total > m.limit || !allowed then
      (s, r.(gasUsed := m.limit, err := Some(if !allowed then CodeSize else OutOfGas)))
    else if Formatted(m, r) then (s, r.(gasUsed := m.limit, err := Some(InvalidBytecode)))
    else if r.err.Some? then (s, r)
    else
      var s1 := if stateGas > 0 then
                  s.(reservoir := s.reservoir - fromReservoir, used := s.used + stateGas,
                     audit := s.audit.(spilled := s.audit.spilled + spill))
                else s;
      (if length > 0 then SetState(s1, WithCode(s1.world.state, m.to, m.deployed)) else s1, r.(gasUsed := total))
  }
}
