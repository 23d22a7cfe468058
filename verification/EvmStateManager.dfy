/**
  The simple state manager: stacks of whole maps for accounts, code and storage.  A
  checkpoint copies the top, commit drops the map below it, revert drops the top.
*/
module EvmStateManager {
  import opened Wrappers
  import opened EvmTypes

  /** `hasStorage` says that the storage root is not that of empty storage; only creation looks at it. */
  datatype Account = Account(balance: int, nonce: nat, hasCode: bool, hasStorage: bool)

  const EMPTY_ACCOUNT := Account(0, 0, false, false)

  /** The three maps of one level; an account may be present as undefined. */
  datatype State = State(accounts: map<Addr, Option<Account>>, code: map<Addr, Bytes>,
                         storage: map<(Addr, Bytes), Bytes>)

  function AccountOf(s: State, a: Addr): Option<Account>
  {
    if a in s.accounts then s.accounts[a] else None
  }

  function WithAccount(s: State, a: Addr, acc: Option<Account>): State
  {
    s.(accounts := s.accounts[a := acc])
  }

  /** Storing code also records its hash, creating the account when there is none. */
  function WithCode(s: State, a: Addr, code: Bytes): State
  {
    var acc := AccountOf(s, a);
    var base := if acc.Some? then acc.value else EMPTY_ACCOUNT;
    s.(code := s.code[a := code], accounts := s.accounts[a := Some(base.(hasCode := code != []))])
  }

  class SimpleStateManager {
    var accountStack: seq<map<Addr, Option<Account>>>
    var codeStack: seq<map<Addr, Bytes>>
    var storageStack: seq<map<(Addr, Bytes), Bytes>>

    ghost predicate Valid()
      reads this
    {
      |accountStack| == |codeStack| == |storageStack| > 0
    }

    function Level(i: nat): State
      requires i < |accountStack| && |accountStack| == |codeStack| == |storageStack|
      reads this
    {
      State(accountStack[i], codeStack[i], storageStack[i])
    }

    function Top(): State
      requires Valid()
      reads this
    {
      Level(|accountStack| - 1)
    }

    /** The levels a caller would return to, lowest first. */
    ghost function Below(): seq<State>
      requires Valid()
      reads this
    {
      seq(|accountStack| - 1, i requires Valid() && 0 <= i < |accountStack| - 1 reads this => Level(i))
    }

    constructor ()
      ensures Valid() && Top() == State(map[], map[], map[]) && Below() == []
    {
      accountStack, codeStack, storageStack := [map[]], [map[]], [map[]];
    }

    method SetTop(s: State)
      requires Valid()
      modifies this
      ensures Valid() && Top() == s && Below() == old(Below())
    {
      var n := |accountStack| - 1;
      ghost var below := Below();
      accountStack := accountStack[n := s.accounts];
      codeStack := codeStack[n := s.code];
      storageStack := storageStack[n := s.storage];
      assert forall i :: 0 <= i < n ==> Below()[i] == below[i];
    }

    method GetAccount(a: Addr) returns (acc: Option<Account>)
      requires Valid()
      ensures acc == AccountOf(Top(), a)
    {
      acc := if a in accountStack[|accountStack|-1] then accountStack[|accountStack|-1][a] else None;
    }

    method PutAccount(a: Addr, acc: Option<Account>)
      requires Valid()
      modifies this
      ensures Valid() && Top() == WithAccount(old(Top()), a, acc) && Below() == old(Below())
    {
      SetTop(WithAccount(Top(), a, acc));
    }

    method PutCode(a: Addr, code: Bytes)
      requires Valid()
      modifies this
      ensures Valid() && Top() == WithCode(old(Top()), a, code) && Below() == old(Below())
    {
      SetTop(WithCode(Top(), a, code));
    }

    method PutStorage(a: Addr, k: Bytes, v: Bytes)
      requires Valid()
      modifies this
      ensures Valid() && Below() == old(Below())
      ensures Top() == old(Top()).(storage := old(Top()).storage[(a, k) := v])
    {
      SetTop(Top().(storage := Top().storage[(a, k) := v]));
    }

    method Checkpoint()
      requires Valid()
      modifies this
      ensures Valid() && Top() == old(Top()) && Below() == old(Below()) + [old(Top())]
    {
      ghost var below := Below();
      var n := |accountStack| - 1;
      accountStack := accountStack + [accountStack[n]];
      codeStack := codeStack + [codeStack[n]];
      storageStack := storageStack + [storageStack[n]];
      assert forall i :: 0 <= i < n ==> Below()[i] == below[i];
    }

    /** Drop the map below the top. */
    method Commit()
      requires Valid() && Below() != []
      modifies this
      ensures Valid() && Top() == old(Top()) && Below() == old(Below())[..|old(Below())|-1]
    {
      ghost var below := Below();
      var n := |accountStack| - 2;
      accountStack := accountStack[..n] + accountStack[n+1..];
      codeStack := codeStack[..n] + codeStack[n+1..];
      storageStack := storageStack[..n] + storageStack[n+1..];
      assert forall i :: 0 <= i < n ==> Below()[i] == below[i];
    }

    /** Drop the top. */
    method Revert()
      requires Valid() && Below() != []
      modifies this
      ensures Valid() && Top() == old(Below())[|old(Below())|-1] && Below() == old(Below())[..|old(Below())|-1]
    {
      ghost var below := Below();
      var n := |accountStack| - 1;
      accountStack := accountStack[..n];
      codeStack := codeStack[..n];
      storageStack := storageStack[..n];
      assert forall i :: 0 <= i < n - 1 ==> Below()[i] == below[i];
    }
  }
}
