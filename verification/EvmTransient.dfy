/**
  Transient storage: nested maps changed in place and an undo log with an index per
  checkpoint.  What a caller can observe is `View`; the ghost `saved` holds the storage of
  each checkpoint, and reverting is proved to give back what could be observed then.
*/
module EvmTransient {
  import opened Wrappers
  import opened EvmTypes

  type Storage = map<Addr, map<Bytes, Bytes>>

  const ZERO_WORD: Bytes :=
    [0, 0, 0, 0, 0, 0, 0, 0, 0, 0, 0, 0, 0, 0, 0, 0, 0, 0, 0, 0, 0, 0, 0, 0, 0, 0, 0, 0, 0, 0, 0, 0]

  /** The value read at a slot: zeros where nothing was written. */
  function View(s: Storage, a: Addr, k: Bytes): Bytes
  {
    if a in s && k in s[a] then s[a][k] else ZERO_WORD
  }

  ghost predicate SameView(s: Storage, t: Storage)
  {
    forall a, k :: View(s, a, k) == View(t, a, k)
  }

  datatype Modification = Modification(addr: Addr, key: Bytes, prevValue: Bytes)

  function Write(s: Storage, a: Addr, k: Bytes, v: Bytes): Storage
  {
    s[a := (if a in s then s[a] else map[])[k := v]]
  }

  /** Write back the previous values, last change first. */
  function Undo(log: seq<Modification>, s: Storage): Storage
  {
    if log == [] then s
    else var m := log[|log|-1]; Undo(log[..|log|-1], Write(s, m.addr, m.key, m.prevValue))
  }

  lemma {:induction false} UndoSplit(a: seq<Modification>, b: seq<Modification>, s: Storage)
    ensures Undo(a + b, s) == Undo(a, Undo(b, s))
  {
    if b == [] {
      assert a + b == a;
    } else {
      var m := b[|b|-1];
      assert (a + b)[..|a + b|-1] == a + b[..|b|-1];
      UndoSplit(a, b[..|b|-1], Write(s, m.addr, m.key, m.prevValue));
    }
  }

  lemma WriteView(s: Storage, a: Addr, k: Bytes, v: Bytes, b: Addr, l: Bytes)
    ensures View(Write(s, a, k, v), b, l) == if a == b && k == l then v else View(s, b, l)
  {
  }

  lemma UndoFirst(log: seq<Modification>, i: nat, s: Storage)
    requires i < |log|
    ensures Undo(log[i..], s) ==
            var t := Undo(log[i+1..], s); Write(t, log[i].addr, log[i].key, log[i].prevValue)
  {
    assert log[i..] == [log[i]] + log[i+1..];
    UndoSplit([log[i]], log[i+1..], s);
    assert [log[i]][..0] == [];
  }

  /** Once the changes from `n` on are undone, the rest of the log undoes to the same copy. */
  lemma UndoRest(log: seq<Modification>, n: nat, index: nat, now: Storage)
    requires index <= n <= |log|
    ensures Undo(log[..n][index..], Undo(log[n..], now)) == Undo(log[index..], now)
  {
    assert log[index..] == log[index..n] + log[n..];
    assert log[..n][index..] == log[index..n];
    UndoSplit(log[index..n], log[n..], now);
  }

  /** Undoing looks only at what can be observed. */
  lemma {:induction false} UndoSameView(log: seq<Modification>, s: Storage, t: Storage)
    requires SameView(s, t)
    ensures SameView(Undo(log, s), Undo(log, t))
  {
    if log != [] {
      var m := log[|log|-1];
      forall b, l
        ensures View(Write(s, m.addr, m.key, m.prevValue), b, l) == View(Write(t, m.addr, m.key, m.prevValue), b, l)
      {
        WriteView(s, m.addr, m.key, m.prevValue, b, l);
        WriteView(t, m.addr, m.key, m.prevValue, b, l);
      }
      UndoSameView(log[..|log|-1], Write(s, m.addr, m.key, m.prevValue), Write(t, m.addr, m.key, m.prevValue));
    }
  }

  class TransientStorage {
    var storage: Storage
    var changeJournal: seq<Modification>
    var indices: seq<nat>
    ghost var saved: seq<Storage>

    ghost predicate Valid()
      reads this
    {
      && |saved| == |indices|
      && (forall j :: 0 <= j < |indices| ==> Level(changeJournal, indices[j], storage, saved[j]))
      && (forall i, j :: 0 <= i < j < |indices| ==> indices[i] <= indices[j])
    }

    static ghost predicate Level(log: seq<Modification>, index: nat, now: Storage, copy: Storage)
    {
      index <= |log| && SameView(Undo(log[index..], now), copy)
    }

    constructor ()
      ensures Valid() && storage == map[] && changeJournal == [] && indices == [0] && saved == [map[]]
    {
      storage, changeJournal, indices, saved := map[], [], [0], [map[]];
    }

    method Get(a: Addr, k: Bytes) returns (v: Bytes)
      ensures v == View(storage, a, k)
    {
      if a !in storage { return ZERO_WORD; }
      if k !in storage[a] { return ZERO_WORD; }
      return storage[a][k];
    }

    /** Set a slot; refused for a key that is not 32 bytes or a value that is longer. */
    method Put(a: Addr, k: Bytes, v: Bytes) returns (ok: bool)
      requires Valid()
      modifies this`storage, this`changeJournal
      ensures ok <==> |k| == 32 && |v| <= 32
      ensures Valid() && (!ok ==> storage == old(storage) && changeJournal == old(changeJournal))
      ensures ok ==> storage == Write(old(storage), a, k, v) && |changeJournal| == |old(changeJournal)| + 1
    {
      if |k| != 32 { return false; }
      if |v| > 32 { return false; }
      ghost var log, before := changeJournal, storage;
      var prevValue := View(storage, a, k);
      changeJournal := changeJournal + [Modification(a, k, prevValue)];
      storage := Write(storage, a, k, v);
      forall j | 0 <= j < |indices| ensures Level(changeJournal, indices[j], storage, saved[j]) {
        assert Level(log, indices[j], before, saved[j]);
        Logged(log, Modification(a, k, prevValue), indices[j], before, storage);
      }
      return true;
    }

    /** A logged write is undone to what could be observed before it. */
    static lemma Logged(log: seq<Modification>, m: Modification, index: nat, before: Storage, after: Storage)
      requires index <= |log| && m.prevValue == View(before, m.addr, m.key)
      requires exists v :: after == Write(before, m.addr, m.key, v)
      ensures SameView(Undo((log + [m])[index..], after), Undo(log[index..], before))
    {
      var tail := (log + [m])[index..];
      assert tail[..|tail|-1] == log[index..];
      UndoSameView(log[index..], Write(after, m.addr, m.key, m.prevValue), before);
    }

    method Checkpoint()
      requires Valid()
      modifies this`indices, this`saved
      ensures Valid() && indices == old(indices) + [|changeJournal|] && saved == old(saved) + [storage]
    {
      indices := indices + [|changeJournal|];
      saved := saved + [storage];
      assert changeJournal[|changeJournal|..] == [];
    }

    /** Keep the changes; false when there is nothing to commit. */
    method Commit() returns (ok: bool)
      requires Valid()
      modifies this`indices, this`saved
      ensures Valid() && (ok <==> old(indices) != [])
      ensures ok ==> indices == old(indices)[..|old(indices)|-1] && saved == old(saved)[..|old(saved)|-1]
      ensures !ok ==> indices == old(indices) && saved == old(saved)
    {
      if |indices| == 0 { return false; }
      indices := indices[..|indices|-1];
      saved := saved[..|saved|-1];
      return true;
    }

    /** Take the changes back: what can be observed is what could be at the checkpoint. */
    method Revert() returns (ok: bool)
      requires Valid()
      modifies this`storage, this`changeJournal, this`indices, this`saved
      ensures Valid() && (ok <==> old(indices) != [])
      ensures ok ==> indices == old(indices)[..|old(indices)|-1] && saved == old(saved)[..|old(saved)|-1]
      ensures ok ==> SameView(storage, old(saved)[|old(saved)|-1])
      ensures ok ==> changeJournal == old(changeJournal)[..old(indices)[|old(indices)|-1]]
      ensures !ok ==> storage == old(storage) && indices == old(indices) && saved == old(saved)
    {
      if |indices| == 0 { return false; }
      ghost var log, now := changeJournal, storage;
      var lastCheckpoint := indices[|indices|-1];
      assert Level(log, lastCheckpoint, now, saved[|saved|-1]);
      indices := indices[..|indices|-1];
      saved := saved[..|saved|-1];
      UndoDown(lastCheckpoint);
      changeJournal := changeJournal[..lastCheckpoint];
      forall j | 0 <= j < |indices| ensures Level(changeJournal, indices[j], storage, saved[j]) {
        assert Level(log, indices[j], now, saved[j]);
        UndoRest(log, lastCheckpoint, indices[j], now);
      }
      return true;
    }

    /** Write back the previous values down to a checkpoint's place in the log. */
    method UndoDown(lastCheckpoint: nat)
      requires lastCheckpoint <= |changeJournal|
      modifies this`storage
      ensures storage == Undo(changeJournal[lastCheckpoint..], old(storage))
    {
      var i := |changeJournal|;
      assert changeJournal[i..] == [];
      while i > lastCheckpoint
        invariant lastCheckpoint <= i <= |changeJournal|
        invariant storage == Undo(changeJournal[i..], old(storage))
        decreases i
      {
        i := i - 1;
        UndoFirst(changeJournal, i, old(storage));
        var m := changeJournal[i];
        storage := Write(storage, m.addr, m.key, m.prevValue);
      }
    }

    /** Forget everything; the checkpoint indices stay, so they must all be at the log's start. */
    method Clear()
      requires Valid() && forall j :: 0 <= j < |indices| ==> indices[j] == 0
      modifies this`storage, this`changeJournal, this`saved
      ensures Valid() && storage == map[] && changeJournal == []
      ensures |saved| == |old(saved)| && forall j :: 0 <= j < |saved| ==> saved[j] == map[]
    {
      storage := map[];
      changeJournal := [];
      saved := seq(|saved|, _ => map[]);
    }
  }
}
