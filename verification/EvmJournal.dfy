/**
  The warm-address journal: one mutable state and a list of height-tagged differences.
  The ghost `snaps` is the stack of full copies the list stands for; every operation is
  proved against that stack.
*/
module EvmJournal {
  import opened Wrappers
  import opened EvmTypes

  /** Warm addresses with their warm slots, and the touched accounts. */
  datatype Warmth = Warmth(journal: map<Addr, set<Bytes>>, touched: set<Addr>)

  /** What one list entry removes again: addresses, slots per address, touched accounts. */
  datatype Diff = Diff(addresses: set<Addr>, slots: map<Addr, set<Bytes>>, touched: set<Addr>)

  datatype DiffItem = DiffItem(height: int, diff: Diff)

  const EMPTY_DIFF := Diff({}, map[], {})

  /** Take back one difference; the RIPEMD160 account alone stays touched. */
  function UndoOne(d: Diff, w: Warmth): Warmth
  {
    Warmth(
      map a | a in w.journal && a !in d.addresses ::
        if a in d.slots then w.journal[a] - d.slots[a] else w.journal[a],
      w.touched - (d.touched - {RIPEMD160}))
  }

  /** Take back a list of differences, last first. */
  function UndoAll(ds: seq<DiffItem>, w: Warmth): Warmth
  {
    if ds == [] then w else UndoAll(ds[..|ds|-1], UndoOne(ds[|ds|-1].diff, w))
  }

  lemma {:induction false} UndoSplit(a: seq<DiffItem>, b: seq<DiffItem>, w: Warmth)
    ensures UndoAll(a + b, w) == UndoAll(a, UndoAll(b, w))
  {
    if b == [] {
      assert a + b == a;
    } else {
      assert (a + b)[..|a + b|-1] == a + b[..|b|-1];
      UndoSplit(a, b[..|b|-1], UndoOne(b[|b|-1].diff, w));
    }
  }

  lemma UndoLast(ds: seq<DiffItem>, d: DiffItem, w: Warmth)
    ensures UndoAll(ds + [d], w) == UndoAll(ds, UndoOne(d.diff, w))
  {
    assert (ds + [d])[..|ds|] == ds;
  }

  lemma UndoFirst(ds: seq<DiffItem>, i: nat, w: Warmth)
    requires i < |ds|
    ensures UndoAll(ds[i..], w) == UndoOne(ds[i].diff, UndoAll(ds[i+1..], w))
  {
    assert ds[i..] == [ds[i]] + ds[i+1..];
    UndoSplit([ds[i]], ds[i+1..], w);
    assert [] + [ds[i]] == [ds[i]];
    UndoLast([], ds[i], UndoAll(ds[i+1..], w));
  }

  lemma UndoEmpty(w: Warmth)
    ensures UndoOne(EMPTY_DIFF, w) == w
  {
    assert UndoOne(EMPTY_DIFF, w).journal == w.journal;
  }

  /** Undoing never depends on whether RIPEMD160 is touched, except that it stays so. */
  lemma {:induction false} UndoKeepsRipemd(ds: seq<DiffItem>, w: Warmth)
    ensures UndoAll(ds, w.(touched := w.touched + {RIPEMD160})) ==
            UndoAll(ds, w).(touched := UndoAll(ds, w).touched + {RIPEMD160})
  {
    if ds != [] {
      var d := ds[|ds|-1].diff;
      UndoKeepsRipemd(ds[..|ds|-1], UndoOne(d, w));
      assert UndoOne(d, w.(touched := w.touched + {RIPEMD160})) ==
             UndoOne(d, w).(touched := UndoOne(d, w).touched + {RIPEMD160});
    }
  }

  lemma {:induction false} UndoRipemdStays(ds: seq<DiffItem>, w: Warmth)
    ensures RIPEMD160 in w.touched <==> RIPEMD160 in UndoAll(ds, w).touched
  {
    if ds != [] {
      UndoRipemdStays(ds[..|ds|-1], UndoOne(ds[|ds|-1].diff, w));
    }
  }

  /** A full copy taken at a checkpoint, and where the list stood. */
  datatype Snapshot = Snapshot(warmth: Warmth, index: nat)

  /** What reverting to a copy leaves: the copy, with RIPEMD160 touched if it is touched now. */
  function Restored(saved: Warmth, now: Warmth): Warmth
  {
    saved.(touched := saved.touched + (now.touched * {RIPEMD160}))
  }

  /** Undoing the list from a level's start gives the level's copy. */
  ghost predicate UndoesTo(ds: seq<DiffItem>, snap: Snapshot, w: Warmth)
  {
    snap.index <= |ds| && UndoAll(ds[snap.index..], w) == Restored(snap.warmth, w)
  }

  /** Once the entries above `n` are undone, the rest of the list undoes to the same copy. */
  lemma UndoRest(ds: seq<DiffItem>, n: nat, snap: Snapshot, w: Warmth)
    requires snap.index <= n <= |ds| && UndoesTo(ds, snap, w)
    ensures UndoesTo(ds[..n], snap, UndoAll(ds[n..], w))
  {
    var x := snap.index;
    assert ds[x..] == ds[x..n] + ds[n..];
    assert ds[..n][x..] == ds[x..n];
    UndoSplit(ds[x..n], ds[n..], w);
    UndoRipemdStays(ds[n..], w);
    assert UndoAll(ds[n..], w).touched * {RIPEMD160} == w.touched * {RIPEMD160};
  }

  /**
    Each level's part of the list starts just above an entry one lower and stays at or above
    its own height; the last entry has the present height.
  */
  ghost predicate Levels(ds: seq<DiffItem>, snaps: seq<Snapshot>)
  {
    && ds != [] && ds[|ds|-1].height == |snaps|
    && forall j :: 0 <= j < |snaps| ==> LevelAt(ds, snaps[j].index, j)
  }

  ghost predicate LevelAt(ds: seq<DiffItem>, index: nat, j: int)
  {
    && 0 < index < |ds| && ds[index-1].height == j
    && forall k :: index <= k < |ds| ==> ds[k].height > j
  }

  lemma LevelsOpen(ds: seq<DiffItem>, snaps: seq<Snapshot>, w: Warmth)
    requires Levels(ds, snaps)
    ensures Levels(ds + [DiffItem(|snaps| + 1, EMPTY_DIFF)], snaps + [Snapshot(w, |ds|)])
  {
    var ds', snaps' := ds + [DiffItem(|snaps| + 1, EMPTY_DIFF)], snaps + [Snapshot(w, |ds|)];
    forall j | 0 <= j < |snaps'| ensures LevelAt(ds', snaps'[j].index, j) {
      if j < |snaps| { assert LevelAt(ds, snaps[j].index, j); }
    }
  }

  lemma LevelsClose(ds: seq<DiffItem>, snaps: seq<Snapshot>)
    requires Levels(ds, snaps) && snaps != []
    ensures Levels(ds + [DiffItem(|snaps| - 1, EMPTY_DIFF)], snaps[..|snaps|-1])
    ensures Levels(ds[..snaps[|snaps|-1].index], snaps[..|snaps|-1])
  {
    var n := |snaps| - 1;
    var up, down := ds + [DiffItem(n, EMPTY_DIFF)], ds[..snaps[n].index];
    assert LevelAt(ds, snaps[n].index, n);
    forall j | 0 <= j < n ensures LevelAt(up, snaps[j].index, j) && LevelAt(down, snaps[j].index, j) {
      assert LevelAt(ds, snaps[j].index, j);
      assert ds[snaps[j].index - 1].height == j;
    }
  }

  class Journal {
    var journal: map<Addr, set<Bytes>>
    var touched: set<Addr>
    var journalDiff: seq<DiffItem>
    var journalHeight: int
    ghost var snaps: seq<Snapshot>

    ghost function Now(): Warmth
      reads this
    {
      Warmth(journal, touched)
    }

    ghost predicate Valid()
      reads this
    {
      && journalHeight == |snaps| && Levels(journalDiff, snaps)
      && (forall j :: 0 <= j < |snaps| ==> UndoesTo(journalDiff, snaps[j], Now()))
    }

    constructor ()
      ensures Valid() && snaps == [] && Now() == Warmth(map[], {})
    {
      journal, touched, journalHeight, snaps := map[], {}, 0, [];
      journalDiff := [DiffItem(0, EMPTY_DIFF)];
    }

    /** Replace the last entry's difference and the state, without changing what undoing gives. */
    static lemma Recorded(ds: seq<DiffItem>, d': DiffItem, snap: Snapshot, w: Warmth, w': Warmth)
      requires ds != [] && snap.index < |ds| && UndoesTo(ds, snap, w)
      requires var u := UndoOne(ds[|ds|-1].diff, w);
               UndoOne(d'.diff, w') == if w'.touched * {RIPEMD160} == w.touched * {RIPEMD160} then u
                                       else u.(touched := u.touched + {RIPEMD160})
      requires w'.touched * {RIPEMD160} == w.touched * {RIPEMD160} || RIPEMD160 in w'.touched
      ensures UndoesTo(ds[|ds|-1 := d'], snap, w')
    {
      var n, from := |ds| - 1, snap.index;
      var init := ds[from..n];
      assert ds[from..] == init + [ds[n]];
      assert ds[n := d'][from..] == init + [d'];
      UndoLast(init, ds[n], w);
      UndoLast(init, d', w');
      if w'.touched * {RIPEMD160} != w.touched * {RIPEMD160} {
        UndoKeepsRipemd(init, UndoOne(ds[n].diff, w));
        assert w'.touched * {RIPEMD160} == {RIPEMD160};
      }
    }

    /** Change the state and record the change in the last entry. */
    method Note(journal': map<Addr, set<Bytes>>, touched': set<Addr>, d: Diff)
      requires Valid()
      requires var u := UndoOne(journalDiff[|journalDiff|-1].diff, Now());
               UndoOne(d, Warmth(journal', touched')) == if touched' * {RIPEMD160} == touched * {RIPEMD160} then u
                                                         else u.(touched := u.touched + {RIPEMD160})
      requires touched' * {RIPEMD160} == touched * {RIPEMD160} || RIPEMD160 in touched'
      modifies this`journal, this`touched, this`journalDiff
      ensures Valid() && Now() == Warmth(journal', touched')
    {
      var n := |journalDiff| - 1;
      ghost var ds, w := journalDiff, Now();
      journal, touched := journal', touched';
      journalDiff := journalDiff[n := DiffItem(journalDiff[n].height, d)];
      forall j | 0 <= j < |snaps| ensures UndoesTo(journalDiff, snaps[j], Now()) {
        Recorded(ds, DiffItem(ds[n].height, d), snaps[j], w, Now());
      }
    }

    method AddWarmedAddress(a: Addr)
      requires Valid()
      modifies this`journal, this`touched, this`journalDiff
      ensures Valid() && touched == old(touched)
      ensures journal == if a in old(journal) then old(journal) else old(journal)[a := {}]
    {
      if a !in journal {
        var d := journalDiff[|journalDiff|-1].diff;
        var d' := d.(addresses := d.addresses + {a});
        assert UndoOne(d', Warmth(journal[a := {}], touched)).journal == UndoOne(d, Now()).journal;
        Note(journal[a := {}], touched, d');
      }
    }

    method AddWarmedStorage(a: Addr, slot: Bytes)
      requires Valid()
      modifies this`journal, this`touched, this`journalDiff
      ensures Valid() && touched == old(touched)
      ensures journal == old(journal)[a := (if a in old(journal) then old(journal)[a] else {}) + {slot}]
    {
      AddWarmedAddress(a);
      if slot !in journal[a] {
        var d := journalDiff[|journalDiff|-1].diff;
        var recorded := if a in d.slots then d.slots[a] else {};
        var d' := d.(slots := d.slots[a := recorded + {slot}]);
        var journal' := journal[a := journal[a] + {slot}];
        assert journal[a] - {} == journal[a];
        assert journal[a] - recorded == journal'[a] - (recorded + {slot});
        assert UndoOne(d', Warmth(journal', touched)).journal == UndoOne(d, Now()).journal;
        Note(journal', touched, d');
      } else {
        assert journal[a] + {slot} == journal[a];
      }
    }

    method TouchAccount(a: Addr)
      requires Valid()
      modifies this`journal, this`touched, this`journalDiff
      ensures Valid() && journal == old(journal) && touched == old(touched) + {a}
    {
      if a !in touched {
        var d := journalDiff[|journalDiff|-1].diff;
        var d' := d.(touched := d.touched + {a});
        ghost var u, u' := UndoOne(d, Now()), UndoOne(d', Warmth(journal, touched + {a}));
        if a == RIPEMD160 {
          assert u'.touched == u.touched + {a};
          assert a in (touched + {a}) * {RIPEMD160};
        } else {
          assert u'.touched == u.touched;
          assert (touched + {a}) * {RIPEMD160} == touched * {RIPEMD160};
        }
        Note(journal, touched + {a}, d');
      } else {
        assert touched + {a} == touched;
      }
    }

    /** Open a level: from here on changes are recorded in a new entry. */
    method Checkpoint()
      requires Valid()
      modifies this`journalHeight, this`journalDiff, this`snaps
      ensures Valid() && Now() == old(Now())
      ensures |snaps| == |old(snaps)| + 1 && snaps[..|old(snaps)|] == old(snaps) && snaps[|old(snaps)|].warmth == Now()
    {
      ghost var ds, old_snaps := journalDiff, snaps;
      snaps := snaps + [Snapshot(Now(), |journalDiff|)];
      journalHeight := journalHeight + 1;
      journalDiff := journalDiff + [DiffItem(journalHeight, EMPTY_DIFF)];
      UndoEmpty(Now());
      LevelsOpen(ds, old_snaps, Now());
      forall j | 0 <= j < |snaps| ensures UndoesTo(journalDiff, snaps[j], Now()) {
        if j < |old_snaps| {
          assert journalDiff[snaps[j].index..] == ds[snaps[j].index..] + [journalDiff[|ds|]];
          UndoLast(ds[snaps[j].index..], journalDiff[|ds|], Now());
        } else {
          assert journalDiff[snaps[j].index..] == [] + [journalDiff[|ds|]];
          UndoLast([], journalDiff[|ds|], Now());
          assert Restored(Now(), Now()) == Now();
        }
      }
    }

    /** Close a level and keep its changes. */
    method Commit()
      requires Valid() && snaps != []
      modifies this`journalHeight, this`journalDiff, this`snaps
      ensures Valid() && Now() == old(Now()) && snaps == old(snaps)[..|old(snaps)|-1]
    {
      ghost var ds := journalDiff;
      LevelsClose(ds, snaps);
      journalHeight := journalHeight - 1;
      journalDiff := journalDiff + [DiffItem(journalHeight, EMPTY_DIFF)];
      snaps := snaps[..|snaps|-1];
      UndoEmpty(Now());
      forall j | 0 <= j < |snaps| ensures UndoesTo(journalDiff, snaps[j], Now()) {
        assert journalDiff[snaps[j].index..] == ds[snaps[j].index..] + [journalDiff[|ds|]];
        UndoLast(ds[snaps[j].index..], journalDiff[|ds|], Now());
      }
    }

    /** Take back the entries at or above the present height, last first. */
    method UndoDown(ghost index: nat) returns (i: int)
      requires LevelAt(journalDiff, index, journalHeight - 1)
      modifies this`journal, this`touched
      ensures i == index - 1 && Now() == UndoAll(journalDiff[index..], old(Now()))
    {
      i := |journalDiff| - 1;
      assert journalDiff[i+1..] == [];
      while i >= 0 && journalDiff[i].height >= journalHeight
        invariant index - 1 <= i < |journalDiff|
        invariant Now() == UndoAll(journalDiff[i+1..], old(Now()))
        decreases i
      {
        UndoFirst(journalDiff, i, old(Now()));
        var undone := UndoOne(journalDiff[i].diff, Warmth(journal, touched));
        journal, touched := undone.journal, undone.touched;
        i := i - 1;
      }
    }

    /** Close a level and take its changes back: exactly its copy, with RIPEMD160 left touched. */
    method Revert()
      requires Valid() && snaps != []
      modifies this`journal, this`touched, this`journalHeight, this`journalDiff, this`snaps
      ensures Valid() && snaps == old(snaps)[..|old(snaps)|-1]
      ensures Now() == Restored(old(snaps)[|old(snaps)|-1].warmth, old(Now()))
    {
      ghost var ds, w := journalDiff, Now();
      LevelsClose(ds, snaps);
      assert LevelAt(ds, snaps[|snaps|-1].index, |snaps| - 1);
      var i := UndoDown(snaps[|snaps|-1].index);
      journalDiff := journalDiff[..i+1];
      journalHeight := journalHeight - 1;
      snaps := snaps[..|snaps|-1];
      forall j | 0 <= j < |snaps| ensures UndoesTo(journalDiff, snaps[j], Now()) {
        assert LevelAt(journalDiff, snaps[j].index, j);
        UndoRest(ds, i + 1, snaps[j], w);
      }
    }
  }
}
