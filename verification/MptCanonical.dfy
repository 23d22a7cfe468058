/**
  Histories of puts and deletions.  Over prefix-free keys every history keeps the trie in
  normal form and refines a plain map, and the normal form of a map is unique, so the
  tree (and with it the root) is a function of the final map alone.
*/
module MptCanonical {
  import opened Wrappers
  import opened MptTree
  import opened MptDeletion

  /** No branch value, at least two children per branch, a branch below each extension. */
  ghost predicate Normal(t: Tree)
    requires Shaped(t)
  {
    match t
    case Empty => true
    case Leaf(_, _) => true
    case Extension(_, c) => Normal(c)
    case Branch(ch, v) => v.None? && Count(ch) >= 2 && forall i :: 0 <= i < 16 ==> Normal(ch[i])
  }

  lemma {:induction false} NormalWellFormed(t: Tree)
    requires Shaped(t) && Normal(t)
    ensures WellFormed(t)
    decreases t
  {
    match t
    case Empty =>
    case Leaf(_, _) =>
    case Extension(_, c) => NormalWellFormed(c);
    case Branch(ch, _) =>
      forall i | 0 <= i < 16 ensures WellFormed(ch[i]) { NormalWellFormed(ch[i]); }
  }

  ghost predicate Apart(a: Key, b: Key)
  {
    !(a <= b) && !(b <= a)
  }

  /** `k` is stored in `t`, or no stored key is a prefix of it or extends it. */
  ghost predicate Fits(t: Tree, k: Key)
    requires Shaped(t)
  {
    forall q :: Lookup(t, q).Some? ==> q == k || Apart(q, k)
  }

  lemma FitsBelow(t: Tree, k: Key, p: Key, c: Tree, r: Key)
    requires Shaped(t) && Fits(t, k) && Shaped(c) && k == p + r
    requires forall q :: Lookup(c, q) == Lookup(t, p + q)
    ensures Fits(c, r)
  {
    forall q | Lookup(c, q).Some? ensures q == r || Apart(q, r) {
      PrefixCancel(p, q, r);
      PrefixCancel(p, r, q);
      assert Lookup(t, p + q).Some?;
    }
  }

  /** Below a point the stored keys are the extensions of the path to that point. */
  lemma FitsChild(t: Tree, k: Key)
    requires Shaped(t) && Fits(t, k)
    ensures t.Extension? && t.key <= k ==> Fits(t.child, k[|t.key|..])
    ensures t.Branch? && k != [] ==> Fits(t.children[k[0]], k[1..])
  {
    if t.Extension? && t.key <= k {
      forall q ensures Lookup(t.child, q) == Lookup(t, t.key + q) { PrefixCancel(t.key, q, []); }
      assert k == t.key + k[|t.key|..];
      FitsBelow(t, k, t.key, t.child, k[|t.key|..]);
    }
    if t.Branch? && k != [] {
      var i := k[0];
      forall q ensures Lookup(t.children[i], q) == Lookup(t, [i] + q) { assert ([i] + q)[1..] == q; }
      assert k == [i] + k[1..];
      FitsBelow(t, k, [i], t.children[i], k[1..]);
    }
  }

  lemma SplitNormal(t: Tree, k: Key, v: Value)
    requires Shaped(t) && Normal(t) && (t.Leaf? || t.Extension?) && Fits(t, k)
    requires if t.Extension? then !(t.key <= k) else t.key != k
    ensures Shaped(Split(t, k, v)) && Normal(Split(t, k, v))
  {
    NormalWellFormed(t);
    SplitKeeps(t, k, v);
    SplitVacant(t, k);
    var m := MatchingLength(t.key, k);
    SplitDiverges(t, k);
    var below := Trim(t, t.key[m+1..]);
    SplitShape(t, k, v, m, below);
    ForkNormal(t.key[m], below, k[m], Leaf(k[m+1..], v));
  }

  lemma ForkNormal(i: Nibble, a: Tree, j: Nibble, b: Tree)
    requires i != j && Shaped(a) && Normal(a) && !a.Empty? && Shaped(b) && Normal(b) && !b.Empty?
    ensures Shaped(Branch(NoChildren()[i := a][j := b], None))
    ensures Normal(Branch(NoChildren()[i := a][j := b], None))
  {
    NoChildrenCount();
    CountUpdate(NoChildren(), i, a);
    CountUpdate(NoChildren()[i := a], j, b);
  }

  /** A fitting key leaves a leaf or extension strictly inside both keys. */
  lemma SplitDiverges(t: Tree, k: Key)
    requires Shaped(t) && WellFormed(t) && (t.Leaf? || t.Extension?) && Fits(t, k)
    requires if t.Extension? then !(t.key <= k) else t.key != k
    ensures MatchingLength(t.key, k) < |t.key| && MatchingLength(t.key, k) < |k|
  {
    var m := MatchingLength(t.key, k);
    var q := SomeKey(t);
    assert t.key <= q;
    assert k[..m] == t.key[..m] == q[..m];
  }

  /** A trie whose root node is a branch stores no key that fits the empty key. */
  lemma FitsRoot(t: Tree, k: Key)
    requires Shaped(t) && Normal(t) && t.Branch? && Fits(t, k)
    ensures k != []
  {
    NormalWellFormed(t);
    var q := SomeKey(t);
  }

  lemma SplitShape(t: Tree, k: Key, v: Value, m: nat, below: Tree)
    requires t.Leaf? || t.Extension?
    requires t.Extension? ==> !(t.key <= k)
    requires m == MatchingLength(t.key, k) && m < |t.key| && m < |k|
    requires below == Trim(t, t.key[m+1..])
    ensures Split(t, k, v) ==
            Extend(t.key[..m], Branch(NoChildren()[t.key[m] := below][k[m] := Leaf(k[m+1..], v)], None))
  {
    assert k[m..][1..] == k[m+1..];
  }

  lemma {:induction false} InsertNormal(t: Tree, k: Key, v: Value)
    requires Shaped(t) && Normal(t) && Fits(t, k)
    ensures Shaped(Insert(t, k, v)) && Normal(Insert(t, k, v))
    decreases t
  {
    NormalWellFormed(t);
    InsertKeeps(t, k, v);
    FitsChild(t, k);
    match t
    case Empty =>
    case Leaf(lk, _) =>
      if lk != k { SplitNormal(t, k, v); }
    case Extension(ek, c) =>
      if ek <= k { InsertNormal(c, k[|ek|..], v); } else { SplitNormal(t, k, v); }
    case Branch(ch, _) =>
      FitsRoot(t, k);
      {
        var below := if ch[k[0]].Empty? then Leaf(k[1..], v) else Insert(ch[k[0]], k[1..], v);
        CountUpdate(ch, k[0], below);
        if !ch[k[0]].Empty? {
          InsertNormal(ch[k[0]], k[1..], v);
          InsertMeaning(ch[k[0]], k[1..], v, []);
        }
      }
  }

  lemma {:induction false} RemoveNormal(t: Tree, k: Key)
    requires Shaped(t) && Normal(t)
    ensures RemovesExactly(t, k)
    ensures Shaped(Remove(t, k)) && Normal(Remove(t, k))
    decreases t
  {
    NormalWellFormed(t);
    RemoveKeeps(t, k);
    match t
    case Empty =>
    case Leaf(_, _) =>
    case Extension(ek, c) =>
      if ek <= k { RemoveNormal(c, k[|ek|..]); }
    case Branch(ch, bv) =>
      if k != [] {
        RemoveNormal(ch[k[0]], k[1..]);
        RemoveKeeps(ch[k[0]], k[1..]);
        CountUpdate(ch, k[0], Remove(ch[k[0]], k[1..]));
      }
  }

  // ----- uniqueness -----

  ghost predicate SameMap(a: Tree, b: Tree)
    requires Shaped(a) && Shaped(b)
  {
    forall q :: Lookup(a, q) == Lookup(b, q)
  }

  /** A branch stores keys that differ in their first nibble. */
  lemma Fork(ch: seq<Tree>, i: Nibble) returns (q: Key)
    requires Shaped(Branch(ch, None)) && Normal(Branch(ch, None))
    ensures q != [] && q[0] != i && Lookup(Branch(ch, None), q).Some?
  {
    var j := CountTwo(ch, i);
    NormalWellFormed(ch[j]);
    var r := SomeKey(ch[j]);
    q := [j] + r;
  }

  /** Every extension's key is the longest prefix shared by the keys below it. */
  lemma ForkUnder(t: Tree, p: Key) returns (q: Key)
    requires Shaped(t) && Normal(t) && !t.Empty? && !t.Leaf?
    requires t.Extension? ==> t.key < p
    requires t.Branch? ==> p != []
    ensures Lookup(t, q).Some? && !(p <= q)
  {
    if t.Extension? {
      var n := |t.key|;
      var r := Fork(t.child.children, p[n]);
      q := t.key + r;
      PrefixCancel(t.key, r, []);
      assert q[n] == r[0];
    } else {
      q := Fork(t.children, p[0]);
    }
  }

  /** A tree whose common key prefix is shorter stores a key outside the longer one. */
  lemma DifferentSpan(a: Tree, b: Tree) returns (q: Key)
    requires Shaped(a) && (a.Leaf? || a.Extension?) && a.key != []
    requires Shaped(b) && Normal(b) && (b.Branch? || (b.Extension? && b.key < a.key))
    ensures Lookup(a, q) != Lookup(b, q)
  {
    q := ForkUnder(b, a.key);
  }

  /** A leaf stores one key; a branch or extension stores at least two. */
  lemma LeafAlone(k: Key, b: Tree) returns (q: Key)
    requires Shaped(b) && Normal(b) && !b.Leaf? && !b.Empty?
    ensures Lookup(b, q).Some? && q != k
  {
    NormalWellFormed(b);
    q := SomeKey(b);
    if q == k {
      if b.Extension? {
        assert Lookup(b.child, q[|b.key|..]).Some?;
        var r := Fork(b.child.children, q[|b.key|..][0]);
        q := b.key + r;
        PrefixCancel(b.key, r, k[|b.key|..]);
        assert k == b.key + k[|b.key|..];
      } else {
        q := Fork(b.children, q[0]);
      }
    }
  }

  lemma SameMapBelow(a: Tree, b: Tree)
    requires Shaped(a) && Shaped(b) && SameMap(a, b)
    ensures a.Extension? && b.Extension? && a.key == b.key ==> SameMap(a.child, b.child)
    ensures a.Branch? && b.Branch? ==> forall i :: 0 <= i < 16 ==> SameMap(a.children[i], b.children[i])
  {
    if a.Extension? && b.Extension? && a.key == b.key {
      forall q ensures Lookup(a.child, q) == Lookup(b.child, q) {
        PrefixCancel(a.key, q, []);
        assert Lookup(a, a.key + q) == Lookup(b, a.key + q);
      }
    }
    if a.Branch? && b.Branch? {
      forall i, q | 0 <= i < 16 ensures Lookup(a.children[i], q) == Lookup(b.children[i], q) {
        var full: Key := [i] + q;
        assert full[1..] == q;
        assert Lookup(a, full) == Lookup(b, full);
      }
    }
  }

  /** Two trees in normal form that denote the same map are the same tree. */
  lemma {:induction false} NormalFormUnique(a: Tree, b: Tree)
    requires Shaped(a) && Normal(a) && Shaped(b) && Normal(b) && SameMap(a, b)
    ensures a == b
    decreases a
  {
    SameMapBelow(a, b);
    NormalWellFormed(a);
    NormalWellFormed(b);
    if a.Empty? {
      if !b.Empty? { var q := SomeKey(b); }
    } else if b.Empty? {
      var q := SomeKey(a);
    } else if a.Leaf? {
      if !b.Leaf? { var q := LeafAlone(a.key, b); }
      assert Lookup(a, a.key) == Lookup(b, a.key);
    } else if b.Leaf? {
      var q := LeafAlone(b.key, a);
    } else if a.Extension? {
      if b.Branch? { var q := DifferentSpan(a, b); }
      var q := SomeKey(a);
      PrefixesOfOne(a.key, b.key, q);
      if a.key < b.key { var q := DifferentSpan(b, a); }
      if b.key < a.key { var q := DifferentSpan(a, b); }
      NormalFormUnique(a.child, b.child);
    } else {
      if b.Extension? { var q := DifferentSpan(b, a); }
      forall i | 0 <= i < 16 ensures a.children[i] == b.children[i] {
        NormalFormUnique(a.children[i], b.children[i]);
      }
    }
  }

  lemma PrefixesOfOne(a: Key, b: Key, q: Key)
    requires a <= q && b <= q
    ensures a <= b || b <= a
  {
    if |a| <= |b| { assert a == q[..|a|] == b[..|a|]; } else { assert b == q[..|b|] == a[..|b|]; }
  }

  // ----- histories -----

  datatype Op = Put(key: Key, value: Value) | Del(key: Key)

  ghost function Step(t: Tree, op: Op): Tree
    requires Shaped(t)
  {
    match op
    case Put(k, v) => Insert(t, k, v)
    case Del(k) => Delete(t, k)
  }

  /** The trie after a history, started empty. */
  ghost function Run(ops: seq<Op>): (t: Tree)
    ensures Shaped(t) && WellFormed(t)
  {
    if ops == [] then Empty
    else
      var before := Run(ops[..|ops|-1]);
      StepKeeps(before, ops[|ops|-1]);
      Step(before, ops[|ops|-1])
  }

  lemma StepKeeps(t: Tree, op: Op)
    requires Shaped(t) && WellFormed(t)
    ensures Shaped(Step(t, op)) && WellFormed(Step(t, op))
  {
    match op
    case Put(k, v) => InsertKeeps(t, k, v);
    case Del(k) => DeleteMeaning(t, k);
  }

  /** The plain map the same history builds. */
  ghost function MapOf(ops: seq<Op>): map<Key, Value>
  {
    if ops == [] then map[]
    else
      var before := MapOf(ops[..|ops|-1]);
      match ops[|ops|-1]
      case Put(k, v) => before[k := v]
      case Del(k) => before - {k}
  }

  ghost predicate Denotes(t: Tree, m: map<Key, Value>)
    requires Shaped(t)
  {
    forall q :: Lookup(t, q) == if q in m then Some(m[q]) else None
  }

  ghost predicate PrefixFree(ks: set<Key>)
  {
    forall a, b :: a in ks && b in ks && a != b ==> !(a <= b)
  }

  ghost predicate KeysIn(ops: seq<Op>, ks: set<Key>)
  {
    forall i :: 0 <= i < |ops| ==> ops[i].key in ks
  }

  lemma EqualLengthPrefixFree(ks: set<Key>, n: nat)
    requires forall k :: k in ks ==> |k| == n
    ensures PrefixFree(ks)
  {
  }

  lemma StepRefines(t: Tree, m: map<Key, Value>, op: Op, ks: set<Key>)
    requires Shaped(t) && Normal(t) && Denotes(t, m)
    requires PrefixFree(ks) && m.Keys <= ks && op.key in ks
    ensures Shaped(Step(t, op)) && Normal(Step(t, op))
    ensures Denotes(Step(t, op), match op case Put(k, v) => m[k := v] case Del(k) => m - {k})
  {
    NormalWellFormed(t);
    StepKeeps(t, op);
    match op
    case Put(k, v) =>
      InsertNormal(t, k, v);
      forall q ensures Lookup(Insert(t, k, v), q) == if q in m[k := v] then Some(m[k := v][q]) else None {
        InsertMeaning(t, k, v, q);
      }
    case Del(k) =>
      if t.Branch? { FitsRoot(t, k); }
      RemoveNormal(t, k);
      DeleteMeaning(t, k);
  }

  /** Over prefix-free keys the trie refines a plain map and stays in normal form. */
  lemma {:induction false} HistoryRefinesMap(ops: seq<Op>, ks: set<Key>)
    requires PrefixFree(ks) && KeysIn(ops, ks)
    ensures Normal(Run(ops)) && Denotes(Run(ops), MapOf(ops)) && MapOf(ops).Keys <= ks
  {
    if ops != [] {
      var before := ops[..|ops|-1];
      HistoryRefinesMap(before, ks);
      StepRefines(Run(before), MapOf(before), ops[|ops|-1], ks);
    }
  }

  /** Histories that end in the same map end in the same tree; deleting everything ends empty. */
  lemma HistoryIndependence(ops1: seq<Op>, ops2: seq<Op>, ks1: set<Key>, ks2: set<Key>)
    requires PrefixFree(ks1) && KeysIn(ops1, ks1)
    requires PrefixFree(ks2) && KeysIn(ops2, ks2)
    ensures Run(ops1) == Run(ops2) <==> MapOf(ops1) == MapOf(ops2)
    ensures Run(ops1) == Empty <==> MapOf(ops1) == map[]
  {
    HistoryRefinesMap(ops1, ks1);
    HistoryRefinesMap(ops2, ks2);
    var m1, m2 := MapOf(ops1), MapOf(ops2);
    if m1 == m2 {
      assert SameMap(Run(ops1), Run(ops2));
      NormalFormUnique(Run(ops1), Run(ops2));
    } else if Run(ops1) == Run(ops2) {
      DenotesDetermines(Run(ops1), m1, m2);
    }
    if m1 == map[] {
      assert SameMap(Run(ops1), Empty);
      NormalFormUnique(Run(ops1), Empty);
    } else if Run(ops1) == Empty {
      DenotesDetermines(Empty, m1, map[]);
    }
  }

  lemma DenotesDetermines(t: Tree, m1: map<Key, Value>, m2: map<Key, Value>)
    requires Shaped(t) && Denotes(t, m1) && Denotes(t, m2)
    ensures m1 == m2
  {
    forall q ensures q in m1 <==> q in m2 { assert Lookup(t, q) == Lookup(t, q); }
    forall q | q in m1 ensures m1[q] == m2[q] { assert Lookup(t, q) == Some(m1[q]); }
  }
}
