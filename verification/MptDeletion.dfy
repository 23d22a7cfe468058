/**
  del on the trie value.  A branch left with one child is folded into what hangs below
  it, and into the extension above.  The fold counts children only and the branch value
  is never cleared, so deletion is exact on some keys and not on others; the lemmas here
  say on which, both ways, and that prefix-free keys never meet the bad case.
*/
module MptDeletion {
  import opened Wrappers
  import opened MptTree

  /** Put a path in front of a node: keys merge, a branch gets an extension. */
  function Prepend(p: Key, t: Tree): (r: Tree)
  {
    match t
    case Empty => Empty
    case Leaf(k, v) => Leaf(p + k, v)
    case Extension(k, c) => Extension(p + k, c)
    case Branch(_, _) => Extension(p, t)
  }

  /** A branch after one of its slots was vacated, folded away when one child is left. */
  function Shrink(ch: seq<Tree>, bv: Option<Value>): (r: Tree)
    requires |ch| == 16
  {
    if Count(ch) == 1 then Prepend([Occupied(ch)], ch[Occupied(ch)]) else Branch(ch, bv)
  }

  ghost function Remove(t: Tree, k: Key): (r: Tree)
    requires Shaped(t)
    decreases t
  {
    match t
    case Empty => Empty
    case Leaf(lk, _) => if lk == k then Empty else t
    case Extension(ek, c) => if ek <= k then Prepend(ek, Remove(c, k[|ek|..])) else t
    case Branch(ch, bv) =>
      if k == [] then Shrink(ch, bv)
      else if ch[k[0]].Empty? then t
      else
        var d := Remove(ch[k[0]], k[1..]);
        if d.Empty? then Shrink(ch[k[0] := Empty], bv) else Branch(ch[k[0] := d], bv)
  }

  /** A key that ends at the root node empties the trie, whatever that node is. */
  ghost function Delete(t: Tree, k: Key): (r: Tree)
    requires Shaped(t)
  {
    if k == [] && t.Branch? then Empty else Remove(t, k)
  }

  /** What a caller must know before deleting `k` below the root node. */
  ghost predicate RemovesExactly(t: Tree, k: Key)
    requires Shaped(t)
    decreases t
  {
    match t
    case Empty => true
    case Leaf(_, _) => true
    case Extension(ek, c) => ek <= k ==> RemovesExactly(c, k[|ek|..])
    case Branch(ch, bv) =>
      if k == [] then bv.Some? ==> Count(ch) == 1
      else if ch[k[0]].Leaf? && ch[k[0]].key == k[1..] then bv.None? || Count(ch) != 2
      else RemovesExactly(ch[k[0]], k[1..])
  }

  ghost predicate DeletesExactly(t: Tree, k: Key)
    requires Shaped(t)
  {
    if k == [] && t.Branch? then Count(t.children) == 0 else RemovesExactly(t, k)
  }

  lemma PrependMeaning(p: Key, t: Tree, q: Key)
    requires Shaped(t) && p != []
    ensures Shaped(Prepend(p, t))
    ensures WellFormed(t) ==> WellFormed(Prepend(p, t))
    ensures Lookup(Prepend(p, t), q) == if p <= q then Lookup(t, q[|p|..]) else None
  {
    if t.Leaf? || t.Extension? {
      PrefixCancel(p, t.key, if p <= q then q[|p|..] else []);
      if p <= q {
        assert q == p + q[|p|..];
        assert t.key <= q[|p|..] ==> q[|p + t.key|..] == q[|p|..][|t.key|..];
      }
    }
  }

  lemma ShrinkMeaning(ch: seq<Tree>, bv: Option<Value>, q: Key)
    requires |ch| == 16 && forall i :: 0 <= i < 16 ==> Shaped(ch[i])
    ensures Shaped(Shrink(ch, bv))
    ensures Lookup(Shrink(ch, bv), q) ==
            if q == [] then (if Count(ch) == 1 then None else bv) else Lookup(ch[q[0]], q[1..])
  {
    if Count(ch) == 1 {
      var i := Occupied(ch);
      PrependMeaning([i], ch[i], q);
      if q != [] && q[0] != i {
        CountOne(ch, i, q[0]);
      }
    }
  }

  lemma ShrinkKeeps(ch: seq<Tree>, bv: Option<Value>)
    requires |ch| == 16 && forall i :: 0 <= i < 16 ==> Shaped(ch[i]) && WellFormed(ch[i])
    requires Count(ch) >= 1 || bv.Some?
    ensures Shaped(Shrink(ch, bv)) && WellFormed(Shrink(ch, bv)) && !Shrink(ch, bv).Empty?
  {
    ShrinkMeaning(ch, bv, []);
    if Count(ch) == 1 {
      PrependMeaning([Occupied(ch)], ch[Occupied(ch)], []);
    }
  }

  /** Deletion keeps the shape whatever the keys, and vacates a slot only under a matching leaf. */
  lemma {:induction false} RemoveKeeps(t: Tree, k: Key)
    requires Shaped(t) && WellFormed(t)
    ensures Shaped(Remove(t, k)) && WellFormed(Remove(t, k))
    ensures Remove(t, k).Empty? <==> t.Empty? || (t.Leaf? && t.key == k)
    decreases t
  {
    match t
    case Empty =>
    case Leaf(_, _) =>
    case Extension(ek, c) =>
      if ek <= k {
        RemoveKeeps(c, k[|ek|..]);
        PrependMeaning(ek, Remove(c, k[|ek|..]), []);
      }
    case Branch(ch, bv) =>
      if k == [] {
        ShrinkKeeps(ch, bv);
      } else if !ch[k[0]].Empty? {
        RemoveKeeps(ch[k[0]], k[1..]);
        var d := Remove(ch[k[0]], k[1..]);
        CountUpdate(ch, k[0], d);
        if d.Empty? {
          ShrinkKeeps(ch[k[0] := Empty], bv);
        }
      }
  }

  lemma {:induction false} RemoveMeaning(t: Tree, k: Key, q: Key)
    requires Shaped(t) && WellFormed(t) && RemovesExactly(t, k)
    ensures Shaped(Remove(t, k))
    ensures Lookup(Remove(t, k), q) == if q == k then None else Lookup(t, q)
    decreases t
  {
    RemoveKeeps(t, k);
    match t
    case Empty =>
    case Leaf(_, _) =>
    case Extension(ek, c) =>
      if ek <= k {
        var qr := if ek <= q then q[|ek|..] else [];
        RemoveMeaning(c, k[|ek|..], qr);
        PrependMeaning(ek, Remove(c, k[|ek|..]), q);
        PrefixCancel(ek, qr, k[|ek|..]);
        assert k == ek + k[|ek|..];
        if ek <= q { assert q == ek + qr; }
      }
    case Branch(ch, bv) =>
      if k == [] {
        ShrinkMeaning(ch, bv, q);
      } else if !ch[k[0]].Empty? {
        RemoveStep(t, k, q);
      }
  }

  lemma {:induction false} RemoveStep(t: Tree, k: Key, q: Key)
    requires Shaped(t) && WellFormed(t) && RemovesExactly(t, k)
    requires t.Branch? && k != [] && !t.children[k[0]].Empty?
    ensures Shaped(Remove(t, k))
    ensures Lookup(Remove(t, k), q) == if q == k then None else Lookup(t, q)
    decreases t, 0
  {
    var ch, i := t.children, k[0];
    RemoveKeeps(t, k);
    RemoveKeeps(ch[i], k[1..]);
    var d := Remove(ch[i], k[1..]);
    CountUpdate(ch, i, d);
    assert k == [i] + k[1..];
    if d.Empty? {
      ShrinkMeaning(ch[i := Empty], t.bvalue, q);
    } else {
      RemoveMeaning(ch[i], k[1..], if q == [] then [] else q[1..]);
    }
    if q != [] { assert q == [q[0]] + q[1..]; }
  }

  /** When the condition fails, some key reads wrongly after the deletion. */
  lemma {:induction false} RemoveFails(t: Tree, k: Key) returns (q: Key)
    requires Shaped(t) && WellFormed(t) && !RemovesExactly(t, k)
    ensures Shaped(Remove(t, k))
    ensures Lookup(Remove(t, k), q) != if q == k then None else Lookup(t, q)
    decreases t
  {
    RemoveKeeps(t, k);
    if t.Extension? {
      var ek, kr := t.key, k[|t.key|..];
      var r := RemoveFails(t.child, kr);
      q := ek + r;
      PrependMeaning(ek, Remove(t.child, kr), q);
      PrefixCancel(ek, r, kr);
      assert k == ek + kr;
    } else {
      var ch, bv := t.children, t.bvalue;
      if k == [] {
        q := [];
        ShrinkMeaning(ch, bv, q);
      } else {
        var i, kr := k[0], k[1..];
        RemoveKeeps(ch[i], kr);
        CountUpdate(ch, i, Remove(ch[i], kr));
        if Remove(ch[i], kr).Empty? {
          q := [];
          ShrinkMeaning(ch[i := Empty], bv, q);
        } else {
          var r := RemoveFails(ch[i], kr);
          q := [i] + r;
          assert k == [i] + kr;
        }
      }
    }
  }

  ghost predicate ActsAsMapDelete(t: Tree, k: Key)
    requires Shaped(t) && Shaped(Delete(t, k))
  {
    forall q :: Lookup(Delete(t, k), q) == if q == k then None else Lookup(t, q)
  }

  /** del removes its key and nothing else exactly when `DeletesExactly` held before the call. */
  lemma DeleteMeaning(t: Tree, k: Key)
    requires Shaped(t) && WellFormed(t)
    ensures Shaped(Delete(t, k)) && WellFormed(Delete(t, k))
    ensures ActsAsMapDelete(t, k) <==> DeletesExactly(t, k)
  {
    RemoveKeeps(t, k);
    if k == [] && t.Branch? {
      if Count(t.children) > 0 {
        var i := Occupied(t.children);
        var r := SomeKey(t.children[i]);
        assert Lookup(t, [i] + r).Some?;
      } else {
        forall q ensures q != [] ==> Lookup(t, q).None? {
        }
      }
    } else if RemovesExactly(t, k) {
      forall q ensures Lookup(Delete(t, k), q) == if q == k then None else Lookup(t, q) {
        RemoveMeaning(t, k, q);
      }
    } else {
      var q := RemoveFails(t, k);
    }
  }

  /** An extension over a branch with a value and two leaves. */
  function ValueAboveTwo(v: Value): Tree {
    Extension([1, 2], Branch(NoChildren()[3 := Leaf([4], v)][5 := Leaf([6], v)], Some(v)))
  }

  /** Its branch value survives its own deletion. */
  lemma BranchValueSurvives(v: Value)
    ensures var t := ValueAboveTwo(v);
            && Shaped(t) && WellFormed(t) && Lookup(t, [1, 2]) == Some(v)
            && Shaped(Delete(t, [1, 2])) && Delete(t, [1, 2]) == t
  {
    var ch := NoChildren()[3 := Leaf([4], v)][5 := Leaf([6], v)];
    var t := ValueAboveTwo(v);
    NoChildrenCount();
    CountUpdate(NoChildren(), 3, Leaf([4], v));
    CountUpdate(NoChildren()[3 := Leaf([4], v)], 5, Leaf([6], v));
    RemoveKeeps(t, [1, 2]);
    assert [1, 2][2..] == [];
    assert Remove(t.child, []) == t.child;
  }
}
