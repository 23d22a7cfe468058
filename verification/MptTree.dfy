/**
  The Merkle Patricia trie as a value: what a root denotes once every reference
  below it is followed.  `Lookup` is the map such a tree stands for; `Insert` and
  `Delete` are the recursive forms of put and del, and the lemmas say what each of
  them does to that map, for every key, including keys that are prefixes of others.
*/
module MptTree {
  import opened Wrappers

  type Nibble = n: int | 0 <= n < 16

  type Key = seq<Nibble>

  /** A stored value; putting an empty byte string is a deletion. */
  type Value = v: Bytes | v != [] witness [0]

  /** `Empty` is both the empty trie and a vacant branch slot. */
  datatype Tree =
    | Empty
    | Leaf(key: Key, value: Value)
    | Extension(key: Key, child: Tree)
    | Branch(children: seq<Tree>, bvalue: Option<Value>)

  /** The number of leading nibbles two paths share. */
  function MatchingLength(a: Key, b: Key): (n: nat)
    ensures n <= |a| && n <= |b|
    ensures a[..n] == b[..n]
    ensures n < |a| && n < |b| ==> a[n] != b[n]
  {
    if a == [] || b == [] || a[0] != b[0] then 0
    else
      var m := MatchingLength(a[1..], b[1..]);
      assert a[..m+1] == [a[0]] + a[1..][..m];
      assert b[..m+1] == [b[0]] + b[1..][..m];
      m + 1
  }

  /** The number of occupied branch slots. */
  function Count(ch: seq<Tree>): (n: nat)
    ensures n <= |ch|
    ensures n == 0 <==> forall i :: 0 <= i < |ch| ==> ch[i].Empty?
  {
    if ch == [] then 0
    else Count(ch[..|ch|-1]) + (if ch[|ch|-1].Empty? then 0 else 1)
  }

  /** The first occupied slot. */
  function Occupied(ch: seq<Tree>): (i: nat)
    requires Count(ch) > 0
    ensures i < |ch| && !ch[i].Empty?
    ensures forall j :: 0 <= j < i ==> ch[j].Empty?
  {
    if Count(ch[..|ch|-1]) > 0 then Occupied(ch[..|ch|-1]) else |ch| - 1
  }

  lemma {:induction false} CountUpdate(ch: seq<Tree>, i: nat, t: Tree)
    requires i < |ch|
    ensures Count(ch[i := t]) == Count(ch) - (if ch[i].Empty? then 0 else 1) + (if t.Empty? then 0 else 1)
  {
    var n := |ch| - 1;
    var ch' := ch[i := t];
    assert Count(ch) == Count(ch[..n]) + (if ch[n].Empty? then 0 else 1);
    assert Count(ch') == Count(ch'[..n]) + (if ch'[n].Empty? then 0 else 1);
    if i == n {
      assert ch'[..n] == ch[..n];
    } else {
      CountUpdate(ch[..n], i, t);
      assert ch'[..n] == ch[..n][i := t];
    }
  }

  /** With one occupied slot, every other slot is vacant. */
  lemma {:induction false} CountOne(ch: seq<Tree>, i: nat, j: nat)
    requires Count(ch) == 1 && i < |ch| && j < |ch| && i != j && !ch[i].Empty?
    ensures ch[j].Empty?
  {
    CountUpdate(ch, i, Empty);
    assert ch[i := Empty][j].Empty?;
  }

  /** With two occupied slots, some slot other than `i` is occupied. */
  lemma CountTwo(ch: seq<Tree>, i: nat) returns (j: nat)
    requires Count(ch) >= 2 && i < |ch|
    ensures j < |ch| && j != i && !ch[j].Empty?
  {
    CountUpdate(ch, i, Empty);
    j := Occupied(ch[i := Empty]);
  }

  /** Branches have sixteen slots; extensions have a non-empty key and a branch below. */
  ghost predicate Shaped(t: Tree)
  {
    match t
    case Empty => true
    case Leaf(_, _) => true
    case Extension(k, c) => k != [] && c.Branch? && Shaped(c)
    case Branch(ch, _) => |ch| == 16 && forall i :: 0 <= i < 16 ==> Shaped(ch[i])
  }

  /** What every history keeps, whatever the keys: a branch has two children or a value. */
  ghost predicate WellFormed(t: Tree)
    requires Shaped(t)
  {
    match t
    case Empty => true
    case Leaf(_, _) => true
    case Extension(_, c) => WellFormed(c)
    case Branch(ch, v) => (Count(ch) >= 2 || v.Some?) && forall i :: 0 <= i < 16 ==> WellFormed(ch[i])
  }

  /** The value stored at a key. */
  ghost function Lookup(t: Tree, k: Key): Option<Value>
    requires Shaped(t)
    decreases t
  {
    match t
    case Empty => None
    case Leaf(lk, v) => if lk == k then Some(v) else None
    case Extension(ek, c) => if ek <= k then Lookup(c, k[|ek|..]) else None
    case Branch(ch, v) => if k == [] then v else Lookup(ch[k[0]], k[1..])
  }

  function NoChildren(): (ch: seq<Tree>)
    ensures |ch| == 16 && forall i :: 0 <= i < 16 ==> ch[i] == Empty
  {
    seq(16, _ => Empty)
  }

  lemma NoChildrenCount()
    ensures Count(NoChildren()) == 0
  {
  }

  // ----- put -----

  /** What is left of a leaf or extension when only the tail `rest` of its key remains. */
  function Trim(t: Tree, rest: Key): (r: Tree)
    requires t.Leaf? || t.Extension?
  {
    if t.Leaf? then Leaf(rest, t.value) else Extend(rest, t.child)
  }

  /** The old leaf or extension, cut at `m`, hung on a fresh branch. */
  function HangOld(t: Tree, m: nat): (r: Tree)
    requires t.Leaf? || t.Extension?
    requires m <= |t.key| && (t.Extension? ==> m < |t.key|)
  {
    if m == |t.key| then Branch(NoChildren(), Some(t.value))
    else Branch(NoChildren()[t.key[m] := Trim(t, t.key[m+1..])], None)
  }

  /** Add a key with an unoccupied place in a branch. */
  function HangNew(b: Tree, k: Key, v: Value): (r: Tree)
    requires b.Branch? && |b.children| == 16
  {
    if k == [] then Branch(b.children, Some(v)) else Branch(b.children[k[0] := Leaf(k[1..], v)], b.bvalue)
  }

  /** An extension over a branch, or the branch itself when there is nothing to extend. */
  function Extend(k: Key, b: Tree): (r: Tree)
  {
    if k == [] then b else Extension(k, b)
  }

  /** Replace a diverging leaf or extension by a branch holding both it and the new leaf. */
  function Split(t: Tree, k: Key, v: Value): (r: Tree)
    requires t.Leaf? || t.Extension?
    requires t.Extension? ==> !(t.key <= k)
  {
    var m := MatchingLength(t.key, k);
    Extend(t.key[..m], HangNew(HangOld(t, m), k[m..], v))
  }

  ghost function Insert(t: Tree, k: Key, v: Value): (r: Tree)
    requires Shaped(t)
    decreases t
  {
    match t
    case Empty => Leaf(k, v)
    case Leaf(lk, _) => if lk == k then Leaf(lk, v) else Split(t, k, v)
    case Extension(ek, c) => if ek <= k then Extension(ek, Insert(c, k[|ek|..], v)) else Split(t, k, v)
    case Branch(ch, bv) =>
      if k == [] || ch[k[0]].Empty? then HangNew(t, k, v)
      else Branch(ch[k[0] := Insert(ch[k[0]], k[1..], v)], bv)
  }

  lemma PrefixCancel(p: Key, a: Key, b: Key)
    ensures p + a <= p + b <==> a <= b
    ensures p + a == p + b <==> a == b
    ensures p <= p + a && (p + a)[|p|..] == a
  {
    assert (p + a)[|p|..] == a;
    assert (p + b)[|p|..] == b;
    if p + a <= p + b {
      assert (p + a)[|p|..] == (p + b)[|p|..|p| + |a|];
    }
  }

  lemma HangOldMeaning(t: Tree, m: nat, k: Key)
    requires Shaped(t) && (t.Leaf? || t.Extension?)
    requires m <= |t.key| && (t.Extension? ==> m < |t.key|)
    ensures Shaped(HangOld(t, m))
    ensures Lookup(HangOld(t, m), k) == Lookup(t, t.key[..m] + k)
  {
    var pre := t.key[..m];
    if m < |t.key| {
      var i, rest := t.key[m], t.key[m+1..];
      assert t.key == pre + ([i] + rest);
      PrefixCancel(pre, [i] + rest, k);
      if k != [] && k[0] == i {
        assert k == [i] + k[1..];
        PrefixCancel([i], rest, k[1..]);
        assert t.key <= pre + k ==> (pre + k)[|t.key|..] == k[1..][|rest|..];
      }
    } else {
      PrefixCancel(pre, [], k);
      assert pre + [] == t.key;
    }
  }

  lemma HangNewMeaning(b: Tree, k: Key, v: Value, q: Key)
    requires Shaped(b) && b.Branch?
    requires k == [] || b.children[k[0]].Empty?
    ensures Shaped(HangNew(b, k, v))
    ensures Lookup(HangNew(b, k, v), q) == if q == k then Some(v) else Lookup(b, q)
  {
    if k != [] {
      if q != [] && q[0] == k[0] {
        assert q == [q[0]] + q[1..] && k == [k[0]] + k[1..];
      }
    }
  }

  lemma ExtendMeaning(p: Key, b: Tree, q: Key)
    requires Shaped(b) && b.Branch?
    ensures Shaped(Extend(p, b))
    ensures Lookup(Extend(p, b), q) == if p <= q then Lookup(b, q[|p|..]) else None
  {
    assert p == [] ==> q[0..] == q;
  }

  /** The slot the new key takes in the fresh branch is vacant. */
  lemma SplitVacant(t: Tree, k: Key)
    requires Shaped(t) && (t.Leaf? || t.Extension?)
    requires if t.Extension? then !(t.key <= k) else t.key != k
    ensures var m := MatchingLength(t.key, k);
            k == t.key[..m] + k[m..] &&
            (t.Extension? ==> m < |t.key|) &&
            (k[m..] == [] || HangOld(t, m).children[k[m]].Empty?)
  {
    var m := MatchingLength(t.key, k);
    assert m == |t.key| ==> t.key == k[..m];
  }

  lemma HungUnderPrefix(pre: Key, hung: Tree, rest: Key, v: Value, q: Key, before: Option<Value>)
    requires Shaped(hung) && hung.Branch?
    requires rest == [] || hung.children[rest[0]].Empty?
    requires before == if pre <= q then Lookup(hung, q[|pre|..]) else None
    ensures Shaped(Extend(pre, HangNew(hung, rest, v)))
    ensures Lookup(Extend(pre, HangNew(hung, rest, v)), q) == if q == pre + rest then Some(v) else before
  {
    var qr := if pre <= q then q[|pre|..] else [];
    HangNewMeaning(hung, rest, v, qr);
    ExtendMeaning(pre, HangNew(hung, rest, v), q);
    PrefixCancel(pre, rest, qr);
    if pre <= q {
      assert q == pre + qr;
    }
  }

  lemma SplitMeaning(t: Tree, k: Key, v: Value, q: Key)
    requires Shaped(t) && (t.Leaf? || t.Extension?)
    requires if t.Extension? then !(t.key <= k) else t.key != k
    ensures Shaped(Split(t, k, v))
    ensures Lookup(Split(t, k, v), q) == if q == k then Some(v) else Lookup(t, q)
  {
    var m := MatchingLength(t.key, k);
    var pre := t.key[..m];
    SplitVacant(t, k);
    var rest := k[m..];
    var qr := if pre <= q then q[m..] else [];
    HangOldMeaning(t, m, qr);
    PrefixCancel(pre, t.key[m..], qr);
    assert t.key == pre + t.key[m..];
    if pre <= q {
      assert q == pre + qr;
    }
    HungUnderPrefix(pre, HangOld(t, m), rest, v, q, Lookup(t, q));
  }

  /** put binds exactly its key and disturbs no other, for every key of every tree. */
  lemma {:induction false} InsertMeaning(t: Tree, k: Key, v: Value, q: Key)
    requires Shaped(t)
    ensures Shaped(Insert(t, k, v)) && !Insert(t, k, v).Empty?
    ensures t.Branch? ==> Insert(t, k, v).Branch?
    ensures Lookup(Insert(t, k, v), q) == if q == k then Some(v) else Lookup(t, q)
    decreases t, 1
  {
    if t.Branch? {
      InsertInBranch(t, k, v, q);
    } else if t.Extension? && t.key <= k {
      InsertInExtension(t, k, v, q);
    } else if t.Extension? || (t.Leaf? && t.key != k) {
      SplitMeaning(t, k, v, q);
    }
  }

  lemma {:induction false} InsertInExtension(t: Tree, k: Key, v: Value, q: Key)
    requires Shaped(t) && t.Extension? && t.key <= k
    ensures Shaped(Insert(t, k, v)) && Insert(t, k, v).Extension?
    ensures Lookup(Insert(t, k, v), q) == if q == k then Some(v) else Lookup(t, q)
    decreases t, 0
  {
    var kr := k[|t.key|..];
    var qr := if t.key <= q then q[|t.key|..] else [];
    InsertMeaning(t.child, kr, v, qr);
    PrefixCancel(t.key, qr, kr);
    assert k == t.key + kr;
    if t.key <= q { assert q == t.key + qr; }
  }

  lemma {:induction false} InsertInBranch(t: Tree, k: Key, v: Value, q: Key)
    requires Shaped(t) && t.Branch?
    ensures Shaped(Insert(t, k, v)) && Insert(t, k, v).Branch?
    ensures Lookup(Insert(t, k, v), q) == if q == k then Some(v) else Lookup(t, q)
    decreases t, 0
  {
    if k == [] || t.children[k[0]].Empty? {
      HangNewMeaning(t, k, v, q);
    } else {
      InsertMeaning(t.children[k[0]], k[1..], v, if q == [] then [] else q[1..]);
      assert k == [k[0]] + k[1..];
      if q != [] { assert q == [q[0]] + q[1..]; }
    }
  }

  ghost predicate ChildrenWellFormed(ch: seq<Tree>)
    requires |ch| == 16 && forall i :: 0 <= i < 16 ==> Shaped(ch[i])
  {
    forall i :: 0 <= i < 16 ==> WellFormed(ch[i])
  }

  lemma HangOldKeeps(t: Tree, m: nat)
    requires Shaped(t) && WellFormed(t) && (t.Leaf? || t.Extension?)
    requires m <= |t.key| && (t.Extension? ==> m < |t.key|)
    ensures Shaped(HangOld(t, m)) && ChildrenWellFormed(HangOld(t, m).children)
    ensures if m == |t.key| then HangOld(t, m).bvalue.Some? else Count(HangOld(t, m).children) == 1
  {
    HangOldMeaning(t, m, []);
    NoChildrenCount();
    if m < |t.key| {
      CountUpdate(NoChildren(), t.key[m], Trim(t, t.key[m+1..]));
    }
  }

  lemma HangNewKeeps(b: Tree, k: Key, v: Value)
    requires Shaped(b) && b.Branch? && ChildrenWellFormed(b.children)
    requires k == [] || b.children[k[0]].Empty?
    requires Count(b.children) >= 1 || b.bvalue.Some?
    ensures Shaped(HangNew(b, k, v)) && WellFormed(HangNew(b, k, v))
  {
    HangNewMeaning(b, k, v, k);
    if k != [] {
      CountUpdate(b.children, k[0], Leaf(k[1..], v));
    }
  }

  lemma SplitKeeps(t: Tree, k: Key, v: Value)
    requires Shaped(t) && WellFormed(t) && (t.Leaf? || t.Extension?)
    requires if t.Extension? then !(t.key <= k) else t.key != k
    ensures Shaped(Split(t, k, v)) && WellFormed(Split(t, k, v))
  {
    SplitMeaning(t, k, v, k);
    SplitVacant(t, k);
    var m := MatchingLength(t.key, k);
    HangOldKeeps(t, m);
    HangNewKeeps(HangOld(t, m), k[m..], v);
  }

  lemma {:induction false} InsertKeeps(t: Tree, k: Key, v: Value)
    requires Shaped(t) && WellFormed(t)
    ensures Shaped(Insert(t, k, v)) && WellFormed(Insert(t, k, v))
    decreases t
  {
    InsertMeaning(t, k, v, k);
    match t
    case Empty =>
    case Leaf(lk, _) =>
      if lk != k { SplitKeeps(t, k, v); }
    case Extension(ek, c) =>
      if ek <= k { InsertKeeps(c, k[|ek|..], v); } else { SplitKeeps(t, k, v); }
    case Branch(ch, bv) =>
      if k != [] {
        var below := if ch[k[0]].Empty? then Leaf(k[1..], v) else Insert(ch[k[0]], k[1..], v);
        CountUpdate(ch, k[0], below);
        if !ch[k[0]].Empty? {
          InsertKeeps(ch[k[0]], k[1..], v);
          InsertMeaning(ch[k[0]], k[1..], v, []);
        }
      }
  }

  /** A non-empty tree stores some key. */
  lemma {:induction false} SomeKey(t: Tree) returns (k: Key)
    requires Shaped(t) && WellFormed(t) && !t.Empty?
    ensures Lookup(t, k).Some?
    decreases t
  {
    match t
    case Leaf(lk, _) => k := lk;
    case Extension(ek, c) =>
      var r := SomeKey(c);
      k := ek + r;
      PrefixCancel(ek, r, []);
    case Branch(ch, bv) =>
      if bv.Some? {
        k := [];
      } else {
        var i := Occupied(ch);
        var r := SomeKey(ch[i]);
        k := [i] + r;
      }
  }
}
