/**
  How a trie is kept: nodes refer to each other by hash, or inline when their encoding is
  short, and a store maps each hash to the node it is the hash of.  `NodeOf` gives the
  node of a tree value, `Resolves` says that every reference below it can be followed.
*/
module MptStore {
  import opened Wrappers
  import opened MptTree
  import opened MptDeletion

  type Digest = nat

  /** What a parent keeps of a child: nothing, its hash, or the child itself. */
  datatype Ref = Null | Hash(digest: Digest) | Raw(node: Node)

  datatype Node =
    | LeafNode(key: Key, value: Value)
    | ExtensionNode(key: Key, child: Ref)
    | BranchNode(branches: seq<Ref>, bvalue: Option<Value>)

  type Store = map<Digest, Node>

  /** The hash of a node's serialisation, the length of that serialisation, the hash of nothing. */
  datatype Codec = Codec(digest: Node -> Digest, size: Node -> nat, emptyRoot: Digest)
  {
    ghost predicate CollisionFree()
    {
      && (forall a, b :: digest(a) == digest(b) ==> a == b)
      && (forall a :: digest(a) != emptyRoot)
    }
  }

  ghost function NodeOf(c: Codec, t: Tree): (n: Node)
    requires Shaped(t) && !t.Empty?
    ensures n.LeafNode? <==> t.Leaf?
    ensures n.ExtensionNode? <==> t.Extension?
    ensures n.BranchNode? ==> |n.branches| == 16
    decreases t, 0
  {
    match t
    case Leaf(k, v) => LeafNode(k, v)
    case Extension(k, ch) => ExtensionNode(k, RefOf(c, ch))
    case Branch(ch, v) => BranchNode(seq(16, i requires 0 <= i < 16 => RefOf(c, ch[i])), v)
  }

  ghost function RefOf(c: Codec, t: Tree): (r: Ref)
    requires Shaped(t)
    ensures r.Null? <==> t.Empty?
    decreases t, 1
  {
    if t.Empty? then Null
    else
      var n := NodeOf(c, t);
      if c.size(n) >= 32 then Hash(c.digest(n)) else Raw(n)
  }

  ghost function RootOf(c: Codec, t: Tree): Digest
    requires Shaped(t)
  {
    if t.Empty? then c.emptyRoot else c.digest(NodeOf(c, t))
  }

  ghost predicate Kept(c: Codec, db: Store, n: Node)
  {
    c.digest(n) in db && db[c.digest(n)] == n
  }

  /** Everything referenced from `t`'s node can be looked up. */
  ghost predicate ChildrenResolve(c: Codec, db: Store, t: Tree)
    requires Shaped(t)
    decreases t, 0
  {
    match t
    case Empty => true
    case Leaf(_, _) => true
    case Extension(_, ch) => Resolves(c, db, ch)
    case Branch(ch, _) => forall i :: 0 <= i < 16 ==> Resolves(c, db, ch[i])
  }

  ghost predicate Resolves(c: Codec, db: Store, t: Tree)
    requires Shaped(t)
    decreases t, 1
  {
    t.Empty? || (ChildrenResolve(c, db, t) && (c.size(NodeOf(c, t)) >= 32 ==> Kept(c, db, NodeOf(c, t))))
  }

  /** The root is kept whatever its size. */
  ghost predicate RootResolves(c: Codec, db: Store, t: Tree)
    requires Shaped(t)
  {
    t.Empty? || (ChildrenResolve(c, db, t) && Kept(c, db, NodeOf(c, t)))
  }

  ghost predicate ContentAddressed(c: Codec, db: Store)
  {
    forall d :: d in db ==> c.digest(db[d]) == d
  }

  ghost predicate Grows(db: Store, db': Store)
  {
    forall d :: d in db ==> d in db' && db'[d] == db[d]
  }

  /** Adding nodes never loses a reference. */
  lemma {:induction false} ResolvesGrows(c: Codec, db: Store, db': Store, t: Tree)
    requires Shaped(t) && Grows(db, db') && ChildrenResolve(c, db, t)
    ensures ChildrenResolve(c, db', t)
    decreases t
  {
    match t
    case Empty =>
    case Leaf(_, _) =>
    case Extension(_, ch) => ResolvesGrows(c, db, db', ch);
    case Branch(ch, _) =>
      forall i | 0 <= i < 16 ensures Resolves(c, db', ch[i]) {
        ResolvesGrows(c, db, db', ch[i]);
      }
  }

  /** Equal roots mean equal tries. */
  lemma {:induction false} NodeOfInjective(c: Codec, a: Tree, b: Tree)
    requires c.CollisionFree() && Shaped(a) && Shaped(b) && !a.Empty? && !b.Empty?
    requires NodeOf(c, a) == NodeOf(c, b)
    ensures a == b
    decreases a, 0
  {
    match a
    case Leaf(_, _) =>
    case Extension(_, ch) => RefOfInjective(c, ch, b.child);
    case Branch(ch, _) =>
      forall i | 0 <= i < 16 ensures ch[i] == b.children[i] {
        assert NodeOf(c, a).branches[i] == NodeOf(c, b).branches[i];
        RefOfInjective(c, ch[i], b.children[i]);
      }
  }

  lemma {:induction false} RefOfInjective(c: Codec, a: Tree, b: Tree)
    requires c.CollisionFree() && Shaped(a) && Shaped(b)
    requires RefOf(c, a) == RefOf(c, b)
    ensures a == b
    decreases a, 1
  {
    if !a.Empty? {
      NodeOfInjective(c, a, b);
    }
  }

  lemma RootDeterminesTree(c: Codec, a: Tree, b: Tree)
    requires c.CollisionFree() && Shaped(a) && Shaped(b)
    ensures RootOf(c, a) == RootOf(c, b) <==> a == b
  {
    if RootOf(c, a) == RootOf(c, b) && !a.Empty? && !b.Empty? {
      NodeOfInjective(c, a, b);
    }
  }

  // ----- pending writes -----

  datatype PutOp = PutOp(key: Digest, value: Node)

  function Batch(db: Store, ops: seq<PutOp>): Store
  {
    if ops == [] then db
    else Batch(db, ops[..|ops|-1])[ops[|ops|-1].key := ops[|ops|-1].value]
  }

  ghost predicate Honest(c: Codec, ops: seq<PutOp>)
  {
    forall i :: 0 <= i < |ops| ==> ops[i].key == c.digest(ops[i].value)
  }

  lemma {:induction false} BatchGrows(c: Codec, db: Store, ops: seq<PutOp>)
    requires c.CollisionFree() && ContentAddressed(c, db) && Honest(c, ops)
    ensures ContentAddressed(c, Batch(db, ops)) && Grows(db, Batch(db, ops))
  {
    if ops != [] {
      BatchGrows(c, db, ops[..|ops|-1]);
    }
  }

  lemma BatchPush(c: Codec, db: Store, ops: seq<PutOp>, n: Node)
    requires c.CollisionFree() && ContentAddressed(c, db) && Honest(c, ops)
    ensures Honest(c, ops + [PutOp(c.digest(n), n)])
    ensures Grows(Batch(db, ops), Batch(db, ops + [PutOp(c.digest(n), n)]))
    ensures Kept(c, Batch(db, ops + [PutOp(c.digest(n), n)]), n)
  {
    var ops' := ops + [PutOp(c.digest(n), n)];
    assert ops'[..|ops'|-1] == ops;
    BatchGrows(c, db, ops);
  }

  // ----- a place in a tree -----

  /** One step of the way down to a place: along an extension, or through a branch slot. */
  datatype Frame = Along(key: Key) | Slot(children: seq<Tree>, bvalue: Option<Value>, index: Nibble)

  ghost predicate FrameShaped(f: Frame)
  {
    match f
    case Along(k) => k != []
    case Slot(ch, _, _) => |ch| == 16 && forall i :: 0 <= i < 16 ==> Shaped(ch[i])
  }

  ghost function FrameKey(f: Frame): Key
  {
    match f
    case Along(k) => k
    case Slot(_, _, i) => [i]
  }

  ghost function FillOne(f: Frame, t: Tree): Tree
    requires FrameShaped(f)
  {
    match f
    case Along(k) => Extension(k, t)
    case Slot(ch, v, i) => Branch(ch[i := t], v)
  }

  /** Frames down to a place: an extension leads to a branch, never to another extension. */
  ghost predicate Framed(fs: seq<Frame>)
  {
    && (forall i :: 0 <= i < |fs| ==> FrameShaped(fs[i]))
    && (forall i, j :: 0 <= i < j == i + 1 < |fs| && fs[i].Along? ==> fs[j].Slot?)
  }

  ghost predicate HoleFits(fs: seq<Frame>, t: Tree)
  {
    Shaped(t) && !t.Empty? && (fs != [] && fs[|fs|-1].Along? ==> t.Branch?)
  }

  ghost function Fill(fs: seq<Frame>, t: Tree): (r: Tree)
    requires Framed(fs)
  {
    if fs == [] then t else Fill(fs[..|fs|-1], FillOne(fs[|fs|-1], t))
  }

  ghost function PathOf(fs: seq<Frame>): Key
  {
    if fs == [] then [] else PathOf(fs[..|fs|-1]) + FrameKey(fs[|fs|-1])
  }

  lemma {:induction false} FillShaped(fs: seq<Frame>, t: Tree)
    requires Framed(fs) && HoleFits(fs, t)
    ensures HoleFits([], Fill(fs, t))
  {
    if fs != [] {
      FillShaped(fs[..|fs|-1], FillOne(fs[|fs|-1], t));
    }
  }

  lemma FillPush(fs: seq<Frame>, f: Frame, t: Tree)
    requires Framed(fs + [f]) && FrameShaped(f)
    ensures Framed(fs) && Fill(fs + [f], t) == Fill(fs, FillOne(f, t))
    ensures PathOf(fs + [f]) == PathOf(fs) + FrameKey(f)
  {
    assert forall i :: 0 <= i < |fs| ==> (fs + [f])[i] == fs[i];
    assert (fs + [f])[..|fs|] == fs;
  }

  lemma FillOneShaped(f: Frame, t: Tree)
    requires FrameShaped(f) && Shaped(t) && !t.Empty? && (f.Along? ==> t.Branch?)
    ensures Shaped(FillOne(f, t)) && (f.Slot? ==> FillOne(f, t).Branch?)
  {
  }

  lemma InsertFillOne(f: Frame, t: Tree, r: Key, v: Value)
    requires FrameShaped(f) && Shaped(t) && !t.Empty? && (f.Along? ==> t.Branch?)
    ensures Shaped(FillOne(f, t))
    ensures Insert(FillOne(f, t), FrameKey(f) + r, v) == FillOne(f, Insert(t, r, v))
  {
    FillOneShaped(f, t);
    PrefixCancel(FrameKey(f), r, []);
    if f.Slot? {
      assert (FrameKey(f) + r)[1..] == r;
      assert f.children[f.index := t][f.index := Insert(t, r, v)] == f.children[f.index := Insert(t, r, v)];
    }
  }

  lemma LookupFillOne(f: Frame, t: Tree, r: Key)
    requires FrameShaped(f) && Shaped(t) && !t.Empty? && (f.Along? ==> t.Branch?)
    ensures Shaped(FillOne(f, t)) && Lookup(FillOne(f, t), FrameKey(f) + r) == Lookup(t, r)
  {
    FillOneShaped(f, t);
    PrefixCancel(FrameKey(f), r, []);
  }

  lemma RemoveFillOne(f: Frame, t: Tree, r: Key)
    requires FrameShaped(f) && Shaped(t) && !t.Empty? && (f.Along? ==> t.Branch?)
    requires !Remove(t, r).Empty? && (f.Along? ==> Remove(t, r).Branch?)
    ensures Shaped(FillOne(f, t))
    ensures Remove(FillOne(f, t), FrameKey(f) + r) == FillOne(f, Remove(t, r))
  {
    FillOneShaped(f, t);
    PrefixCancel(FrameKey(f), r, []);
    if f.Slot? {
      assert (FrameKey(f) + r)[1..] == r;
      assert f.children[f.index := t][f.index := Remove(t, r)] == f.children[f.index := Remove(t, r)];
    }
  }

  lemma PathAssoc(fs: seq<Frame>, r: Key)
    requires fs != []
    ensures PathOf(fs) + r == PathOf(fs[..|fs|-1]) + (FrameKey(fs[|fs|-1]) + r)
  {
  }

  /** Inserting below a place is inserting at the place. */
  lemma {:induction false} InsertFill(fs: seq<Frame>, t: Tree, r: Key, v: Value)
    requires Framed(fs) && HoleFits(fs, t)
    ensures HoleFits([], Fill(fs, t))
    ensures Insert(Fill(fs, t), PathOf(fs) + r, v) == Fill(fs, Insert(t, r, v))
  {
    if fs == [] {
      assert [] + r == r;
    } else {
      var f := fs[|fs|-1];
      InsertFillOne(f, t, r, v);
      PathAssoc(fs, r);
      InsertFill(fs[..|fs|-1], FillOne(f, t), FrameKey(f) + r, v);
    }
  }

  lemma {:induction false} LookupFill(fs: seq<Frame>, t: Tree, r: Key)
    requires Framed(fs) && HoleFits(fs, t)
    ensures HoleFits([], Fill(fs, t))
    ensures Lookup(Fill(fs, t), PathOf(fs) + r) == Lookup(t, r)
  {
    if fs == [] {
      assert [] + r == r;
    } else {
      var f := fs[|fs|-1];
      LookupFillOne(f, t, r);
      PathAssoc(fs, r);
      LookupFill(fs[..|fs|-1], FillOne(f, t), FrameKey(f) + r);
    }
  }

  lemma {:induction false} RemoveFill(fs: seq<Frame>, t: Tree, r: Key)
    requires Framed(fs) && HoleFits(fs, t)
    requires !Remove(t, r).Empty? && (fs != [] && fs[|fs|-1].Along? ==> Remove(t, r).Branch?)
    ensures HoleFits([], Fill(fs, t))
    ensures Remove(Fill(fs, t), PathOf(fs) + r) == Fill(fs, Remove(t, r))
  {
    if fs == [] {
      assert [] + r == r;
    } else {
      var f := fs[|fs|-1];
      RemoveFillOne(f, t, r);
      PathAssoc(fs, r);
      RemoveFill(fs[..|fs|-1], FillOne(f, t), FrameKey(f) + r);
    }
  }

  /** A shrunk branch merges with an extension above it and with nothing else. */
  ghost function Merge(fs: seq<Frame>, s: Tree): Tree
    requires Framed(fs)
  {
    if fs != [] && fs[|fs|-1].Along? then Fill(fs[..|fs|-1], Prepend(fs[|fs|-1].key, s)) else Fill(fs, s)
  }

  lemma RemoveMerge(fs: seq<Frame>, b: Tree, r: Key)
    requires Framed(fs) && HoleFits(fs, b) && b.Branch? && !Remove(b, r).Empty?
    ensures HoleFits([], Fill(fs, b))
    ensures Remove(Fill(fs, b), PathOf(fs) + r) == Merge(fs, Remove(b, r))
  {
    if fs != [] && fs[|fs|-1].Along? {
      var f, above := fs[|fs|-1], fs[..|fs|-1];
      FillOneShaped(f, b);
      PrefixCancel(f.key, r, []);
      PathAssoc(fs, r);
      RemoveFill(above, FillOne(f, b), f.key + r);
    } else {
      RemoveFill(fs, b, r);
    }
  }

  lemma {:induction false} WellFormedAt(fs: seq<Frame>, t: Tree)
    requires Framed(fs) && HoleFits(fs, t) && Shaped(Fill(fs, t)) && WellFormed(Fill(fs, t))
    ensures WellFormed(t)
  {
    if fs != [] {
      var f := fs[|fs|-1];
      FillOneShaped(f, t);
      WellFormedAt(fs[..|fs|-1], FillOne(f, t));
      if f.Slot? { assert f.children[f.index := t][f.index] == t; }
    }
  }
}
