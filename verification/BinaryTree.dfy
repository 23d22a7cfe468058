/**
  The binary tree over its store: find the path to a stem, put values there, connect new
  stems by internal nodes, update the parents up to the root and save what changed.
*/
module BinaryTree {
  import opened Wrappers
  import opened BinaryShape
  import opened BinaryStore

  // ----- the tree along a key -----

  /** The subtree that `n` bits of a key lead to. */
  ghost function Sub(t: Tree, k: Key, n: nat): Tree
  {
    if n == 0 then t
    else
      var s := Sub(t, k, n - 1);
      if s.Internal? && n <= STEM_BITS then Child(s, k[n - 1]) else Nil
  }

  ghost predicate InternalTo(t: Tree, k: Key, n: nat) {
    n <= STEM_BITS && forall j :: 0 <= j < n ==> Sub(t, k, j).Internal?
  }

  lemma NextBits(k: Key, n: nat)
    requires n < STEM_BITS
    ensures k[..n + 1] == k[..n] + [k[n]]
  {
  }

  /** Every node that a search for the key meets is stored. */
  ghost predicate Leads(h: Hasher, db: Store, t: Tree, k: Key, n: nat)
    requires n <= STEM_BITS
    decreases t
  {
    t.Nil? || (
      && HashOf(h, t) in db && db[HashOf(h, t)] == NodeOf(h, t, k[..n])
      && (t.Internal? && n < STEM_BITS ==> Leads(h, db, Child(t, k[n]), k, n + 1)))
  }

  lemma {:induction false} ResolvesLeads(h: Hasher, db: Store, t: Tree, k: Key, n: nat)
    requires n <= STEM_BITS && Resolves(h, db, t, k[..n])
    ensures Leads(h, db, t, k, n)
    decreases t
  {
    if t.Internal? && n < STEM_BITS {
      NextBits(k, n);
      ResolvesLeads(h, db, Child(t, k[n]), k, n + 1);
    }
  }

  lemma {:induction false} SubAt(h: Hasher, db: Store, t: Tree, k: Key, n: nat)
    requires At(t, []) && Leads(h, db, t, k, 0) && InternalTo(t, k, n)
    ensures At(Sub(t, k, n), k[..n]) && Leads(h, db, Sub(t, k, n), k, n)
    ensures Lookup(Sub(t, k, n), k, n) == Lookup(t, k, 0)
  {
    if n > 0 {
      SubAt(h, db, t, k, n - 1);
      assert Sub(t, k, n - 1).Internal?;
      NextBits(k, n - 1);
    }
  }

  lemma {:induction false} SubResolves(h: Hasher, db: Store, t: Tree, k: Key, n: nat)
    requires At(t, []) && Resolves(h, db, t, []) && InternalTo(t, k, n)
    ensures At(Sub(t, k, n), k[..n]) && Resolves(h, db, Sub(t, k, n), k[..n])
    ensures Lookup(Sub(t, k, n), k, n) == Lookup(t, k, 0)
  {
    if n > 0 {
      SubResolves(h, db, t, k, n - 1);
      assert Sub(t, k, n - 1).Internal?;
      NextBits(k, n - 1);
    }
  }

  /** The stack holds the internal nodes on the way to `n` bits of a key. */
  ghost predicate OnPath(h: Hasher, t: Tree, stack: seq<(Node, Bits)>, key: Key, n: nat)
  {
    n <= |stack| && InternalTo(t, key, n) && forall j :: 0 <= j < n ==>
      !Sub(t, key, j).Nil? && stack[j] == (NodeOf(h, Sub(t, key, j), key[..j]), key[..j])
  }

  /** What a search gives: another stem's node joins the stack, the sought one only at the root. */
  ghost predicate Found(h: Hasher, t: Tree, key: Key, node: Option<Node>, stack: seq<(Node, Bits)>, n: nat)
  {
    var s := Sub(t, key, n);
    && OnPath(h, t, stack, key, n) && !s.Internal?
    && (s.Nil? ==> node == None && |stack| == n)
    && (s.Stem? && s.key == key ==> node == Some(StemNode(key, s.values)))
    && (s.Stem? && s.key == key && n > 0 ==> |stack| == n)
    && (s.Stem? && s.key != key ==> node == None)
    && (s.Stem? && (s.key != key || n == 0) ==>
          && |stack| == n + 1
          && stack[n] == (StemNode(s.key, s.values), if n == 0 then [] else key[..Matching(key, s.key)]))
  }

  /** From an internal node to its child on the way. */
  lemma StepDown(h: Hasher, db: Store, t: Tree, key: Key, n: nat)
    requires At(t, []) && Leads(h, db, t, key, 0) && InternalTo(t, key, n) && Sub(t, key, n).Internal?
    ensures n < STEM_BITS && InternalTo(t, key, n + 1)
    ensures GetChild(NodeOf(h, Sub(t, key, n), key[..n]), key[n]) == RefOf(h, Sub(t, key, n + 1), key[..n + 1])
  {
    SubAt(h, db, t, key, n);
    NextBits(key, n);
  }

  /** What a reference on the way leads to, and how its path compares with the key. */
  lemma Load(h: Hasher, db: Store, t: Tree, key: Key, n: nat)
    requires At(t, []) && Leads(h, db, t, key, 0) && InternalTo(t, key, n) && !Sub(t, key, n).Nil?
    ensures var s, r := Sub(t, key, n), RefOf(h, Sub(t, key, n), key[..n]).value;
            && r.hash in db && db[r.hash] == NodeOf(h, s, key[..n])
            && (s.Internal? ==> Matching(key, r.path) == n && n < STEM_BITS)
            && (s.Stem? ==> r.path == s.key && (Matching(key, r.path) == |r.path| <==> s.key == key))
  {
    SubAt(h, db, t, key, n);
    var s := Sub(t, key, n);
    if s.Internal? {
      MatchingIs(key, key[..n], n);
    } else {
      MatchingAll(key, s.key);
    }
  }

  lemma PathShrinks(h: Hasher, t: Tree, stack: seq<(Node, Bits)>, key: Key, n: nat)
    requires OnPath(h, t, stack, key, n) && 0 < n == |stack|
    ensures OnPath(h, t, stack[..n - 1], key, n - 1)
    ensures InternalTo(t, key, n) && Sub(t, key, n - 1).Internal?
    ensures stack[n - 1] == (NodeOf(h, Sub(t, key, n - 1), key[..n - 1]), key[..n - 1])
  {
  }

  lemma PathGrows(h: Hasher, db: Store, t: Tree, stack: seq<(Node, Bits)>, key: Key, n: nat)
    requires At(t, []) && Leads(h, db, t, key, 0) && OnPath(h, t, stack, key, n) && |stack| == n
    requires Sub(t, key, n).Internal?
    ensures OnPath(h, t, stack + [(NodeOf(h, Sub(t, key, n), key[..n]), key[..n])], key, n + 1)
  {
    StepDown(h, db, t, key, n);
  }

  /** A search that has come to its end. */
  lemma Ended(h: Hasher, db: Store, t: Tree, stack: seq<(Node, Bits)>, key: Key, n: nat)
    requires At(t, []) && Leads(h, db, t, key, 0) && OnPath(h, t, stack, key, n) && |stack| == n > 0
    requires !Sub(t, key, n).Internal?
    ensures var s := Sub(t, key, n);
            && Lookup(s, key, n) == Lookup(t, key, 0)
            && (s.Nil? ==> Found(h, t, key, None, stack, n))
            && (s.Stem? && s.key == key ==> Found(h, t, key, Some(StemNode(key, s.values)), stack, n))
            && (s.Stem? && s.key != key ==>
                  Found(h, t, key, None, stack + [(StemNode(s.key, s.values), key[..Matching(key, s.key)])], n))
  {
    SubAt(h, db, t, key, n);
  }

  // ----- nodes above a changed child -----

  lemma SetChildNode(h: Hasher, t: Tree, p: Bits, b: bool, c: Tree)
    requires t.Internal? && !c.Nil?
    ensures SetChild(NodeOf(h, t, p), b, RefOf(h, c, p + [b]).value) == NodeOf(h, WithChild(t, b, c), p)
  {
  }

  /** A store with more nodes, all of trees in place, among them those of `t`. */
  ghost predicate Saved(h: Hasher, db: Store, after: Store, origins: Origins, t: Tree, p: Bits) {
    Grows(db, after) && Sound(h, after, origins) && At(t, p) && Resolves(h, after, t, p)
  }

  /** Saving an internal node whose children are saved. */
  lemma Push(h: Hasher, db: Store, after: Store, origins: Origins, t: Tree, p: Bits)
    requires h.CollisionFree() && Grows(db, after) && Sound(h, after, origins) && At(t, p) && t.Internal?
    requires Resolves(h, after, t.left, p + [false]) && Resolves(h, after, t.right, p + [true])
    ensures Saved(h, db, after[HashOf(h, t) := NodeOf(h, t, p)], origins[HashOf(h, t) := (t, p)], t, p)
  {
    SaveNode(h, after, origins, t, p);
    var after' := after[HashOf(h, t) := NodeOf(h, t, p)];
    ResolvesGrows(h, after, after', t.left, p + [false]);
    ResolvesGrows(h, after, after', t.right, p + [true]);
  }

  /** Saving the parent of a changed child. */
  lemma PushParent(h: Hasher, db: Store, after: Store, origins: Origins, t: Tree, p: Bits, k: Key, v: Values)
    requires h.CollisionFree() && Resolves(h, db, t, p) && At(t, p) && t.Internal? && Under(k, p) && Regular(k, v)
    requires var c := Insert(Child(t, k[|p|]), k, v, |p| + 1); Saved(h, db, after, origins, c, p + [k[|p|]])
    ensures var t' := Insert(t, k, v, |p|);
            && t'.Internal?
            && Saved(h, db, after[HashOf(h, t') := NodeOf(h, t', p)], origins[HashOf(h, t') := (t', p)], t', p)
  {
    var b := k[|p|];
    InsertAt(t, p, k, v);
    ResolvesGrows(h, db, after, Child(t, !b), p + [!b]);
    Push(h, db, after, origins, Insert(t, k, v, |p|), p);
  }

  /** Saving the next internal node above two stems that part further down. */
  lemma PushSplit(h: Hasher, db: Store, after: Store, origins: Origins, k: Key, v: Values, k': Key, v': Values, i: nat)
    requires h.CollisionFree() && Grows(db, after) && Sound(h, after, origins) && k != k'
    requires i < STEM_BITS && Under(k', k[..i]) && Regular(k, v) && Regular(k', v')
    requires Resolves(h, after, Stem(k, v), k) && Resolves(h, after, Stem(k', v'), k')
    requires k[i] == k'[i] ==> Resolves(h, after, Split(k, v, k', v', i + 1), k[..i + 1])
    ensures var t, p := Split(k, v, k', v', i), k[..i];
            t.Internal? && Saved(h, db, after[HashOf(h, t) := NodeOf(h, t, p)], origins[HashOf(h, t) := (t, p)], t, p)
    ensures var t := Split(k, v, k', v', i);
            Grows(after, after[HashOf(h, t) := NodeOf(h, t, k[..i])])
  {
    var t, p := Split(k, v, k', v', i), k[..i];
    SplitAt(k, v, k', v', p);
    NextBits(k, i);
    Push(h, db, after, origins, t, p);
    SaveNode(h, after, origins, t, p);
  }

  // ----- the stack of nodes to save -----

  type PutStack = seq<(Digest, Node)>

  function Entry(h: Hasher, n: Node): (Digest, Node) {
    (Merkelize(h, n), n)
  }

  /** The store once a stack is saved, first entry first. */
  function Apply(db: Store, puts: PutStack): Store {
    if puts == [] then db else Apply(db, puts[..|puts|-1])[puts[|puts|-1].0 := puts[|puts|-1].1]
  }

  lemma ApplyMore(db: Store, puts: PutStack, e: (Digest, Node))
    ensures Apply(db, puts + [e]) == Apply(db, puts)[e.0 := e.1]
  {
    assert (puts + [e])[..|puts|] == puts;
  }

  lemma ApplyOne(db: Store, e: (Digest, Node))
    ensures Apply(db, [e]) == db[e.0 := e.1]
  {
    assert [e][..0] == [];
  }

  /** Saving the stack saves this tree, whose own node is on top. */
  ghost predicate Tops(h: Hasher, db: Store, puts: PutStack, origins: Origins, t: Tree, p: Bits) {
    && !t.Nil? && Saved(h, db, Apply(db, puts), origins, t, p)
    && puts != [] && puts[|puts|-1] == (HashOf(h, t), NodeOf(h, t, p))
  }

  lemma StartStack(h: Hasher, db: Store, origins: Origins, k: Key, v: Values, p: Bits)
    requires h.CollisionFree() && Sound(h, db, origins) && Under(k, p) && Regular(k, v)
    ensures Tops(h, db, [Entry(h, StemNode(k, v))], origins[h.stem(k, v) := (Stem(k, v), p)], Stem(k, v), p)
    ensures Resolves(h, Apply(db, [Entry(h, StemNode(k, v))]), Stem(k, v), k)
  {
    SaveNode(h, db, origins, Stem(k, v), p);
    ApplyOne(db, Entry(h, StemNode(k, v)));
  }

  /** One level up: the parent on the path with its changed child. */
  lemma RaiseOne(h: Hasher, db: Store, puts: PutStack, origins: Origins, s: Tree, p: Bits, k: Key, v: Values)
    requires h.CollisionFree() && At(s, p) && Resolves(h, db, s, p) && s.Internal? && Under(k, p) && Regular(k, v)
    requires Tops(h, db, puts, origins, Insert(Child(s, k[|p|]), k, v, |p| + 1), p + [k[|p|]])
    ensures var c, s' := Insert(Child(s, k[|p|]), k, v, |p| + 1), Insert(s, k, v, |p|);
            var n := SetChild(NodeOf(h, s, p), k[|p|], RefOf(h, c, p + [k[|p|]]).value);
            && n == NodeOf(h, s', p) && s'.Internal?
            && Tops(h, db, puts + [Entry(h, n)], origins[HashOf(h, s') := (s', p)], s', p)
  {
    var s' := Insert(s, k, v, |p|);
    PushParent(h, db, Apply(db, puts), origins, s, p, k, v);
    SetChildNode(h, s, p, k[|p|], Insert(Child(s, k[|p|]), k, v, |p| + 1));
    MerkelizeNode(h, s', p);
    ApplyMore(db, puts, (HashOf(h, s'), NodeOf(h, s', p)));
  }

  /** A stem in the internal node right above its place. */
  lemma RaiseStem(h: Hasher, db: Store, origins: Origins, s: Tree, p: Bits, k: Key, v: Values)
    requires h.CollisionFree() && Sound(h, db, origins)
    requires At(s, p) && Resolves(h, db, s, p) && s.Internal? && Under(k, p) && Regular(k, v)
    requires var c := Child(s, k[|p|]); c.Nil? || (c.Stem? && c.key == k)
    ensures var n := SetChild(NodeOf(h, s, p), k[|p|], ChildRef(h.stem(k, v), k));
            var s' := Insert(s, k, v, |p|);
            && s'.Internal?
            && Tops(h, db, [Entry(h, StemNode(k, v)), Entry(h, n)],
                 origins[h.stem(k, v) := (Stem(k, v), p + [k[|p|]])][HashOf(h, s') := (s', p)], s', p)
  {
    var stem := [Entry(h, StemNode(k, v))];
    UnderLonger(k, p);
    StartStack(h, db, origins, k, v, p + [k[|p|]]);
    assert Insert(Child(s, k[|p|]), k, v, |p| + 1) == Stem(k, v);
    RaiseOne(h, db, stem, origins[h.stem(k, v) := (Stem(k, v), p + [k[|p|]])], s, p, k, v);
    var n := SetChild(NodeOf(h, s, p), k[|p|], ChildRef(h.stem(k, v), k));
    assert stem + [Entry(h, n)] == [Entry(h, StemNode(k, v)), Entry(h, n)];
  }

  // ----- connecting two stems -----

  const NO_CHILDREN: Node := InternalNode(None, None)

  /** The internal nodes above two stems, from where they part upwards. */
  lemma SplitNode(h: Hasher, k: Key, v: Values, k': Key, v': Values, i: nat)
    requires k != k' && i <= Matching(k, k')
    ensures i < STEM_BITS && Split(k, v, k', v', i).Internal?
    ensures i == Matching(k, k') ==>
              NodeOf(h, Split(k, v, k', v', i), k[..i]) ==
              SetChild(SetChild(NO_CHILDREN, k[i], ChildRef(h.stem(k, v), k)), k'[i], ChildRef(h.stem(k', v'), k'))
    ensures i < Matching(k, k') ==>
              && Split(k, v, k', v', i + 1).Internal?
              && NodeOf(h, Split(k, v, k', v', i), k[..i]) ==
                 SetChild(NO_CHILDREN, k[i], ChildRef(HashOf(h, Split(k, v, k', v', i + 1)), k[..i + 1]))
    decreases STEM_BITS - i
  {
    var m := Matching(k, k');
    MatchingAll(k, k');
    MatchingParts(k, k');
    if i < m {
      assert k[i] == k[..m][i] == k'[..m][i] == k'[i];
      SplitNode(h, k, v, k', v', i + 1);
      NextBits(k, i);
    }
  }

  /** A node above two stems with the bits that lead to it. */
  ghost predicate Connects(h: Hasher, k: Key, v: Values, k': Key, v': Values, i: nat, e: (Node, Bits)) {
    i < STEM_BITS && Split(k, v, k', v', i).Internal? && e == (NodeOf(h, Split(k, v, k', v', i), k[..i]), k[..i])
  }

  /** From where two stems part up to depth `lowest`. */
  ghost predicate Connecting(h: Hasher, k: Key, v: Values, k': Key, v': Values, lowest: nat, nodes: seq<(Node, Bits)>) {
    var m := Matching(k, k');
    && lowest <= m && |nodes| == m - lowest + 1
    && forall i :: 0 <= i < |nodes| ==> Connects(h, k, v, k', v', m - i, nodes[i])
  }

  /** The first of them, and the next above another. */
  lemma ConnectFirst(h: Hasher, k: Key, v: Values, k': Key, v': Values)
    requires k != k'
    ensures var m := Matching(k, k');
            m < STEM_BITS && Connecting(h, k, v, k', v', m,
              [(SetChild(SetChild(NO_CHILDREN, k[m], ChildRef(h.stem(k, v), k)), k'[m], ChildRef(h.stem(k', v'), k')),
                k[..m])])
  {
    SplitNode(h, k, v, k', v', Matching(k, k'));
  }

  lemma ConnectNext(h: Hasher, k: Key, v: Values, k': Key, v': Values, lowest: nat, nodes: seq<(Node, Bits)>)
    requires k != k' && lowest > 0 && Connecting(h, k, v, k', v', lowest, nodes)
    ensures lowest <= STEM_BITS && Connecting(h, k, v, k', v', lowest - 1,
              nodes + [(SetChild(NO_CHILDREN, k[lowest - 1], ChildRef(Merkelize(h, nodes[|nodes|-1].0), k[..lowest])),
                k[..lowest - 1])])
  {
    SplitNode(h, k, v, k', v', lowest - 1);
    assert Connects(h, k, v, k', v', lowest, nodes[|nodes|-1]);
    MerkelizeNode(h, Split(k, v, k', v', lowest), k[..lowest]);
  }

  /** Saving one more node above two stems. */
  lemma ConnectSaved(h: Hasher, db: Store, first: Store, after: Store, origins: Origins,
                     k: Key, v: Values, k': Key, v': Values, d: nat)
    requires h.CollisionFree() && k != k' && d <= Matching(k, k') && d < STEM_BITS && Regular(k, v) && Regular(k', v')
    requires Grows(db, first) && Grows(first, after) && Sound(h, after, origins)
    requires Resolves(h, first, Stem(k, v), k) && Resolves(h, db, Stem(k', v'), k')
    requires d < Matching(k, k') ==> Resolves(h, after, Split(k, v, k', v', d + 1), k[..d + 1])
    ensures var t, p := Split(k, v, k', v', d), k[..d];
            var after' := after[HashOf(h, t) := NodeOf(h, t, p)];
            t.Internal? && Grows(first, after') && Saved(h, db, after', origins[HashOf(h, t) := (t, p)], t, p)
  {
    var m := Matching(k, k');
    assert k[..d] == k[..m][..d] == k'[..m][..d] == k'[..d];
    MatchingParts(k, k');
    PushSplit(h, db, after, origins, k, v, k', v', d);
  }

  /** Pushing one more node above two stems. */
  lemma ConnectPush(h: Hasher, db: Store, first: Store, puts: PutStack, origins: Origins,
                    k: Key, v: Values, k': Key, v': Values, d: nat, e: (Node, Bits))
    requires h.CollisionFree() && k != k' && d <= Matching(k, k') && Connects(h, k, v, k', v', d, e)
    requires Regular(k, v) && Regular(k', v')
    requires Grows(db, first) && Grows(first, Apply(db, puts)) && Sound(h, Apply(db, puts), origins)
    requires Resolves(h, first, Stem(k, v), k) && Resolves(h, db, Stem(k', v'), k')
    requires d < Matching(k, k') ==> Tops(h, db, puts, origins, Split(k, v, k', v', d + 1), k[..d + 1])
    ensures var t, puts' := Split(k, v, k', v', d), puts + [Entry(h, e.0)];
            Tops(h, db, puts', origins[Merkelize(h, e.0) := (t, k[..d])], t, k[..d]) && Grows(first, Apply(db, puts'))
  {
    ConnectSaved(h, db, first, Apply(db, puts), origins, k, v, k', v', d);
    MerkelizeNode(h, Split(k, v, k', v', d), k[..d]);
    ApplyMore(db, puts, Entry(h, e.0));
  }

  lemma NilIsEmpty(t: Tree, m: map<Key, Values>)
    requires Denotes(t, m)
    ensures t.Nil? ==> m == map[]
  {
    if t.Nil? {
      assert forall k: Key :: Lookup(t, k, 0) == None;
      assert m.Keys == {};
    }
  }

  // ----- emptying a stem -----

  /** A stack that starts with a stem and goes on with internal nodes. */
  ghost predicate OnStem(h: Hasher, puts: PutStack, k: Key, v: Values) {
    && puts != [] && puts[0] == Entry(h, StemNode(k, v))
    && forall i :: 0 < i < |puts| ==> puts[i].1.InternalNode? && puts[i].0 == Merkelize(h, puts[i].1)
  }

  /** Saving the rest of such a stack saves what the whole does, but for the stem. */
  lemma {:induction false} WithoutStem(h: Hasher, db: Store, puts: PutStack, k: Key, v: Values)
    requires h.CollisionFree() && OnStem(h, puts, k, v) && Regular(k, v)
    ensures Apply(db - {h.stem(k, v)}, puts[1..]) == Apply(db, puts) - {h.stem(k, v)}
    decreases |puts|
  {
    var init := puts[..|puts|-1];
    if |puts| > 1 {
      var n := puts[|puts|-1].1;
      WithoutStem(h, db, init, k, v);
      assert puts[1..][..|puts|-2] == init[1..];
      assert !h.StemIsPair(k, v, HashOfRef(n.left), HashOfRef(n.right));
    } else {
      assert init == [];
    }
  }

  /** The stem, if any, at which a search for a key ends. */
  function Ends(t: Tree, k: Key, i: nat): Option<Key>
    decreases t
  {
    match t
    case Nil => None
    case Stem(k', _) => Some(k')
    case Internal(_, _) => if i < STEM_BITS then Ends(Child(t, k[i]), k, i + 1) else None
  }

  lemma {:induction false} RecordedEnds(t: Tree, k: Key, i: nat)
    ensures Lookup(t, k, i).Some? <==> Ends(t, k, i) == Some(k)
    decreases t
  {
    if t.Internal? && i < STEM_BITS { RecordedEnds(Child(t, k[i]), k, i + 1); }
  }

  /** Without the node of a stem only the searches that end there fail. */
  lemma {:induction false} Unlinked(h: Hasher, db: Store, t: Tree, key: Key, v: Values, k: Key, n: nat)
    requires h.CollisionFree() && Regular(key, v) && n <= STEM_BITS
    requires At(t, k[..n]) && Resolves(h, db, t, k[..n])
    requires Under(key, k[..n]) ==> Lookup(t, key, n) == Some(v)
    ensures Leads(h, db - {h.stem(key, v)}, t, k, n) <==> Ends(t, k, n) != Some(key)
    decreases t
  {
    match t
    case Nil =>
    case Stem(k', v') => assert h.SameStem(key, v, k', v') <==> h.stem(key, v) == h.stem(k', v');
    case Internal(l, r) =>
      assert !h.StemIsPair(key, v, HashOf(h, l), HashOf(h, r));
      NextBits(k, n);
      if Under(key, k[..n] + [k[n]]) { UnderShorter(key, k[..n], k[n]); }
      Unlinked(h, db, Child(t, k[n]), key, v, k, n + 1);
  }

  /** What can be read from a store and a root. */
  ghost predicate Shows(h: Hasher, db: Store, root: Digest, t: Tree, m: map<Key, Values>) {
    root == HashOf(h, t) && Resolves(h, db, t, []) && Denotes(t, m)
  }

  /** The map with the put's values, as far as reading can tell. */
  ghost predicate Updates(m0: map<Key, Values>, m: map<Key, Values>, op: Op)
    requires Proper(op)
  {
    forall k: Key ::
      ValuesIn(m, k) == if k == op.key then Updated(ValuesIn(m0, k), op.suffixes, op.values) else ValuesIn(m0, k)
  }

  /** All values can be read as the put should leave them. */
  ghost predicate Right(h: Hasher, db: Store, root: Digest, m0: map<Key, Values>, op: Op)
    requires Proper(op)
  {
    exists t, m :: Shows(h, db, root, t, m) && Updates(m0, m, op)
  }

  lemma ShowsUpdate(h: Hasher, db: Store, root: Digest, t: Tree, m0: map<Key, Values>, op: Op)
    requires Proper(op) && !Emptied(m0, op) && Shows(h, db, root, t, PutMap(m0, op))
    ensures Right(h, db, root, m0, op)
  {
    forall k: Key ensures ValuesIn(PutMap(m0, op), k) ==
      if k == op.key then Updated(ValuesIn(m0, k), op.suffixes, op.values) else ValuesIn(m0, k)
    {
      PutValues(m0, op, k);
    }
    assert Updates(m0, PutMap(m0, op), op);
  }

  /** A recorded stem is stored. */
  lemma {:induction false} StemStored(h: Hasher, db: Store, t: Tree, p: Bits, k: Key, i: nat)
    requires Resolves(h, db, t, p) && Lookup(t, k, i).Some?
    ensures h.stem(k, Lookup(t, k, i).value) in db
    decreases t
  {
    if t.Internal? {
      StemStored(h, db, Child(t, k[i]), p + [k[i]], k, i + 1);
    }
  }

  lemma ShowsStem(h: Hasher, db: Store, root: Digest, t: Tree, m: map<Key, Values>, t0: Tree, m0: map<Key, Values>,
                  op: Op)
    requires h.CollisionFree() && Proper(op) && Denotes(t0, m0) && op.key in m0
    requires Shows(h, db, root, t, m) && Updates(m0, m, op)
    requires var v := Updated(m0[op.key], op.suffixes, op.values);
             Regular(op.key, v) && (root == HashOf(h, t0) || root == HashOf(h, Insert(t0, op.key, v, 0)))
    ensures h.stem(op.key, Updated(m0[op.key], op.suffixes, op.values)) in db
  {
    var v := Updated(m0[op.key], op.suffixes, op.values);
    assert Under(op.key, []);
    InsertAt(t0, [], op.key, v);
    HashDeterminesTree(h, t, [], t0, []);
    HashDeterminesTree(h, t, [], Insert(t0, op.key, v, 0), []);
    InsertMeaning(t0, [], op.key, v, op.key);
    assert Lookup(t0, op.key, 0).Some? && Lookup(t, op.key, 0).Some?;
    assert op.key in m && ValuesIn(m, op.key) == v;
    StemStored(h, db, t, [], op.key, 0);
  }

  /** Without the stem's node neither root shows the update. */
  lemma ShowsNoUpdate(h: Hasher, db: Store, root: Digest, t0: Tree, m0: map<Key, Values>, op: Op)
    requires h.CollisionFree() && Proper(op) && Denotes(t0, m0) && Emptied(m0, op)
    requires var v := Updated(m0[op.key], op.suffixes, op.values);
             && h.stem(op.key, v) !in db && Regular(op.key, v)
             && (root == HashOf(h, t0) || root == HashOf(h, Insert(t0, op.key, v, 0)))
    ensures !Right(h, db, root, m0, op)
  {
    if Right(h, db, root, m0, op) {
      var t, m :| Shows(h, db, root, t, m) && Updates(m0, m, op);
      ShowsStem(h, db, root, t, m, t0, m0, op);
    }
  }

  lemma NoneHeld(v: Values)
    requires !Holds(v)
    ensures v == NoValues()
  {
    assert forall i :: 0 <= i < NODE_WIDTH ==> v[i] == None;
  }

  /** A stem right below the root. */
  predicate BelowRoot(t: Tree, k: Key) {
    t.Internal? && Child(t, k[0]).Stem?
  }

  lemma FoundBelowRoot(h: Hasher, t: Tree, key: Key, node: Option<Node>, stack: seq<(Node, Bits)>, n: nat)
    requires t.Internal? && Found(h, t, key, node, stack, n) && node.Some?
    ensures |stack| == n > 0 && (n == 1 <==> BelowRoot(t, key))
  {
    assert Sub(t, key, 0) == t && Sub(t, key, 1) == Child(t, key[0]);
    if n > 1 { assert Sub(t, key, 1).Internal?; }
  }

  /** A tree that does not record a stem with these values does not need its node. */
  lemma {:induction false} StillResolves(h: Hasher, db: Store, t: Tree, p: Bits, key: Key, v: Values)
    requires h.CollisionFree() && Regular(key, v) && At(t, p) && Resolves(h, db, t, p)
    requires Under(key, p) ==> Lookup(t, key, |p|) != Some(v)
    ensures Resolves(h, db - {h.stem(key, v)}, t, p)
    decreases t
  {
    match t
    case Nil =>
    case Stem(k', v') => assert !h.SameStem(key, v, k', v');
    case Internal(l, r) =>
      assert !h.StemIsPair(key, v, HashOf(h, l), HashOf(h, r));
      forall b: bool ensures Resolves(h, db - {h.stem(key, v)}, Child(t, b), p + [b]) {
        if Under(key, p + [b]) { UnderShorter(key, p, b); }
        StillResolves(h, db, Child(t, b), p + [b], key, v);
      }
      assert Child(t, false) == l && Child(t, true) == r;
  }

  class BinaryTree {
    const h: Hasher
    var db: Store
    var root: Digest
    ghost var tree: Tree
    ghost var model: map<Key, Values>
    ghost var origins: Origins

    /** The store holds the tree for the recorded map, and nothing but nodes of trees in place. */
    ghost predicate Valid()
      reads this
    {
      Held() && Denotes(tree, model) && root == HashOf(h, tree)
    }

    ghost predicate Held()
      reads this`db, this`tree, this`origins
    {
      h.CollisionFree() && At(tree, []) && Resolves(h, db, tree, []) && Sound(h, db, origins)
    }

    /** A search for this key finds all it needs. */
    ghost predicate Readable(k: Key)
      reads this
    {
      h.CollisionFree() && Denotes(tree, model) && root == HashOf(h, tree) && Leads(h, db, tree, k, 0)
    }

    /** Only the searches that end at this stem fail; all other stems are read as recorded. */
    ghost predicate Detached(key: Key)
      reads this
    {
      forall k: Key :: (Readable(k) <==> Ends(tree, k, 0) != Some(key)) && (k in model && k != key ==> Readable(k))
    }

    /**
      What a put leaves that emptied a stem beside others: nothing has changed if the stem stood
      right below the root and held a value; else all is recorded, but the stem cannot be read.
    */
    ghost predicate Unread(key: Key, below: bool, m0: map<Key, Values>)
      requires key in m0
      reads this
    {
      if below && Holds(m0[key]) then Valid() && model == m0 else Detached(key) && model == m0[key := NoValues()]
    }

    lemma ValidReadable(k: Key)
      requires Valid()
      ensures Readable(k)
    {
      assert k[..0] == [];
      ResolvesLeads(h, db, tree, k, 0);
    }

    constructor (h: Hasher)
      requires h.CollisionFree()
      ensures Valid() && model == map[] && root == 0 && db == map[] && this.h == h
    {
      this.h, db, root := h, map[], 0;
      tree, model, origins := Nil, map[], map[];
    }

    // ----- reading -----

    /**
      The internal nodes on the way to a stem, from the root, then what is found there: the
      stem's own node, another stem's node (which joins the stack), or nothing.
    */
    method FindPath(key: Key) returns (node: Option<Node>, stack: seq<(Node, Bits)>, ghost n: nat)
      requires Readable(key)
      ensures Found(h, tree, key, node, stack, n) && Lookup(Sub(tree, key, n), key, n) == Lookup(tree, key, 0)
      ensures node == if key in model then Some(StemNode(key, model[key])) else None
    {
      node, stack, n := None, [], 0;
      HashIsZero(h, tree, []);
      assert key[..0] == [];
      if root == 0 {
        return;
      }
      var rootNode := db[root];
      stack := [(rootNode, [])];
      if rootNode.StemNode? {
        if rootNode.key == key {
          node := Some(rootNode);
        }
        return;
      }
      StepDown(h, db, tree, key, 0);
      n := 1;
      var child := GetChild(rootNode, key[0]);
      while child.Some?
        invariant 1 <= n == |stack| && OnPath(h, tree, stack, key, n)
        invariant child == RefOf(h, Sub(tree, key, n), key[..n])
        decreases STEM_BITS - n
      {
        Load(h, db, tree, key, n);
        var decoded := db[child.value.hash];
        var matching := Matching(key, child.value.path);
        if decoded.StemNode? {
          Ended(h, db, tree, stack, key, n);
          if matching == |child.value.path| {
            node := Some(decoded);
          } else {
            stack := stack + [(decoded, key[..matching])];
          }
          return;
        }
        StepDown(h, db, tree, key, n);
        PathGrows(h, db, tree, stack, key, n);
        stack := stack + [(decoded, key[..matching])];
        child := GetChild(decoded, key[matching]);
        n := n + 1;
      }
      Ended(h, db, tree, stack, key, n);
    }

    /** The values at some suffixes of a stem; nothing at all when the stem is not there. */
    method Get(key: Key, suffixes: seq<nat>) returns (values: seq<Option<Bytes>>)
      requires Readable(key) && forall i :: 0 <= i < |suffixes| ==> suffixes[i] < NODE_WIDTH
      ensures key !in model ==> values == []
      ensures key in model ==>
                |values| == |suffixes| && forall i :: 0 <= i < |suffixes| ==> values[i] == model[key][suffixes[i]]
    {
      var node, stack;
      ghost var n;
      node, stack, n := FindPath(key);
      values := [];
      if node.Some? {
        assert key in model && node.value == StemNode(key, model[key]);
        for i := 0 to |suffixes|
          invariant |values| == i && forall j :: 0 <= j < i ==> values[j] == model[key][suffixes[j]]
        {
          values := values + [node.value.values[suffixes[i]]];
        }
      }
    }

    // ----- writing -----

    /** Set values one suffix after the other. */
    method SetValues(v: Values, suffixes: seq<nat>, values: seq<Option<Bytes>>) returns (r: Values)
      requires |suffixes| == |values| && forall i :: 0 <= i < |suffixes| ==> suffixes[i] < NODE_WIDTH
      ensures r == Updated(v, suffixes, values)
    {
      r := v;
      for i := 0 to |suffixes|
        invariant r == Updated(v, suffixes[..i], values[..i])
      {
        assert suffixes[..i+1][..i] == suffixes[..i] && values[..i+1][..i] == values[..i];
        r := r[suffixes[i] := values[i]];
      }
      assert suffixes[..|suffixes|] == suffixes && values[..|values|] == values;
    }

    /** New internal nodes above two stems, from where they part up to depth `lowest`. */
    method Connect(k: Key, v: Values, k': Key, v': Values, lowest: nat) returns (nodes: seq<(Node, Bits)>)
      requires k != k' && lowest <= Matching(k, k')
      ensures Connecting(h, k, v, k', v', lowest, nodes)
    {
      ConnectFirst(h, k, v, k', v');
      var m := Matching(k, k');
      var parent := SetChild(SetChild(NO_CHILDREN, k[m], ChildRef(Merkelize(h, StemNode(k, v)), k)),
                             k'[m], ChildRef(Merkelize(h, StemNode(k', v')), k'));
      nodes := [(parent, k[..m])];
      var depth := m;
      while depth > lowest
        invariant lowest <= depth <= m && Connecting(h, k, v, k', v', depth, nodes)
        invariant nodes != [] && parent == nodes[|nodes|-1].0
      {
        ConnectNext(h, k, v, k', v', depth, nodes);
        depth := depth - 1;
        parent := SetChild(NO_CHILDREN, k[depth], ChildRef(Merkelize(h, parent), k[..depth + 1]));
        nodes := nodes + [(parent, k[..depth])];
      }
    }

    // ----- putting -----

    /** Push nodes that connect a new stem to another one. */
    method PushConnecting(puts: PutStack, nodes: seq<(Node, Bits)>, ghost origins: Origins,
                          ghost k: Key, ghost v: Values, ghost k': Key, ghost v': Values, ghost lowest: nat)
      returns (puts': PutStack, ghost origins': Origins)
      requires h.CollisionFree() && k != k' && Connecting(h, k, v, k', v', lowest, nodes)
      requires Regular(k, v) && Regular(k', v')
      requires Grows(db, Apply(db, puts)) && Sound(h, Apply(db, puts), origins)
      requires Resolves(h, Apply(db, puts), Stem(k, v), k) && Resolves(h, db, Stem(k', v'), k')
      ensures Tops(h, db, puts', origins', Split(k, v, k', v', lowest), k[..lowest])
    {
      puts', origins' := puts, origins;
      ghost var m := Matching(k, k');
      for i := 0 to |nodes|
        invariant Sound(h, Apply(db, puts'), origins')
        invariant i > 0 ==> Tops(h, db, puts', origins', Split(k, v, k', v', m - i + 1), k[..m - i + 1])
        invariant Grows(Apply(db, puts), Apply(db, puts'))
      {
        ConnectPush(h, db, Apply(db, puts), puts', origins', k, v, k', v', m - i, nodes[i]);
        puts' := puts' + [Entry(h, nodes[i].0)];
        origins' := origins'[Merkelize(h, nodes[i].0) := (Split(k, v, k', v', m - i), k[..m - i])];
      }
    }

    /** What the last saved subtree must be for the levels above it to be updated. */
    ghost predicate Rising(puts: PutStack, origins': Origins, stack: seq<(Node, Bits)>, key: Key, v: Values, q: nat)
      reads this
    {
      && 1 <= q == |stack| && OnPath(h, tree, stack, key, q)
      && Tops(h, db, puts, origins', Insert(Sub(tree, key, q), key, v, q), key[..q])
    }

    /**
      Put a stem where the search ended: connected with another stem found there, or in the
      internal node that was nearest.
    */
    method UpdateBranch(key: Key, v: Values, stack: seq<(Node, Bits)>, ghost node: Option<Node>, ghost n: nat)
      returns (rest: seq<(Node, Bits)>, puts: PutStack, lastPath: Bits, ghost origins': Origins, ghost q: nat)
      requires Held() && Regular(key, v) && Found(h, tree, key, node, stack, n) && |stack| > 1
      ensures Rising(puts, origins', rest, key, v, q) && lastPath == key[..q]
      ensures Insert(Sub(tree, key, q), key, v, q).Internal?
      ensures stack[|stack|-1].0.InternalNode? ==> OnStem(h, puts, key, v)
    {
      var (nearest, path) := stack[|stack|-1];
      rest := stack[..|stack|-1];
      StartStack(h, db, origins, key, v, key[..n]);
      if nearest.StemNode? {
        puts, lastPath, origins' := JoinStem(key, v, nearest.key, nearest.values, path, rest[|rest|-1].1, n);
        q := n;
      } else {
        puts, origins' := JoinNearest(key, v, nearest, path, n - 1);
        lastPath := path;
        q := n - 1;
      }
    }

    /** Connect a new stem with the one that was found in its place. */
    method JoinStem(key: Key, v: Values, key': Key, v': Values, path: Bits, parentPath: Bits, ghost n: nat)
      returns (puts: PutStack, lastPath: Bits, ghost origins': Origins)
      requires Held() && Regular(key, v) && InternalTo(tree, key, n) && n > 0 && Sub(tree, key, n) == Stem(key', v')
      requires key' != key
      requires path == key[..Matching(key, key')] && parentPath == key[..n - 1]
      ensures lastPath == key[..n] && Insert(Sub(tree, key, n), key, v, n).Internal?
      ensures Tops(h, db, puts, origins', Insert(Sub(tree, key, n), key, v, n), key[..n])
    {
      StartStack(h, db, origins, key, v, key[..n]);
      SubResolves(h, db, tree, key, n);
      MatchAtLeast(key, key', n);
      PrefixMatching(key, n - 1, |path|);
      puts := [Entry(h, StemNode(key, v))];
      assert Resolves(h, db, Stem(key', v'), key');
      var nodes := Connect(key, v, key', v', Matching(path, parentPath) + 1);
      lastPath := nodes[|nodes|-1].1;
      assert Connects(h, key, v, key', v', n, nodes[|nodes|-1]);
      origins' := origins[h.stem(key, v) := (Stem(key, v), key[..n])];
      puts, origins' := PushConnecting(puts, nodes, origins', key, v, key', v', n);
    }

    /** Put a stem in the nearest internal node. */
    method JoinNearest(key: Key, v: Values, nearest: Node, path: Bits, ghost q: nat)
      returns (puts: PutStack, ghost origins': Origins)
      requires Held() && Regular(key, v) && InternalTo(tree, key, q + 1) && path == key[..q]
      requires nearest == NodeOf(h, Sub(tree, key, q), key[..q]) && nearest.InternalNode?
      requires var s := Sub(tree, key, q + 1); s.Nil? || (s.Stem? && s.key == key)
      ensures Insert(Sub(tree, key, q), key, v, q).Internal? && OnStem(h, puts, key, v)
      ensures Tops(h, db, puts, origins', Insert(Sub(tree, key, q), key, v, q), key[..q])
    {
      SubResolves(h, db, tree, key, q);
      NextBits(key, q);
      RaiseStem(h, db, origins, Sub(tree, key, q), key[..q], key, v);
      var stem := StemNode(key, v);
      var updated := SetChild(nearest, key[|path|], ChildRef(Merkelize(h, stem), key));
      puts := [Entry(h, stem), Entry(h, updated)];
      origins' := origins[h.stem(key, v) := (Stem(key, v), key[..q] + [key[q]])]
                         [HashOf(h, Insert(Sub(tree, key, q), key, v, q)) :=
                           (Insert(Sub(tree, key, q), key, v, q), key[..q])];
    }

    /** Update the nodes above, all but the root, for their changed children. */
    method UpdateParents(key: Key, v: Values, stack: seq<(Node, Bits)>, saved: PutStack, updatedPath: Bits,
                         ghost origins0: Origins, ghost from: nat)
      returns (puts: PutStack, lastPath: Bits, ghost origins': Origins)
      requires Held() && Regular(key, v) && Rising(saved, origins0, stack, key, v, from)
      requires updatedPath == key[..from] && Insert(Sub(tree, key, from), key, v, from).Internal?
      ensures Rising(puts, origins', stack[..1], key, v, 1) && (OnStem(h, saved, key, v) ==> OnStem(h, puts, key, v))
      ensures lastPath == key[..1] && Insert(Sub(tree, key, 1), key, v, 1).Internal?
    {
      var rest := stack;
      puts, lastPath, origins' := saved, updatedPath, origins0;
      while |rest| > 1
        invariant 1 <= |rest| <= |stack| && rest == stack[..|rest|]
        invariant Rising(puts, origins', rest, key, v, |rest|) && (OnStem(h, saved, key, v) ==> OnStem(h, puts, key, v))
        invariant lastPath == key[..|rest|] && Insert(Sub(tree, key, |rest|), key, v, |rest|).Internal?
        decreases |rest|
      {
        puts, lastPath, origins' := UpdateParent(key, v, rest, puts, lastPath, origins');
        rest := rest[..|rest|-1];
      }
    }

    method UpdateParent(key: Key, v: Values, stack: seq<(Node, Bits)>, saved: PutStack, updatedPath: Bits,
                        ghost origins0: Origins)
      returns (puts: PutStack, lastPath: Bits, ghost origins': Origins)
      requires Held() && Regular(key, v) && |stack| > 1 && Rising(saved, origins0, stack, key, v, |stack|)
      requires updatedPath == key[..|stack|] && Insert(Sub(tree, key, |stack|), key, v, |stack|).Internal?
      ensures Rising(puts, origins', stack[..|stack|-1], key, v, |stack| - 1) && lastPath == key[..|stack|-1]
      ensures Insert(Sub(tree, key, |stack| - 1), key, v, |stack| - 1).Internal?
      ensures OnStem(h, saved, key, v) ==> OnStem(h, puts, key, v)
    {
      var (node, path) := stack[|stack|-1];
      ghost var j := |stack| - 1;
      PathShrinks(h, tree, stack, key, |stack|);
      SubResolves(h, db, tree, key, j);
      NextBits(key, j);
      RaiseOne(h, db, saved, origins0, Sub(tree, key, j), key[..j], key, v);
      var updated := SetChild(node, updatedPath[|updatedPath|-1], ChildRef(saved[|saved|-1].0, updatedPath));
      puts := saved + [Entry(h, updated)];
      lastPath := path;
      origins' := origins0[HashOf(h, Insert(Sub(tree, key, j), key, v, j)) :=
        (Insert(Sub(tree, key, j), key, v, j), key[..j])];
    }

    /** The new root above the last node that was updated. */
    method UpdateRoot(key: Key, v: Values, rootNode: Node, saved: PutStack, lastPath: Bits, ghost origins0: Origins)
      returns (puts: PutStack, ghost origins': Origins)
      requires Held() && Regular(key, v) && tree.Internal? && InternalTo(tree, key, 1)
      requires rootNode == NodeOf(h, tree, []) && rootNode.InternalNode?
      requires Tops(h, db, saved, origins0, Insert(Sub(tree, key, 1), key, v, 1), key[..1])
      requires Insert(Sub(tree, key, 1), key, v, 1).Internal? ==> lastPath == key[..1]
      requires var c := Insert(Sub(tree, key, 1), key, v, 1); c.Stem? ==> c.key == key
      ensures OnStem(h, saved, key, v) ==> OnStem(h, puts, key, v)
      ensures Tops(h, db, puts, origins', Insert(tree, key, v, 0), [])
    {
      NextBits(key, 0);
      RaiseOne(h, db, saved, origins0, tree, [], key, v);
      var child := saved[|saved|-1].1;
      MerkelizeNode(h, Insert(Sub(tree, key, 1), key, v, 1), key[..1]);
      var updated := SetChild(rootNode, key[0],
        ChildRef(Merkelize(h, child), if child.StemNode? then key else lastPath));
      puts := saved + [Entry(h, updated)];
      origins' := origins0[HashOf(h, Insert(tree, key, v, 0)) := (Insert(tree, key, v, 0), [])];
    }

    /** A root that is a stem: replaced when it is the same stem, else split where the two part. */
    method SplitRoot(key: Key, v: Values, rootNode: Node)
      returns (puts: PutStack, ghost origins': Origins)
      requires Held() && Regular(key, v) && tree.Stem? && rootNode == NodeOf(h, tree, [])
      ensures Tops(h, db, puts, origins', Insert(tree, key, v, 0), [])
    {
      StartStack(h, db, origins, key, v, []);
      puts := [Entry(h, StemNode(key, v))];
      origins' := origins[h.stem(key, v) := (Stem(key, v), [])];
      if rootNode.key != key {
        var nodes := Connect(key, v, rootNode.key, rootNode.values, 0);
        puts, origins' := PushConnecting(puts, nodes, origins', key, v, rootNode.key, rootNode.values, 0);
        assert key[..0] == [];
      }
    }

    /** Save a stack, first entry first. */
    method SaveStack(puts: PutStack)
      modifies this`db
      ensures db == Apply(old(db), puts)
    {
      for i := 0 to |puts|
        invariant db == Apply(old(db), puts[..i])
      {
        assert puts[..i+1][..i] == puts[..i];
        db := db[puts[i].0 := puts[i].1];
      }
      assert puts[..|puts|] == puts;
    }

    /** All nodes to save so that the tree has these values at the stem. */
    method Rebuild(key: Key, v: Values, node: Option<Node>, stack: seq<(Node, Bits)>, ghost n: nat)
      returns (puts: PutStack, ghost origins': Origins)
      requires Held() && Regular(key, v) && Found(h, tree, key, node, stack, n) && !tree.Nil?
      ensures Resolves(h, Apply(db, puts), Insert(tree, key, v, 0), []) && Grows(db, Apply(db, puts))
      ensures Tops(h, db, puts, origins', Insert(tree, key, v, 0), [])
      ensures tree.Internal? && stack[|stack|-1].0.InternalNode? ==> OnStem(h, puts, key, v)
    {
      if |stack| == 0 {
        assert false;
      } else {
        var rootNode := stack[0].0;
        if rootNode.StemNode? {
          puts, origins' := SplitRoot(key, v, rootNode);
        } else {
          assert key[..0] == [];
          var lastPath: Bits := [];
          if |stack| > 1 {
            var rest;
            ghost var q;
            rest, puts, lastPath, origins', q := UpdateBranch(key, v, stack, node, n);
            puts, lastPath, origins' := UpdateParents(key, v, rest, puts, lastPath, origins', q);
          } else {
            SubResolves(h, db, tree, key, 1);
            StartStack(h, db, origins, key, v, key[..1]);
            puts := [Entry(h, StemNode(key, v))];
            origins' := origins[h.stem(key, v) := (Stem(key, v), key[..1])];
          }
          puts, origins' := UpdateRoot(key, v, rootNode, puts, lastPath, origins');
        }
      }
    }

    /**
      A stem that lost its last value, beside others: its node is deleted.  Right below the
      root the put ends there, and is lost unless the stem held nothing before; further down
      the nodes above still refer to it by its hash.
    */
    method RemoveStem(key: Key, v: Values, node: Option<Node>, stack: seq<(Node, Bits)>, ghost n: nat)
      requires Valid() && Regular(key, v) && !Holds(v) && key in model
      requires tree.Internal? && Found(h, tree, key, node, stack, n) && node.Some?
      modifies this
      ensures h.stem(key, v) !in db
      ensures root == HashOf(h, if n == 1 then old(tree) else Insert(old(tree), key, v, 0))
      ensures Unread(key, BelowRoot(old(tree), key), old(model))
    {
      var stem := Merkelize(h, StemNode(key, v));
      var rootNode := stack[0].0;
      assert key[..0] == [];
      NoneHeld(v);
      FoundBelowRoot(h, tree, key, node, stack, n);
      if |stack| > 1 {
        var puts;
        ghost var origins';
        puts, origins' := Rebuild(key, v, node, stack, n);
        root := puts[|puts|-1].0;
        WithoutStem(h, db, puts, key, v);
        ghost var whole := Apply(db, puts);
        db := db - {stem};
        SaveStack(puts[1..]);
        InsertDenotes(tree, model, key, v);
        tree, model := Insert(tree, key, v, 0), model[key := v];
        Unlink(whole, key, v);
        assert Unread(key, false, old(model));
      } else {
        ghost var whole := db;
        db := (db - {stem})[root := rootNode];
        LeaveStem(whole, key, v);
        assert Unread(key, true, old(model));
      }
    }

    /**
      Store values at some suffixes of a stem.  Refused when there are not as many values as
      suffixes, or when what is to be stored has a value that cannot be hashed.  Otherwise the
      tree holds what it held before but for these values if and only if the put does not empty
      a stem beside others; then nothing stored before is lost.
    */
    method Put(op: Op) returns (ok: bool)
      requires Valid() && forall i :: 0 <= i < |op.suffixes| ==> op.suffixes[i] < NODE_WIDTH
      requires Proper(op) ==> Distinguished(model, op)
      modifies this
      ensures ok <==> Proper(op) && Accepted(old(model), op)
      ensures !ok ==> Valid() && model == old(model) && db == old(db) && root == old(root)
      ensures ok && !Emptied(old(model), op) ==> Valid() && model == PutMap(old(model), op) && Grows(old(db), db)
      ensures ok ==> (Right(h, db, root, old(model), op) <==> !Emptied(old(model), op))
      ensures ok && Emptied(old(model), op) ==>
                Unread(op.key, BelowRoot(old(tree), op.key), old(model))
    {
      if |op.values| > 0 && |op.values| != |op.suffixes| {
        return false;
      }
      if |op.values| == 0 && |op.suffixes| > 0 {
        // The missing values are undefined, which cannot be hashed; nothing was saved yet.
        return false;
      }
      if root == 0 {
        ok := CreateInitialNode(op);
        return;
      }
      ok := true;
      ghost var m := model;
      HashIsZero(h, tree, []);
      DenotesSize(tree, m, op.key);
      ValidReadable(op.key);
      var node, stack;
      ghost var n;
      node, stack, n := FindPath(op.key);
      var values := SetValues(if node.Some? then node.value.values else NoValues(), op.suffixes, op.values);
      assert values == Updated(StemValues(tree, op.key), op.suffixes, op.values);
      if !Holds(values) && node.None? {
        PutDenotes(tree, m, op);
        ShowsUpdate(h, db, root, tree, m, op);
        return;
      }
      if !Hashable(values) {
        return false;
      }
      if Holds(values) || stack[0].0.StemNode? {
        Record(op, values, node, stack, n);
      } else {
        Erase(op, values, node, stack, n);
      }
    }

    /** Save the tree with new values at the stem. */
    method Record(op: Op, values: Values, node: Option<Node>, stack: seq<(Node, Bits)>, ghost n: nat)
      requires Valid() && !tree.Nil? && Found(h, tree, op.key, node, stack, n) && Proper(op)
      requires values == Updated(ValuesIn(model, op.key), op.suffixes, op.values)
      requires Accepted(model, op) && Distinct(op.key, values) && (Holds(values) || model.Keys <= {op.key})
      modifies this
      ensures !Emptied(old(model), op) && Valid() && model == PutMap(old(model), op) && Grows(old(db), db)
      ensures Right(h, db, root, old(model), op)
    {
      ghost var m := model;
      DenotesSize(tree, m, op.key);
      PutDenotes(tree, m, op);
      var puts;
      ghost var origins';
      puts, origins' := Rebuild(op.key, values, node, stack, n);
      Adopt(puts, origins', PutTree(tree, op), PutMap(m, op));
      ShowsUpdate(h, db, root, tree, m, op);
    }

    /** Take away a stem that lost its last value beside others. */
    method Erase(op: Op, values: Values, node: Option<Node>, stack: seq<(Node, Bits)>, ghost n: nat)
      requires Valid() && tree.Internal? && Found(h, tree, op.key, node, stack, n) && node.Some? && Proper(op)
      requires op.key in model && values == Updated(model[op.key], op.suffixes, op.values)
      requires Regular(op.key, values) && Emptied(model, op)
      modifies this
      ensures !Right(h, db, root, old(model), op)
      ensures Unread(op.key, BelowRoot(old(tree), op.key), old(model))
    {
      ghost var t, m := tree, model;
      NoneHeld(values);
      RemoveStem(op.key, values, node, stack, n);
      ShowsNoUpdate(h, db, root, t, m, op);
    }

    /** Save the stack and make its top the root. */
    method Adopt(puts: PutStack, ghost origins': Origins, ghost tree': Tree, ghost model': map<Key, Values>)
      requires h.CollisionFree() && Tops(h, db, puts, origins', tree', []) && Denotes(tree', model')
      modifies this
      ensures Valid() && Grows(old(db), db) && model == model'
    {
      root := puts[|puts|-1].0;
      SaveStack(puts);
      tree, model, origins := tree', model', origins';
    }

    /** The first stem is the root. */
    method CreateInitialNode(op: Op) returns (ok: bool)
      requires Valid() && root == 0 && Proper(op) && Distinguished(model, op)
      modifies this
      ensures ok <==> Accepted(old(model), op)
      ensures !ok ==> Valid() && model == old(model) && db == old(db) && root == old(root)
      ensures ok ==> !Emptied(old(model), op) && Valid() && model == PutMap(old(model), op) && Grows(old(db), db)
      ensures ok ==> Right(h, db, root, old(model), op)
    {
      HashIsZero(h, tree, []);
      NilIsEmpty(tree, model);
      var values := SetValues(NoValues(), op.suffixes, op.values);
      if !Hashable(values) {
        return false;
      }
      ok := true;
      ghost var m := model;
      PutDenotes(tree, m, op);
      StartStack(h, db, origins, op.key, values, []);
      Adopt([Entry(h, StemNode(op.key, values))], origins[h.stem(op.key, values) := (Stem(op.key, values), [])],
            PutTree(tree, op), PutMap(m, op));
      ShowsUpdate(h, db, root, tree, m, op);
    }

    /** Without the stem's node, all that the tree needs is stored but for that. */
    ghost method Unlink(whole: Store, key: Key, v: Values)
      requires h.CollisionFree() && Regular(key, v) && Denotes(tree, model) && root == HashOf(h, tree)
      requires Resolves(h, whole, tree, []) && db == whole - {h.stem(key, v)}
      requires key in model && model[key] == v
      ensures Detached(key)
    {
      forall k: Key ensures Readable(k) <==> Ends(tree, k, 0) != Some(key) {
        assert k[..0] == [];
        Unlinked(h, whole, tree, key, v, k, 0);
      }
      forall k: Key | k in model && k != key ensures Readable(k) {
        RecordedEnds(tree, k, 0);
      }
    }

    /** The stem's node is needed only when it was stored without values. */
    ghost method LeaveStem(whole: Store, key: Key, v: Values)
      requires h.CollisionFree() && At(tree, []) && Resolves(h, whole, tree, []) && Sound(h, whole, origins)
      requires Denotes(tree, model) && root == HashOf(h, tree) && tree.Internal?
      requires Regular(key, v) && !Holds(v) && key in model
      requires db == (whole - {h.stem(key, v)})[root := NodeOf(h, tree, [])]
      ensures h.stem(key, v) !in db
      ensures Unread(key, true, model)
    {
      assert !h.StemIsPair(key, v, HashOf(h, tree.left), HashOf(h, tree.right));
      assert db == whole - {h.stem(key, v)};
      if Holds(model[key]) {
        StillResolves(h, whole, tree, [], key, v);
        forall d ensures Genuine(h, db, origins, d) {
          assert Genuine(h, whole, origins, d);
        }
      } else {
        NoneHeld(v);
        NoneHeld(model[key]);
        Unlink(whole, key, v);
        assert model == model[key := v];
      }
    }
  }
}
