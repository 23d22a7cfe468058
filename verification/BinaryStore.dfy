/**
  How the binary tree is kept: nodes by hash, where an internal node's hash covers its
  children's hashes but not the bit paths stored beside them.  Still the hash of a tree in
  place determines the node, paths included.
*/
module BinaryStore {
  import opened Wrappers
  import opened BinaryShape

  type Digest = nat

  /**
    The hash of a stem with its values, and of two hashes.  What can be hashed is told apart;
    only two zeros hash to zero.
  */
  datatype Hasher = Hasher(stem: (Key, Values) -> Digest, pair: (Digest, Digest) -> Digest)
  {
    ghost predicate CollisionFree() {
      && (forall k, v, k', v' {:trigger SameStem(k, v, k', v')} :: SameStem(k, v, k', v') ==> k == k' && v == v')
      && (forall a, b, a', b' {:trigger SamePair(a, b, a', b')} :: SamePair(a, b, a', b') ==> a == a' && b == b')
      && (forall k, v, a, b {:trigger StemIsPair(k, v, a, b)} :: !StemIsPair(k, v, a, b))
      && (forall k, v :: Regular(k, v) ==> stem(k, v) != 0)
      && (forall a, b :: pair(a, b) == 0 ==> a == 0 && b == 0)
    }

    ghost predicate SameStem(k: Key, v: Values, k': Key, v': Values) {
      Regular(k, v) && Regular(k', v') && stem(k, v) == stem(k', v')
    }

    ghost predicate SamePair(a: Digest, b: Digest, a': Digest, b': Digest) {
      pair(a, b) == pair(a', b')
    }

    ghost predicate StemIsPair(k: Key, v: Values, a: Digest, b: Digest) {
      Regular(k, v) && stem(k, v) == pair(a, b)
    }
  }

  datatype ChildRef = ChildRef(hash: Digest, path: Bits)

  datatype Node =
    | StemNode(key: Key, values: Values)
    | InternalNode(left: Option<ChildRef>, right: Option<ChildRef>)

  type Store = map<Digest, Node>

  function HashOfRef(r: Option<ChildRef>): Digest {
    if r.Some? then r.value.hash else 0
  }

  function Merkelize(h: Hasher, n: Node): Digest {
    match n
    case StemNode(k, v) => h.stem(k, v)
    case InternalNode(l, r) => h.pair(HashOfRef(l), HashOfRef(r))
  }

  function GetChild(n: Node, b: bool): Option<ChildRef>
    requires n.InternalNode?
  {
    if b then n.right else n.left
  }

  function SetChild(n: Node, b: bool, r: ChildRef): Node
    requires n.InternalNode?
  {
    if b then InternalNode(n.left, Some(r)) else InternalNode(Some(r), n.right)
  }

  // ----- the nodes of a tree -----

  function HashOf(h: Hasher, t: Tree): Digest {
    match t
    case Nil => 0
    case Stem(k, v) => h.stem(k, v)
    case Internal(l, r) => h.pair(HashOf(h, l), HashOf(h, r))
  }

  /** A stem is referred to by all its bits, an internal node by the bits that lead to it. */
  function RefOf(h: Hasher, t: Tree, p: Bits): Option<ChildRef> {
    match t
    case Nil => None
    case Stem(k, _) => Some(ChildRef(HashOf(h, t), k))
    case Internal(_, _) => Some(ChildRef(HashOf(h, t), p))
  }

  function NodeOf(h: Hasher, t: Tree, p: Bits): Node
    requires !t.Nil?
  {
    match t
    case Stem(k, v) => StemNode(k, v)
    case Internal(l, r) => InternalNode(RefOf(h, l, p + [false]), RefOf(h, r, p + [true]))
  }

  lemma MerkelizeNode(h: Hasher, t: Tree, p: Bits)
    requires !t.Nil?
    ensures Merkelize(h, NodeOf(h, t, p)) == HashOf(h, t)
  {
  }

  /** Every node of the tree is stored under its hash. */
  ghost predicate Resolves(h: Hasher, db: Store, t: Tree, p: Bits)
    decreases t
  {
    t.Nil? || (
      && HashOf(h, t) in db && db[HashOf(h, t)] == NodeOf(h, t, p)
      && (t.Internal? ==> Resolves(h, db, t.left, p + [false]) && Resolves(h, db, t.right, p + [true])))
  }

  ghost predicate Grows(db: Store, db': Store) {
    forall d :: d in db ==> d in db' && db'[d] == db[d]
  }

  lemma {:induction false} ResolvesGrows(h: Hasher, db: Store, db': Store, t: Tree, p: Bits)
    requires Resolves(h, db, t, p) && Grows(db, db')
    ensures Resolves(h, db', t, p)
    decreases t
  {
    if t.Internal? {
      ResolvesGrows(h, db, db', t.left, p + [false]);
      ResolvesGrows(h, db, db', t.right, p + [true]);
    }
  }

  // ----- what a hash determines -----

  lemma HashIsZero(h: Hasher, t: Tree, p: Bits)
    requires h.CollisionFree() && At(t, p)
    ensures HashOf(h, t) == 0 <==> t.Nil?
  {
    if t.Internal? {
      EmptyIsNil(t.left, p + [false]);
      EmptyIsNil(t.right, p + [true]);
      if !t.left.Nil? { HashIsZero(h, t.left, p + [false]); } else { HashIsZero(h, t.right, p + [true]); }
    }
  }

  lemma {:induction false} HashDeterminesTree(h: Hasher, a: Tree, p: Bits, b: Tree, q: Bits)
    requires h.CollisionFree() && At(a, p) && At(b, q)
    ensures HashOf(h, a) == HashOf(h, b) <==> a == b
  {
    HashIsZero(h, a, p);
    HashIsZero(h, b, q);
    match (a, b)
    case (Stem(k, v), Stem(k', v')) => assert h.SameStem(k, v, k', v') <==> HashOf(h, a) == HashOf(h, b);
    case (Internal(l, r), Internal(l', r')) =>
      HashDeterminesTree(h, l, p + [false], l', q + [false]);
      HashDeterminesTree(h, r, p + [true], r', q + [true]);
      assert h.SamePair(HashOf(h, l), HashOf(h, r), HashOf(h, l'), HashOf(h, r')) <==> HashOf(h, a) == HashOf(h, b);
    case (Stem(k, v), Internal(l, r)) =>
      assert h.StemIsPair(k, v, HashOf(h, l), HashOf(h, r)) <==> HashOf(h, a) == HashOf(h, b);
    case (Internal(l, r), Stem(k, v)) =>
      assert h.StemIsPair(k, v, HashOf(h, l), HashOf(h, r)) <==> HashOf(h, a) == HashOf(h, b);
    case _ =>
  }

  /** The hashes beside the way to a key, from depth `i` down. */
  function Siblings(h: Hasher, t: Tree, k: Key, i: nat): seq<Digest>
    decreases t
  {
    if !t.Internal? || i >= STEM_BITS then []
    else [HashOf(h, Child(t, !k[i]))] + Siblings(h, Child(t, k[i]), k, i + 1)
  }

  /** From the hash at the end of the way up: a set bit means that the way comes from the right. */
  function Climbed(h: Hasher, end: Digest, siblings: seq<Digest>, k: Key, i: nat): Digest
    requires i + |siblings| <= STEM_BITS
    decreases |siblings|
  {
    if siblings == [] then end
    else
      var below := Climbed(h, end, siblings[1..], k, i + 1);
      if k[i] then h.pair(siblings[0], below) else h.pair(below, siblings[0])
  }

  /** The root follows from a recorded stem, its values and the hashes beside its way. */
  lemma {:induction false} RootFromStem(h: Hasher, t: Tree, k: Key, i: nat)
    requires i <= STEM_BITS && Lookup(t, k, i).Some?
    ensures var siblings := Siblings(h, t, k, i);
            i + |siblings| <= STEM_BITS && HashOf(h, t) == Climbed(h, h.stem(k, Lookup(t, k, i).value), siblings, k, i)
    decreases t
  {
    if t.Internal? {
      RootFromStem(h, Child(t, k[i]), k, i + 1);
    }
  }

  /** How far below an internal node its stems part, and a stem on each side. */
  function Parting(t: Tree): nat
    requires t.Internal?
  {
    if t.left.Internal? && t.right.Nil? then 1 + Parting(t.left)
    else if t.right.Internal? && t.left.Nil? then 1 + Parting(t.right)
    else 0
  }

  function SomeStem(t: Tree): Option<Key> {
    match t
    case Nil => None
    case Stem(k, _) => Some(k)
    case Internal(l, r) => if SomeStem(l).Some? then SomeStem(l) else SomeStem(r)
  }

  function Sides(t: Tree): (Option<Key>, Option<Key>)
    requires t.Internal?
  {
    if t.left.Internal? && t.right.Nil? then Sides(t.left)
    else if t.right.Internal? && t.left.Nil? then Sides(t.right)
    else (SomeStem(t.left), SomeStem(t.right))
  }

  lemma {:induction false} SomeStemUnder(t: Tree, p: Bits)
    requires At(t, p) && !t.Nil?
    ensures SomeStem(t).Some? && Under(SomeStem(t).value, p)
  {
    if t.Internal? {
      EmptyIsNil(t.left, p + [false]);
      EmptyIsNil(t.right, p + [true]);
      if !t.left.Nil? {
        SomeStemUnder(t.left, p + [false]);
        UnderShorter(SomeStem(t.left).value, p, false);
      } else {
        SomeStemUnder(t.right, p + [true]);
        UnderShorter(SomeStem(t.right).value, p, true);
      }
    }
  }

  /** The two stems agree before the depth where they part, and differ there. */
  lemma {:induction false} PartingDepth(t: Tree, p: Bits)
    requires At(t, p) && t.Internal?
    ensures var (a, b) := Sides(t); var n := |p| + Parting(t);
            && a.Some? && b.Some? && n < STEM_BITS && a.value[..n] == b.value[..n] && a.value[n] != b.value[n]
            && Under(a.value, p)
  {
    EmptyIsNil(t.left, p + [false]);
    EmptyIsNil(t.right, p + [true]);
    var b := t.left.Nil?;
    if Child(t, !b).Nil? {
      PartingDepth(Child(t, b), p + [b]);
      UnderShorter(Sides(t).0.value, p, b);
    } else {
      SomeStemUnder(t.left, p + [false]);
      SomeStemUnder(t.right, p + [true]);
      UnderShorter(SomeStem(t.left).value, p, false);
      UnderShorter(SomeStem(t.right).value, p, true);
    }
  }

  /** An internal node in place can be in place at one path only. */
  lemma OnePlace(t: Tree, p: Bits, q: Bits)
    requires At(t, p) && At(t, q) && t.Internal?
    ensures p == q
  {
    PartingDepth(t, p);
    PartingDepth(t, q);
    var (a, b) := Sides(t);
    MatchingIs(a.value, b.value, |p| + Parting(t));
    MatchingIs(a.value, b.value, |q| + Parting(t));
  }

  /** So the hash of a tree in place determines its node, stored paths included. */
  lemma HashDeterminesNode(h: Hasher, a: Tree, p: Bits, b: Tree, q: Bits)
    requires h.CollisionFree() && At(a, p) && At(b, q) && !a.Nil? && HashOf(h, a) == HashOf(h, b)
    ensures a == b && NodeOf(h, a, p) == NodeOf(h, b, q)
  {
    HashDeterminesTree(h, a, p, b, q);
    if a.Internal? {
      OnePlace(a, p, q);
    }
  }

  /** The path stored with a child is how every stem below that child starts. */
  lemma {:induction false} StoredPathIsPrefix(h: Hasher, t: Tree, p: Bits, k: Key)
    requires At(t, p) && !t.Nil? && Lookup(t, k, |p|).Some? && Under(k, p)
    ensures var path := RefOf(h, t, p).value.path; Under(k, path) && p <= path
    ensures t.Internal? ==>
              var c := GetChild(NodeOf(h, t, p), k[|p|]);
              c.Some? && Under(k, c.value.path) && p + [k[|p|]] <= c.value.path
  {
    assert k[..STEM_BITS] == k;
    if t.Internal? {
      UnderLonger(k, p);
      StoredPathIsPrefix(h, Child(t, k[|p|]), p + [k[|p|]], k);
    }
  }

  /** Equal roots stand for equal maps, and the other way round. */
  lemma RootDeterminesMap(h: Hasher, a: Tree, b: Tree, m: map<Key, Values>, n: map<Key, Values>)
    requires h.CollisionFree() && Denotes(a, m) && Denotes(b, n)
    ensures HashOf(h, a) == HashOf(h, b) <==> m == n
  {
    HashDeterminesTree(h, a, [], b, []);
    if m == n {
      OneTreeForEachMap(a, b, []);
    }
    if a == b {
      OneMapForEachTree(a, m, n);
    }
  }

  // ----- adding nodes to a store -----

  /** Where the nodes of a store come from. */
  type Origins = map<Digest, (Tree, Bits)>

  ghost predicate Genuine(h: Hasher, db: Store, origins: Origins, d: Digest) {
    d in db ==>
      && d in origins && At(origins[d].0, origins[d].1) && !origins[d].0.Nil?
      && d == HashOf(h, origins[d].0) && db[d] == NodeOf(h, origins[d].0, origins[d].1)
  }

  ghost predicate Sound(h: Hasher, db: Store, origins: Origins) {
    forall d {:trigger Genuine(h, db, origins, d)} :: Genuine(h, db, origins, d)
  }

  /** Storing the node of a tree in place overwrites nothing else. */
  lemma SaveNode(h: Hasher, db: Store, origins: Origins, t: Tree, p: Bits)
    requires h.CollisionFree() && Sound(h, db, origins) && At(t, p) && !t.Nil?
    ensures var d := HashOf(h, t);
            Grows(db, db[d := NodeOf(h, t, p)]) && Sound(h, db[d := NodeOf(h, t, p)], origins[d := (t, p)])
  {
    var d := HashOf(h, t);
    var db', origins' := db[d := NodeOf(h, t, p)], origins[d := (t, p)];
    assert Genuine(h, db, origins, d);
    if d in db {
      HashDeterminesNode(h, t, p, origins[d].0, origins[d].1);
    }
    forall e ensures Genuine(h, db', origins', e) {
      assert Genuine(h, db, origins, e);
    }
  }
}
