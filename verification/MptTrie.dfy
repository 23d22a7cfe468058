/**
  The trie object: a root hash, a node store that only grows, and the operations that
  walk a stack of nodes down to a key and rewire it upwards.  Each operation is proved
  against the recursive form of MptTree and MptDeletion.  A place where the original
  throws an internal error is an `assert false`: the proof that it is never reached.
*/
module MptTrie {
  import opened Wrappers
  import opened MptTree
  import opened MptDeletion
  import opened MptCanonical
  import opened MptNibbles
  import opened MptStore
  import MptHistory

  /** The node holds what the frame says, whatever the slot on the path refers to. */
  ghost predicate FitsFrame(c: Codec, n: Node, f: Frame)
    requires FrameShaped(f)
  {
    match f
    case Along(k) => n.ExtensionNode? && n.key == k
    case Slot(ch, v, i) =>
      n.BranchNode? && |n.branches| == 16 && n.bvalue == v &&
      forall j :: 0 <= j < 16 && j != i ==> n.branches[j] == RefOf(c, ch[j])
  }

  ghost predicate StackFits(c: Codec, stack: seq<Node>, fs: seq<Frame>)
    requires Framed(fs)
  {
    |stack| == |fs| && forall i :: 0 <= i < |fs| ==> FitsFrame(c, stack[i], fs[i])
  }

  ghost predicate FrameResolves(c: Codec, db: Store, f: Frame)
    requires FrameShaped(f)
  {
    f.Slot? ==> forall j :: 0 <= j < 16 && j != f.index ==> Resolves(c, db, f.children[j])
  }

  ghost predicate FramesResolve(c: Codec, db: Store, fs: seq<Frame>)
    requires Framed(fs)
  {
    forall i :: 0 <= i < |fs| ==> FrameResolves(c, db, fs[i])
  }

  lemma FramesResolveGrows(c: Codec, db: Store, db': Store, fs: seq<Frame>)
    requires Framed(fs) && FramesResolve(c, db, fs) && Grows(db, db')
    ensures FramesResolve(c, db', fs)
  {
    forall i, j | 0 <= i < |fs| && fs[i].Slot? && 0 <= j < 16 && j != fs[i].index
      ensures Resolves(c, db', fs[i].children[j])
    {
      assert FrameResolves(c, db, fs[i]);
      ResolvesGrows(c, db, db', fs[i].children[j]);
    }
  }

  /** Pointing a node's slot at a subtree makes it the node of the filled frame. */
  lemma Rewired(c: Codec, n: Node, f: Frame, t: Tree)
    requires FrameShaped(f) && FitsFrame(c, n, f)
    requires Shaped(t) && !t.Empty? && (f.Along? ==> t.Branch?)
    ensures Shaped(FillOne(f, t))
    ensures NodeOf(c, FillOne(f, t)) ==
            if n.ExtensionNode? then n.(child := RefOf(c, t)) else n.(branches := n.branches[f.index := RefOf(c, t)])
  {
    FillOneShaped(f, t);
    if f.Slot? {
      assert NodeOf(c, FillOne(f, t)).branches == n.branches[f.index := RefOf(c, t)];
    }
  }

  lemma RewiredResolves(c: Codec, db: Store, f: Frame, t: Tree)
    requires Shaped(t) && !t.Empty? && (f.Along? ==> t.Branch?)
    requires FrameShaped(f) && FrameResolves(c, db, f) && Resolves(c, db, t)
    ensures Shaped(FillOne(f, t)) && ChildrenResolve(c, db, FillOne(f, t))
  {
    FillOneShaped(f, t);
  }

  ghost predicate StepsTo(t: Tree, f: Frame, below: Tree)
    requires FrameShaped(f)
  {
    match f
    case Along(k) => t == Extension(k, below)
    case Slot(ch, v, i) => t == Branch(ch, v) && below == ch[i]
  }

  /** A step from a node splits it into a frame and what is below. */
  lemma StepNode(c: Codec, db: Store, t: Tree, f: Frame, below: Tree)
    requires FrameShaped(f) && Shaped(t) && Shaped(below) && !below.Empty? && StepsTo(t, f, below)
    requires ChildrenResolve(c, db, t)
    ensures FillOne(f, below) == t && FitsFrame(c, NodeOf(c, t), f) && FrameResolves(c, db, f)
    ensures Resolves(c, db, below) && (f.Along? ==> below.Branch?)
  {
    if f.Slot? { assert f.children[f.index := below] == f.children; }
  }

  /** The frames lead from the top of a trie to `focus`, along a key without `rest`. */
  ghost predicate OnWay(t: Tree, fs: seq<Frame>, focus: Tree, rest: Key, key: Key) {
    Framed(fs) && HoleFits(fs, focus) && Fill(fs, focus) == t && key == PathOf(fs) + rest
  }

  /** The stack holds the nodes of the frames and of what is below them. */
  ghost predicate Stacked(c: Codec, db: Store, stack: seq<Node>, fs: seq<Frame>, focus: Tree)
    requires Framed(fs) && HoleFits(fs, focus)
  {
    && |stack| == |fs| + 1 && StackFits(c, stack[..|fs|], fs) && stack[|fs|] == NodeOf(c, focus)
    && ChildrenResolve(c, db, focus) && FramesResolve(c, db, fs)
  }

  lemma Assoc<T>(a: seq<T>, b: seq<T>, c: seq<T>)
    ensures (a + b) + c == a + (b + c)
  {
  }

  lemma OneWayDown(t: Tree, fs: seq<Frame>, focus: Tree, rest: Key, key: Key, f: Frame, below: Tree)
    requires OnWay(t, fs, focus, rest, key) && FrameShaped(f) && FrameKey(f) <= rest
    requires Shaped(below) && !below.Empty? && StepsTo(focus, f, below)
    ensures OnWay(t, fs + [f], below, rest[|FrameKey(f)|..], key)
  {
    assert FillOne(f, below) == focus by {
      if f.Slot? { assert f.children[f.index := below] == f.children; }
    }
    assert Framed(fs + [f]) by {
      assert forall i :: 0 <= i < |fs| ==> (fs + [f])[i] == fs[i];
    }
    FillPush(fs, f, below);
    var k := FrameKey(f);
    assert rest == k + rest[|k|..];
    Assoc(PathOf(fs), k, rest[|k|..]);
  }

  lemma OneStackDown(c: Codec, db: Store, stack: seq<Node>, fs: seq<Frame>, focus: Tree, f: Frame, below: Tree)
    requires Framed(fs) && HoleFits(fs, focus) && Stacked(c, db, stack, fs, focus)
    requires Framed(fs + [f]) && HoleFits(fs + [f], below) && FrameShaped(f) && StepsTo(focus, f, below)
    ensures Stacked(c, db, stack + [NodeOf(c, below)], fs + [f], below)
  {
    StepNode(c, db, focus, f, below);
    var stack', fs' := stack + [NodeOf(c, below)], fs + [f];
    assert stack'[..|fs'|] == stack;
    forall i | 0 <= i < |fs'| ensures FitsFrame(c, stack[i], fs'[i]) && FrameResolves(c, db, fs'[i]) {
      if i < |fs| { assert fs'[i] == fs[i] && stack[..|fs|][i] == stack[i]; }
    }
  }

  /** The part of the path a node consumes itself. */
  ghost function OwnKey(t: Tree): Key
  {
    if t.Leaf? || t.Extension? then t.key else []
  }

  /** Where the walk towards a key ends. */
  ghost predicate Stuck(t: Tree, rest: Key)
    requires Shaped(t)
  {
    match t
    case Empty => false
    case Leaf(_, _) => true
    case Extension(k, _) => !(k <= rest)
    case Branch(ch, _) => rest == [] || ch[rest[0]].Empty?
  }

  /** The walk ended at the node of the key itself. */
  ghost predicate Ends(t: Tree, rest: Key)
  {
    (t.Leaf? && t.key == rest) || (t.Branch? && rest == [])
  }

  lemma StuckLookup(t: Tree, rest: Key)
    requires Shaped(t) && Stuck(t, rest)
    ensures Lookup(t, rest) ==
            if !Ends(t, rest) then None else if t.Leaf? then Some(t.value) else t.bvalue
  {
  }

  lemma {:induction false} StuckRemove(t: Tree, rest: Key)
    requires Shaped(t) && Stuck(t, rest) && !Ends(t, rest)
    ensures Remove(t, rest) == t
  {
  }

  class Trie {
    const codec: Codec
    var db: Store
    var root: Digest
    /** The operations since the trie was empty that lead to the present root. */
    ghost var log: seq<Op>
    /** Every root ever produced, with the history that produced it. */
    ghost var archive: map<Digest, seq<Op>>

    ghost predicate Valid()
      reads this
    {
      && codec.CollisionFree()
      && ContentAddressed(codec, db)
      && root in archive && archive[root] == log
      && (forall r :: r in archive ==> Produced(db, r, archive[r]))
    }

    /** The root stands for the trie that `ops` builds, and all of it can be looked up. */
    ghost predicate Produced(store: Store, r: Digest, ops: seq<Op>)
    {
      r == RootOf(codec, Run(ops)) && RootResolves(codec, store, Run(ops))
    }

    /** A node stack for the way to `focus`, which is reached by `key` without `rest`. */
    ghost predicate At(stack: seq<Node>, fs: seq<Frame>, focus: Tree, rest: Key, key: Key)
      reads this
    {
      OnWay(Run(log), fs, focus, rest, key) && Stacked(codec, db, stack, fs, focus)
    }

    constructor (c: Codec)
      requires c.CollisionFree()
      ensures Valid() && codec == c && log == [] && root == c.emptyRoot
      ensures archive == map[root := []]
    {
      codec := c;
      db := map[];
      root := c.emptyRoot;
      log := [];
      archive := map[c.emptyRoot := []];
    }

    method LookupNode(ref: Ref, ghost t: Tree) returns (n: Node)
      requires Shaped(t) && !t.Empty? && ref == RefOf(codec, t) && Resolves(codec, db, t)
      ensures n == NodeOf(codec, t)
    {
      match ref
      case Raw(m) => n := m;
      case Hash(d) => n := db[d];
    }

    /** Whether the nibbles of `k` follow in `key` from `start`. */
    method FollowsKey(k: Key, key: Key, start: nat) returns (ok: bool)
      requires start <= |key|
      ensures ok <==> k <= key[start..]
    {
      var progress := start;
      for i := 0 to |k|
        invariant progress == start + i <= |key|
        invariant k[..i] == key[start..progress]
      {
        if progress == |key| {
          return false;
        }
        if k[i] != key[progress] {
          assert key[start..][i] == key[progress];
          return false;
        }
        assert k[..i+1] == k[..i] + [k[i]] && key[start..progress+1] == key[start..progress] + [key[progress]];
        progress := progress + 1;
      }
      assert k[..|k|] == k;
      return true;
    }

    method FindPath(key: Key)
      returns (found: Option<Node>, remaining: Key, stack: seq<Node>,
               ghost fs: seq<Frame>, ghost focus: Tree, ghost rest: Key)
      requires Valid()
      ensures Run(log).Empty? ==> found.None? && remaining == [] && stack == []
      ensures !Run(log).Empty? ==> At(stack, fs, focus, rest, key) && Stuck(focus, rest)
      ensures !Run(log).Empty? ==> remaining == if found.Some? then [] else rest
      ensures !Run(log).Empty? ==> found == if Ends(focus, rest) then Some(NodeOf(codec, focus)) else None
    {
      assert Produced(db, root, archive[root]);
      if root !in db {
        return None, [], [], [], Run(log), key;
      }
      assert codec.digest(db[root]) == root;
      found, remaining, stack, fs, focus, rest := WalkFrom(db[root], key);
    }

    method WalkFrom(top: Node, key: Key)
      returns (found: Option<Node>, remaining: Key, stack: seq<Node>,
               ghost fs: seq<Frame>, ghost focus: Tree, ghost rest: Key)
      requires At([top], [], Run(log), key, key)
      ensures At(stack, fs, focus, rest, key) && Stuck(focus, rest)
      ensures remaining == if found.Some? then [] else rest
      ensures found == if Ends(focus, rest) then Some(NodeOf(codec, focus)) else None
    {
      stack, fs, rest, focus := [], [], key, Run(log);
      var node := top;
      var progress := 0;
      assert key[0..] == key && [] + [top] == [top];
      while true
        invariant progress <= |key| && rest == key[progress..]
        invariant At(stack + [node], fs, focus, rest, key)
        decreases focus
      {
        assert stack == (stack + [node])[..|fs|];
        stack := stack + [node];
        match node {
          case BranchNode(_, _) =>
            if progress == |key| {
              return Some(node), [], stack, fs, focus, rest;
            }
            var i := key[progress];
            var ref := node.branches[i];
            if ref.Null? {
              return None, key[progress..], stack, fs, focus, rest;
            }
            node := StepDown(ref, stack, fs, focus, rest, key, Slot(focus.children, focus.bvalue, i),
              focus.children[i]);
            fs, focus := fs + [Slot(focus.children, focus.bvalue, i)], focus.children[i];
            progress := progress + 1;
            rest := key[progress..];
          case LeafNode(k, _) =>
            if |key| - progress > |k| {
              return None, key[progress..], stack, fs, focus, rest;
            }
            var ok := FollowsKey(k, key, progress);
            if !ok {
              return None, key[progress..], stack, fs, focus, rest;
            }
            return Some(node), [], stack, fs, focus, rest;
          case ExtensionNode(k, ref) =>
            var ok := FollowsKey(k, key, progress);
            if !ok {
              return None, key[progress..], stack, fs, focus, rest;
            }
            node := StepDown(ref, stack, fs, focus, rest, key, Along(k), focus.child);
            fs, focus := fs + [Along(k)], focus.child;
            progress := progress + |k|;
            rest := key[progress..];
        }
      }
    }

    /** Look up the next node on the way. */
    method StepDown(ref: Ref, ghost stack: seq<Node>, ghost fs: seq<Frame>, ghost focus: Tree, ghost rest: Key,
                    ghost key: Key, ghost f: Frame, ghost below: Tree)
      returns (node: Node)
      requires At(stack, fs, focus, rest, key)
      requires FrameShaped(f) && FrameKey(f) <= rest && Shaped(below) && !below.Empty?
      requires StepsTo(focus, f, below) && ref == RefOf(codec, below)
      ensures At(stack + [node], fs + [f], below, rest[|FrameKey(f)|..], key)
    {
      StepNode(codec, db, focus, f, below);
      Descend(stack, fs, focus, rest, key, f, below);
      node := LookupNode(ref, below);
    }

    /** One step down keeps the stack and the frames in line. */
    lemma Descend(stack: seq<Node>, fs: seq<Frame>, focus: Tree, rest: Key, key: Key, f: Frame, below: Tree)
      requires At(stack, fs, focus, rest, key)
      requires FrameShaped(f) && FrameKey(f) <= rest && Shaped(below) && !below.Empty?
      requires StepsTo(focus, f, below)
      ensures At(stack + [NodeOf(codec, below)], fs + [f], below, rest[|FrameKey(f)|..], key)
    {
      OneWayDown(Run(log), fs, focus, rest, key, f, below);
      OneStackDown(codec, db, stack, fs, focus, f, below);
    }

    /** Over prefix-free keys a history of byte operations leaves what a plain map holds. */
    lemma PlainLookups(keyBytes: Bytes)
      ensures forall ops, keys ::
              log == MptHistory.OpsOf(ops) && MptHistory.PrefixFree(keys) && MptHistory.KeysIn(ops, keys) ==>
                Lookup(Run(log), Nibbles(keyBytes)) == MptHistory.Plainly(ops, keyBytes)
    {
      forall ops, keys | log == MptHistory.OpsOf(ops) && MptHistory.PrefixFree(keys) && MptHistory.KeysIn(ops, keys)
        ensures Lookup(Run(log), Nibbles(keyBytes)) == MptHistory.Plainly(ops, keyBytes)
      {
        MptHistory.GetIsPlainMap(ops, keys, keyBytes);
      }
    }

    /** The value stored at a key, or none; what a plain map would return, as long as no key begins another. */
    method Get(keyBytes: Bytes) returns (value: Option<Value>)
      requires Valid()
      ensures value == Lookup(Run(log), Nibbles(keyBytes))
      ensures forall ops, keys ::
              log == MptHistory.OpsOf(ops) && MptHistory.PrefixFree(keys) && MptHistory.KeysIn(ops, keys) ==>
                value == MptHistory.Plainly(ops, keyBytes)
    {
      PlainLookups(keyBytes);
      var key := BytesToNibbles(keyBytes);
      var found, remaining, stack, fs, focus, rest := FindPath(key);
      if !Run(log).Empty? {
        LookupFill(fs, focus, rest);
        StuckLookup(focus, rest);
      }
      if found.Some? && remaining == [] {
        match found.value {
          case LeafNode(_, v) => return Some(v);
          case BranchNode(_, v) => return v;
          case ExtensionNode(_, _) => assert false; return None;
        }
      }
      return None;
    }

    // ----- saving -----

    /** What is already in the store, and what the pending writes will add to it. */
    ghost predicate Pending(ops: seq<PutOp>)
      reads this
    {
      codec.CollisionFree() && ContentAddressed(codec, db) && Honest(codec, ops)
    }

    /** Hash and schedule a node of 32 bytes or more, or the top node; keep others inline. */
    method FormatNode(node: Node, topLevel: bool, ops: seq<PutOp>) returns (ref: Ref, ops': seq<PutOp>)
      requires Pending(ops)
      ensures Pending(ops') && Grows(Batch(db, ops), Batch(db, ops'))
      ensures ref == if codec.size(node) >= 32 || topLevel then Hash(codec.digest(node)) else Raw(node)
      ensures ref.Hash? ==> Kept(codec, Batch(db, ops'), node)
      ensures ops' == ops || ops' == ops + [PutOp(codec.digest(node), node)]
    {
      if codec.size(node) >= 32 || topLevel {
        BatchPush(codec, db, ops, node);
        return Hash(codec.digest(node)), ops + [PutOp(codec.digest(node), node)];
      }
      return Raw(node), ops;
    }

    /** One round of saveStack: point the node at its child, cut its key off the path, format it. */
    method SaveNode(node0: Node, path0: Key, childHash: Option<Ref>, topLevel: bool, ops: seq<PutOp>,
                    ghost next: Tree, ghost above: Key)
      returns (path: Key, ref: Ref, ops': seq<PutOp>)
      requires Pending(ops) && Shaped(next) && !next.Empty?
      requires Rounds(node0, path0, childHash, NodeOf(codec, next), above)
      ensures path == above
      ensures Pending(ops') && Grows(Batch(db, ops), Batch(db, ops'))
      ensures var node := NodeOf(codec, next);
              && ref == (if codec.size(node) >= 32 || topLevel then Hash(codec.digest(node)) else Raw(node))
              && (ref.Hash? ==> Kept(codec, Batch(db, ops'), node))
    {
      var node := node0;
      path := path0;
      if node.LeafNode? || node.ExtensionNode? {
        path := path[..|path| - |node.key|];
      }
      if node.ExtensionNode? && childHash.Some? {
        node := node.(child := childHash.value);
      }
      if node.BranchNode? && childHash.Some? {
        var branchIndex := path[|path|-1];
        path := path[..|path|-1];
        node := node.(branches := node.branches[branchIndex := childHash.value]);
      }
      ref, ops' := FormatNode(node, topLevel, ops);
    }

    /**
      Rewire the stack from its last node to its first and make the result the root.  The
      frames say what each node above the last holds apart from the slot on the path.
    */
    method SaveStack(path0: Key, stack0: seq<Node>, ops0: seq<PutOp>, ghost fs: seq<Frame>, ghost bottom: Tree)
      requires Pending(ops0) && Framed(fs) && HoleFits(fs, bottom)
      requires |stack0| == |fs| + 1 && StackFits(codec, stack0[..|fs|], fs) && stack0[|fs|] == NodeOf(codec, bottom)
      requires path0 == PathOf(fs) + OwnKey(bottom)
      requires ChildrenResolve(codec, Batch(db, ops0), bottom) && FramesResolve(codec, Batch(db, ops0), fs)
      modifies this`db, this`root
      ensures HoleFits([], Fill(fs, bottom))
      ensures root == RootOf(codec, Fill(fs, bottom)) && RootResolves(codec, db, Fill(fs, bottom))
      ensures Grows(old(db), db) && ContentAddressed(codec, db)
    {
      FillShaped(fs, bottom);
      var path, stack, ops := path0, stack0, ops0;
      var childHash: Option<Ref> := None;
      ghost var cur := bottom;
      assert fs[..|fs|] == fs;
      while |stack| > 0
        invariant db == old(db)
        invariant Saving(stack, path, childHash, ops0, ops, fs, cur, bottom)
        decreases |stack|
      {
        var ref, ops';
        ghost var next;
        path, ref, ops', next := SaveRound(stack, path, childHash, ops0, ops, fs, cur, bottom);
        stack := stack[..|stack|-1];
        childHash, ops, cur := Some(ref), ops', next;
      }
      assert fs[..0] == [];
      BatchGrows(codec, db, ops);
      root := childHash.value.digest;
      db := Batch(db, ops);
    }

    /** The last node of the stack is saved with the reference to what was saved below it. */
    method SaveRound(stack: seq<Node>, path0: Key, childHash: Option<Ref>, ghost ops0: seq<PutOp>, ops: seq<PutOp>,
                     ghost fs: seq<Frame>, ghost cur: Tree, ghost bottom: Tree)
      returns (path: Key, ref: Ref, ops': seq<PutOp>, ghost next: Tree)
      requires Framed(fs) && stack != [] && Saving(stack, path0, childHash, ops0, ops, fs, cur, bottom)
      ensures Saving(stack[..|stack|-1], path, Some(ref), ops0, ops', fs, next, bottom)
    {
      next := if childHash.None? then cur else FillOne(fs[|stack|-1], cur);
      LastNode(stack, path0, childHash, ops, fs, cur, next);
      var rest := stack[..|stack|-1];
      path, ref, ops' := SaveNode(stack[|stack|-1], path0, childHash, |rest| == 0, ops, next, PathOf(fs[..|rest|]));
      Formatted(rest, path, ref, ops0, ops, ops', fs, next);
    }

    /** What holds between the rounds. */
    ghost predicate Saving(stack: seq<Node>, path: Key, childHash: Option<Ref>, ops0: seq<PutOp>, ops: seq<PutOp>,
                           fs: seq<Frame>, cur: Tree, bottom: Tree)
      requires Framed(fs)
      reads this
    {
      && Pending(ops) && Grows(Batch(db, ops0), Batch(db, ops)) && FramesResolve(codec, Batch(db, ops), fs)
      && if childHash.None? then Unsaved(stack, path, ops, fs, cur) && cur == bottom
         else Wired(stack, path, childHash.value, ops, fs, cur) && Fill(fs[..|stack|], cur) == Fill(fs, bottom)
    }

    /** Nothing saved yet: the last node of the stack is the node of `bottom`. */
    ghost predicate Unsaved(stack: seq<Node>, path: Key, ops: seq<PutOp>, fs: seq<Frame>, bottom: Tree)
      requires Framed(fs)
      reads this
    {
      && HoleFits(fs, bottom) && |stack| == |fs| + 1 && StackFits(codec, stack[..|fs|], fs)
      && stack[|fs|] == NodeOf(codec, bottom) && path == PathOf(fs) + OwnKey(bottom)
      && ChildrenResolve(codec, Batch(db, ops), bottom)
    }

    /** What one round of the loop makes of the last node and of the path. */
    ghost predicate Rounds(node: Node, path: Key, child: Option<Ref>, node': Node, path': Key)
    {
      && |OwnNodeKey(node)| <= |path|
      && var p := path[..|path| - |OwnNodeKey(node)|];
      match node
      case LeafNode(_, _) => node' == node && path' == p
      case ExtensionNode(_, _) => node' == (if child.Some? then node.(child := child.value) else node) && path' == p
      case BranchNode(bs, _) =>
        if child.None? then node' == node && path' == p
        else
          && p != [] && p[|p|-1] < |bs| && path' == p[..|p|-1]
          && node' == node.(branches := bs[p[|p|-1] := child.value])
    }

    ghost function OwnNodeKey(n: Node): Key
    {
      if n.BranchNode? then [] else n.key
    }

    lemma LastNode(stack: seq<Node>, path: Key, child: Option<Ref>, ops: seq<PutOp>, fs: seq<Frame>, cur: Tree,
                   next: Tree)
      requires Framed(fs) && stack != [] && FramesResolve(codec, Batch(db, ops), fs)
      requires if child.None? then Unsaved(stack, path, ops, fs, cur) else Wired(stack, path, child.value, ops, fs, cur)
      requires next == if child.None? then cur else FillOne(fs[|stack|-1], cur)
      ensures var n := |stack| - 1;
              && n <= |fs| && HoleFits(fs[..n], next) && StackFits(codec, stack[..n], fs[..n])
              && (child.None? ==> fs[..n] == fs)
              && (child.Some? ==> n < |fs| && Fill(fs[..n], next) == Fill(fs[..n+1], cur))
              && ChildrenResolve(codec, Batch(db, ops), next)
              && Rounds(stack[n], path, child, NodeOf(codec, next), PathOf(fs[..n]))
    {
      var n := |stack| - 1;
      if child.None? {
        assert fs[..n] == fs;
        assert path[..|path| - |OwnKey(cur)|] == PathOf(fs);
      } else {
        WireStep(stack, path, child.value, ops, fs, cur);
        var p := PathOf(fs[..n]);
        assert path[..|path| - |FrameKey(fs[n])|] == p;
        assert path[..|path| - 0] == path;
      }
    }

    lemma Formatted(stack: seq<Node>, path: Key, ref: Ref, ops0: seq<PutOp>, ops: seq<PutOp>, ops': seq<PutOp>,
                    fs: seq<Frame>, cur: Tree)
      requires Framed(fs) && |stack| <= |fs| && HoleFits(fs[..|stack|], cur) && StackFits(codec, stack, fs[..|stack|])
      requires path == PathOf(fs[..|stack|])
      requires ChildrenResolve(codec, Batch(db, ops), cur) && FramesResolve(codec, Batch(db, ops), fs)
      requires Grows(Batch(db, ops0), Batch(db, ops)) && Grows(Batch(db, ops), Batch(db, ops'))
      requires var node := NodeOf(codec, cur);
               && ref == (if codec.size(node) >= 32 || stack == [] then Hash(codec.digest(node)) else Raw(node))
               && (ref.Hash? ==> Kept(codec, Batch(db, ops'), node))
      ensures Wired(stack, path, ref, ops', fs, cur) && FramesResolve(codec, Batch(db, ops'), fs)
      ensures Grows(Batch(db, ops0), Batch(db, ops'))
    {
      ResolvesGrows(codec, Batch(db, ops), Batch(db, ops'), cur);
      FramesResolveGrows(codec, Batch(db, ops), Batch(db, ops'), fs);
    }

    lemma WireStep(stack: seq<Node>, path: Key, ref: Ref, ops: seq<PutOp>, fs: seq<Frame>, cur: Tree)
      requires Framed(fs) && Wired(stack, path, ref, ops, fs, cur) && stack != []
      requires FramesResolve(codec, Batch(db, ops), fs)
      ensures var n := |stack| - 1;
              var f := fs[n];
              && HoleFits(fs[..n], FillOne(f, cur)) && Fill(fs[..n], FillOne(f, cur)) == Fill(fs[..n+1], cur)
              && StackFits(codec, stack[..n], fs[..n])
              && path == PathOf(fs[..n]) + FrameKey(f) && FitsFrame(codec, stack[n], f)
              && ChildrenResolve(codec, Batch(db, ops), FillOne(f, cur))
              && NodeOf(codec, FillOne(f, cur)) ==
                 if stack[n].ExtensionNode? then stack[n].(child := ref)
                 else stack[n].(branches := stack[n].branches[f.index := ref])
    {
      var n := |stack| - 1;
      var f := fs[n];
      assert fs[..n+1][..n] == fs[..n];
      assert fs[..n+1][n] == f;
      assert FitsFrame(codec, stack[n], f);
      assert FrameResolves(codec, Batch(db, ops), f);
      Rewired(codec, stack[n], f, cur);
      RewiredResolves(codec, Batch(db, ops), f, cur);
    }

    ghost predicate Wired(stack: seq<Node>, path: Key, ref: Ref, ops: seq<PutOp>, fs: seq<Frame>, cur: Tree)
      requires Framed(fs)
      reads this
    {
      var n := |stack|;
      && n <= |fs| && StackFits(codec, stack, fs[..n]) && HoleFits(fs[..n], cur)
      && path == PathOf(fs[..n])
      && (if n == 0 then ref == Hash(codec.digest(NodeOf(codec, cur))) && RootResolves(codec, Batch(db, ops), cur)
          else ref == RefOf(codec, cur) && Resolves(codec, Batch(db, ops), cur))
    }

    // ----- put -----

    /** Sum of the nibbles the stack nodes consume. */
    method StackOffset(stack: seq<Node>, ghost fs: seq<Frame>) returns (offset: nat)
      requires Framed(fs) && StackFits(codec, stack, fs)
      ensures offset == |PathOf(fs)|
    {
      offset := 0;
      for i := 0 to |stack|
        invariant offset == |PathOf(fs[..i])|
      {
        assert fs[..i+1][..i] == fs[..i];
        assert FitsFrame(codec, stack[i], fs[i]);
        offset := offset + (if stack[i].BranchNode? then 1 else |stack[i].key|);
      }
      assert fs[..|fs|] == fs;
    }

    method IsMatchingLeafUpdate(lastNode: Node, stack: seq<Node>, key: Key, keyRemainder: Key,
                                ghost fs: seq<Frame>, ghost rest: Key)
      returns (matches: bool)
      requires Framed(fs) && StackFits(codec, stack, fs) && key == PathOf(fs) + rest
      ensures matches <==> lastNode.LeafNode? && keyRemainder == [] && lastNode.key <= rest
    {
      if !lastNode.LeafNode? || keyRemainder != [] {
        return false;
      }
      var keyOffset := StackOffset(stack, fs);
      assert key[keyOffset..] == rest;
      var n := MatchingLength(lastNode.key, key[keyOffset..]);
      assert n == |lastNode.key| ==> lastNode.key == rest[..n];
      return n == |lastNode.key|;
    }

    /** Case 2 and the tail of case 3: hang the value on a branch, as a new leaf or as its value. */
    method HangValue(key: Key, branch: Node, stack: seq<Node>, keyRemainder: Key, value: Value, ops: seq<PutOp>,
                     ghost fs: seq<Frame>, ghost b: Tree)
      requires Pending(ops) && Framed(fs) && HoleFits(fs, b) && b.Branch?
      requires keyRemainder == [] || b.children[keyRemainder[0]].Empty?
      requires branch == NodeOf(codec, b) && StackFits(codec, stack, fs) && key == PathOf(fs) + keyRemainder
      requires ChildrenResolve(codec, Batch(db, ops), b) && FramesResolve(codec, Batch(db, ops), fs)
      modifies this`db, this`root
      ensures var t := HangNew(b, keyRemainder, value);
              HoleFits(fs, t) && HoleFits([], Fill(fs, t)) && Stored(Fill(fs, t))
      ensures Grows(old(db), db) && ContentAddressed(codec, db)
    {
      HangNewMeaning(b, keyRemainder, value, []);
      if keyRemainder != [] {
        var leaf := LeafNode(keyRemainder[1..], value);
        ghost var f := Slot(b.children, b.bvalue, keyRemainder[0]);
        ghost var bottom := Leaf(keyRemainder[1..], value);
        FillPush(fs, f, bottom);
        assert forall i :: 0 <= i < |fs| ==> (fs + [f])[i] == fs[i];
        assert key == PathOf(fs + [f]) + OwnKey(bottom);
        var stack' := stack + [branch] + [leaf];
        assert stack'[..|fs + [f]|] == stack + [branch];
        assert FitsFrame(codec, branch, f);
        SaveStack(key, stack', ops, fs + [f], bottom);
      } else {
        var node := branch.(bvalue := Some(value));
        ghost var bottom := Branch(b.children, Some(value));
        assert node == NodeOf(codec, bottom);
        assert (stack + [node])[..|fs|] == stack;
        SaveStack(key, stack + [node], ops, fs, bottom);
      }
    }

    ghost predicate Stored(t: Tree)
      reads this
    {
      Shaped(t) && root == RootOf(codec, t) && RootResolves(codec, db, t)
    }

    method UpdateNode(key: Key, value: Value, keyRemainder: Key, stack0: seq<Node>,
                      ghost fs: seq<Frame>, ghost focus: Tree, ghost rest: Key)
      requires Valid() && At(stack0, fs, focus, rest, key) && Stuck(focus, rest)
      requires keyRemainder == if Ends(focus, rest) then [] else rest
      modifies this`db, this`root
      ensures Stored(Insert(Run(log), key, value))
      ensures Grows(old(db), db) && ContentAddressed(codec, db)
    {
      var lastNode := stack0[|stack0|-1];
      var stack := stack0[..|stack0|-1];
      InsertFill(fs, focus, rest, value);
      var matchLeaf := IsMatchingLeafUpdate(lastNode, stack, key, keyRemainder, fs, rest);
      if matchLeaf {
        ghost var bottom := Leaf(lastNode.key, value);
        lastNode := lastNode.(value := value);
        assert focus.key == rest;
        assert (stack + [lastNode])[..|fs|] == stack;
        SaveStack(key, stack + [lastNode], [], fs, bottom);
      } else if lastNode.BranchNode? {
        HangValue(key, lastNode, stack, keyRemainder, value, [], fs, focus);
      } else {
        SplitNode(key, value, keyRemainder, lastNode, stack, fs, focus);
      }
    }

    /** Case 3: put a branch where the key leaves the last node's own key. */
    method SplitNode(key: Key, value: Value, keyRemainder: Key, lastNode: Node, stack0: seq<Node>,
                     ghost fs: seq<Frame>, ghost focus: Tree)
      requires Pending([]) && Framed(fs) && HoleFits(fs, focus) && (focus.Leaf? || focus.Extension?)
      requires if focus.Extension? then !(focus.key <= keyRemainder) else focus.key != keyRemainder
      requires lastNode == NodeOf(codec, focus) && StackFits(codec, stack0, fs) && key == PathOf(fs) + keyRemainder
      requires ChildrenResolve(codec, db, focus) && FramesResolve(codec, db, fs)
      modifies this`db, this`root
      ensures var t := Split(focus, keyRemainder, value);
              HoleFits(fs, t) && HoleFits([], Fill(fs, t)) && Stored(Fill(fs, t))
      ensures Grows(old(db), db) && ContentAddressed(codec, db)
    {
      var matchingLength := MatchingLength(lastNode.key, keyRemainder);
      SplitVacant(focus, keyRemainder);
      var newBranch, ops := BranchForOld(lastNode, lastNode.key[matchingLength..], focus, matchingLength);
      FramesResolveGrows(codec, db, Batch(db, ops), fs);
      HangUnder(key, lastNode.key[..matchingLength], newBranch, stack0, keyRemainder[matchingLength..], value, ops, fs,
                HangOld(focus, matchingLength));
    }

    /** Hang the value on a branch that sits below an extension, when there is a shared path. */
    method HangUnder(key: Key, shared: Key, branch: Node, stack: seq<Node>, keyRemainder: Key, value: Value,
                     ops: seq<PutOp>, ghost fs: seq<Frame>, ghost b: Tree)
      requires Pending(ops) && Framed(fs) && (fs != [] ==> fs[|fs|-1].Slot?) && Shaped(b) && b.Branch?
      requires keyRemainder == [] || b.children[keyRemainder[0]].Empty?
      requires branch == NodeOf(codec, b) && StackFits(codec, stack, fs) && key == PathOf(fs) + (shared + keyRemainder)
      requires ChildrenResolve(codec, Batch(db, ops), b) && FramesResolve(codec, Batch(db, ops), fs)
      modifies this`db, this`root
      ensures var t := Extend(shared, HangNew(b, keyRemainder, value));
              HoleFits(fs, t) && HoleFits([], Fill(fs, t)) && Stored(Fill(fs, t))
      ensures Grows(old(db), db) && ContentAddressed(codec, db)
    {
      ghost var t := HangNew(b, keyRemainder, value);
      HangNewMeaning(b, keyRemainder, value, []);
      ExtendMeaning(shared, t, []);
      if shared != [] {
        var ext := ExtensionNode(shared, Null);
        UnderExtension(stack, fs, ext, shared, t, Batch(db, ops));
        assert key == PathOf(fs + [Along(shared)]) + keyRemainder;
        HangValue(key, branch, stack + [ext], keyRemainder, value, ops, fs + [Along(shared)], b);
      } else {
        assert shared + keyRemainder == keyRemainder;
        HangValue(key, branch, stack, keyRemainder, value, ops, fs, b);
      }
    }

    /** The fresh branch with the old node, its key cut to `lastKey`, hung on it. */
    method BranchForOld(lastNode: Node, lastKey: Key, ghost focus: Tree, ghost m: nat)
      returns (newBranch: Node, ops: seq<PutOp>)
      requires Pending([]) && Shaped(focus) && (focus.Leaf? || focus.Extension?)
      requires m <= |focus.key| && (focus.Extension? ==> m < |focus.key|)
      requires lastNode == NodeOf(codec, focus) && lastKey == focus.key[m..] && ChildrenResolve(codec, db, focus)
      ensures Pending(ops) && Grows(db, Batch(db, ops))
      ensures Shaped(HangOld(focus, m)) && HangOld(focus, m).Branch? && newBranch == NodeOf(codec, HangOld(focus, m))
      ensures ChildrenResolve(codec, Batch(db, ops), HangOld(focus, m))
    {
      HangOldMeaning(focus, m, []);
      ops := [];
      var branches: seq<Ref> := seq(16, _ => Null);
      if lastKey == [] {
        newBranch := BranchNode(branches, Some(lastNode.value));
        assert newBranch.branches == NodeOf(codec, HangOld(focus, m)).branches;
      } else {
        var branchKey, rest := lastKey[0], lastKey[1..];
        assert rest == focus.key[m+1..];
        var ref;
        if rest != [] || lastNode.LeafNode? {
          ref, ops := FormatNode(lastNode.(key := rest), false, ops);
        } else {
          ref := lastNode.child;
        }
        ResolvesGrows(codec, db, Batch(db, ops), focus);
        HungNode(focus, m, ref, Batch(db, ops));
        newBranch := BranchNode(branches[branchKey := ref], None);
      }
    }

    lemma UnderExtension(stack: seq<Node>, fs: seq<Frame>, ext: Node, pre: Key, b: Tree, store: Store)
      requires Framed(fs) && StackFits(codec, stack, fs) && (fs != [] ==> fs[|fs|-1].Slot?)
      requires pre != [] && ext.ExtensionNode? && ext.key == pre && Shaped(b) && b.Branch?
      requires FramesResolve(codec, store, fs)
      ensures Framed(fs + [Along(pre)]) && StackFits(codec, stack + [ext], fs + [Along(pre)])
      ensures Fill(fs + [Along(pre)], b) == Fill(fs, Extension(pre, b))
      ensures PathOf(fs + [Along(pre)]) == PathOf(fs) + pre
      ensures FramesResolve(codec, store, fs + [Along(pre)])
    {
      var f := Along(pre);
      assert forall i :: 0 <= i < |fs| ==> (fs + [f])[i] == fs[i];
      FillPush(fs, f, b);
    }

    /** A fresh branch holding only the trimmed old node is the node of `HangOld`. */
    lemma HungNode(focus: Tree, m: nat, ref: Ref, store: Store)
      requires Shaped(focus) && (focus.Leaf? || focus.Extension?) && m < |focus.key|
      requires var below := Trim(focus, focus.key[m+1..]);
               Shaped(below) && ref == RefOf(codec, below) && Resolves(codec, store, below)
      ensures Shaped(HangOld(focus, m)) && ChildrenResolve(codec, store, HangOld(focus, m))
      ensures NodeOf(codec, HangOld(focus, m)) == BranchNode(seq(16, _ => Null)[focus.key[m] := ref], None)
    {
      HangOldMeaning(focus, m, []);
      assert NodeOf(codec, HangOld(focus, m)).branches == seq(16, _ => Null)[focus.key[m] := ref];
    }

    // ----- del -----

    /** The occupied slots of a branch, in order. */
    method GetChildren(node: Node, ghost ch: seq<Tree>) returns (children: seq<(Nibble, Ref)>)
      requires node.BranchNode? && |node.branches| == 16 && |ch| == 16
      requires forall i :: 0 <= i < 16 ==> Shaped(ch[i])
      requires forall i :: 0 <= i < 16 ==> node.branches[i] == RefOf(codec, ch[i])
      ensures |children| == Count(ch)
      ensures |children| == 1 ==> children[0] == (Occupied(ch), RefOf(codec, ch[Occupied(ch)]))
    {
      children := [];
      for i := 0 to 16
        invariant |children| == Count(ch[..i])
        invariant |children| == 1 ==>
          children[0].0 == Occupied(ch[..i]) && children[0].1 == node.branches[children[0].0]
      {
        assert ch[..i+1][..i] == ch[..i];
        if !node.branches[i].Null? {
          children := children + [(i, node.branches[i])];
        }
      }
      assert ch[..16] == ch;
    }

    method DeleteNode(key: Key, stack0: seq<Node>, ghost fs: seq<Frame>, ghost focus: Tree, ghost rest: Key)
      requires Valid() && At(stack0, fs, focus, rest, key) && Ends(focus, rest)
      modifies this`db, this`root
      ensures Stored(Delete(Run(log), key))
      ensures Grows(old(db), db) && ContentAddressed(codec, db)
    {
      var stack := stack0;
      var lastNode := stack[|stack|-1];
      stack := stack[..|stack|-1];
      if stack == [] {
        assert [] + rest == rest;
        root := codec.emptyRoot;
        return;
      }
      FillShaped(fs, focus);
      assert key != [] by { PathAssoc(fs, rest); }
      if lastNode.BranchNode? {
        RunWellFormedAt(fs, focus);
        assert key[..|key|] == key && PathOf(fs) + [] == PathOf(fs);
        RemoveMerge(fs, focus, []);
        Collapse(key, SetBranchValue(lastNode, None), stack, fs, focus.children, focus.bvalue);
      } else {
        DeleteLeaf(key, lastNode, stack, fs, focus);
      }
    }

    /** Vacate the leaf's slot in its parent branch. */
    method DeleteLeaf(key: Key, lastNode: Node, stack0: seq<Node>, ghost fs: seq<Frame>, ghost leaf: Tree)
      requires Pending([]) && Framed(fs) && fs != [] && HoleFits(fs, leaf) && leaf.Leaf?
      requires Shaped(Fill(fs, leaf)) && WellFormed(Fill(fs, leaf))
      requires StackFits(codec, stack0, fs) && lastNode == NodeOf(codec, leaf) && key == PathOf(fs) + leaf.key
      requires FramesResolve(codec, db, fs)
      modifies this`db, this`root
      ensures Stored(Remove(Fill(fs, leaf), key))
      ensures Grows(old(db), db) && ContentAddressed(codec, db)
    {
      ghost var f, above := fs[|fs|-1], fs[..|fs|-1];
      var parentNode := stack0[|stack0|-1];
      var stack := stack0[..|stack0|-1];
      assert FitsFrame(codec, parentNode, f) && FrameResolves(codec, db, f);
      if !parentNode.BranchNode? { assert false; }
      var pathNibbles := key[..|key| - |lastNode.key|];
      assert pathNibbles == PathOf(fs);
      var i := pathNibbles[|pathNibbles|-1];
      pathNibbles := pathNibbles[..|pathNibbles|-1];
      assert pathNibbles == PathOf(above);
      parentNode := parentNode.(branches := parentNode.branches[i := Null]);
      LeafGone(fs, leaf);
      VacatedNode(parentNode, f);
      Collapse(pathNibbles, parentNode, stack, above, f.children[i := Empty], f.bvalue);
    }

    lemma VacatedNode(n: Node, f: Frame)
      requires FrameShaped(f) && f.Slot? && FitsFrame(codec, n, f) && n.branches[f.index].Null?
      requires FrameResolves(codec, db, f)
      ensures var t := Branch(f.children[f.index := Empty], f.bvalue);
              Shaped(t) && n == NodeOf(codec, t) && ChildrenResolve(codec, db, t)
    {
      var t := Branch(f.children[f.index := Empty], f.bvalue);
      assert n.branches == NodeOf(codec, t).branches;
    }

    /** A branch ignores a null value: the setter leaves the old one in place. */
    function SetBranchValue(n: Node, v: Option<Value>): Node
      requires n.BranchNode?
    {
      if v.Some? then n.(bvalue := v) else n
    }

    lemma RunWellFormedAt(fs: seq<Frame>, b: Tree)
      requires Framed(fs) && HoleFits(fs, b) && b.Branch? && Shaped(Fill(fs, b)) && WellFormed(Fill(fs, b))
      ensures WellFormed(b) && !Remove(b, []).Empty?
    {
      WellFormedAt(fs, b);
      RemoveKeeps(b, []);
    }

    /** Deleting the leaf below the last slot shrinks that slot's branch. */
    lemma LeafGone(fs: seq<Frame>, leaf: Tree)
      requires Framed(fs) && HoleFits(fs, leaf) && leaf.Leaf? && fs != [] && fs[|fs|-1].Slot?
      requires Shaped(Fill(fs, leaf)) && WellFormed(Fill(fs, leaf))
      ensures var f, above := fs[|fs|-1], fs[..|fs|-1];
              var ch := f.children[f.index := Empty];
              && (Count(ch) >= 1 || f.bvalue.Some?)
              && Remove(Fill(fs, leaf), PathOf(fs) + leaf.key) == Merge(above, Shrink(ch, f.bvalue))
    {
      var f, above := fs[|fs|-1], fs[..|fs|-1];
      var b := FillOne(f, leaf);
      FillOneShaped(f, leaf);
      WellFormedAt(above, b);
      CountUpdate(f.children[f.index := leaf], f.index, Empty);
      assert f.children[f.index := leaf][f.index := Empty] == f.children[f.index := Empty];
      assert ([f.index] + leaf.key)[1..] == leaf.key;
      RemoveKeeps(b, [f.index] + leaf.key);
      RemoveMerge(above, b, [f.index] + leaf.key);
      PathAssoc(fs, leaf.key);
    }

    /** Fold a branch with one child into what is below and above it, and save. */
    method Collapse(path0: Key, branch: Node, stack0: seq<Node>, ghost fs: seq<Frame>,
                    ghost ch: seq<Tree>, ghost bv: Option<Value>)
      requires Pending([]) && Framed(fs) && |ch| == 16 && (forall i :: 0 <= i < 16 ==> Shaped(ch[i]))
      requires branch == NodeOf(codec, Branch(ch, bv)) && StackFits(codec, stack0, fs) && path0 == PathOf(fs)
      requires ChildrenResolve(codec, db, Branch(ch, bv)) && FramesResolve(codec, db, fs)
      modifies this`db, this`root
      ensures Stored(Merge(fs, Shrink(ch, bv)))
      ensures Grows(old(db), db) && ContentAddressed(codec, db)
    {
      var branchNodes := GetChildren(branch, ch);
      if |branchNodes| == 1 {
        var i := branchNodes[0].0;
        ghost var child := ch[i];
        var childNode := LookupNode(branchNodes[0].1, child);
        if stack0 == [] || stack0[|stack0|-1].BranchNode? {
          CollapseUnderBranch(path0, i, childNode, stack0, fs, child);
        } else {
          var parentNode := stack0[|stack0|-1];
          if !parentNode.ExtensionNode? { assert false; }
          CollapseUnderExtension(path0, i, childNode, parentNode, stack0[..|stack0|-1], fs, child);
        }
      } else {
        assert (stack0 + [branch])[..|fs|] == stack0;
        SaveStack(path0, stack0 + [branch], [], fs, Branch(ch, bv));
      }
    }

    /** Save with a branch below an extension at the end of the stack. */
    method SaveExtended(path: Key, ext: Node, childNode: Node, stack: seq<Node>, ghost fs: seq<Frame>,
                        ghost child: Tree)
      requires Pending([]) && Framed(fs) && (fs != [] ==> fs[|fs|-1].Slot?) && StackFits(codec, stack, fs)
      requires Shaped(child) && child.Branch? && childNode == NodeOf(codec, child)
      requires ext.ExtensionNode? && ext.key != [] && path == PathOf(fs) + ext.key
      requires ChildrenResolve(codec, db, child) && FramesResolve(codec, db, fs)
      modifies this`db, this`root
      ensures Stored(Fill(fs, Extension(ext.key, child)))
      ensures Grows(old(db), db) && ContentAddressed(codec, db)
    {
      UnderExtension(stack, fs, ext, ext.key, child, db);
      assert (stack + [ext] + [childNode])[..|fs| + 1] == stack + [ext];
      SaveStack(path, stack + [ext] + [childNode], [], fs + [Along(ext.key)], child);
    }

    /** Save with a leaf or extension whose key was lengthened at the end of the stack. */
    method SavePrepended(path: Key, key: Key, childNode: Node, stack: seq<Node>,
                         ghost fs: seq<Frame>, ghost pre: Key, ghost child: Tree)
      requires Pending([]) && Framed(fs) && (fs != [] ==> fs[|fs|-1].Slot?) && StackFits(codec, stack, fs)
      requires Shaped(child) && (child.Leaf? || child.Extension?) && childNode == NodeOf(codec, child)
      requires pre != [] && key == pre + child.key && path == PathOf(fs) + key
      requires ChildrenResolve(codec, db, child) && FramesResolve(codec, db, fs)
      modifies this`db, this`root
      ensures Stored(Fill(fs, Prepend(pre, child)))
      ensures Grows(old(db), db) && ContentAddressed(codec, db)
    {
      var node := childNode.(key := key);
      ghost var bottom := Prepend(pre, child);
      assert node == NodeOf(codec, bottom);
      assert (stack + [node])[..|fs|] == stack;
      SaveStack(path, stack + [node], [], fs, bottom);
    }

    lemma PrependTwice(p: Key, q: Key, t: Tree)
      requires Shaped(t) && p != [] && q != []
      ensures !t.Branch? ==> Prepend(p, Prepend(q, t)) == Prepend(p + q, t)
      ensures t.Branch? ==> Prepend(p, Prepend(q, t)) == Extension(p + q, t)
    {
      if t.Leaf? || t.Extension? {
        assert p + (q + t.key) == (p + q) + t.key;
      }
    }

    /** The parent is a branch or absent: an only child that is a branch needs an extension. */
    method CollapseUnderBranch(path0: Key, i: Nibble, childNode: Node, stack0: seq<Node>,
                               ghost fs: seq<Frame>, ghost child: Tree)
      requires Pending([]) && Framed(fs) && (fs != [] ==> fs[|fs|-1].Slot?) && StackFits(codec, stack0, fs)
      requires Shaped(child) && !child.Empty? && childNode == NodeOf(codec, child) && path0 == PathOf(fs)
      requires ChildrenResolve(codec, db, child) && Resolves(codec, db, child) && FramesResolve(codec, db, fs)
      modifies this`db, this`root
      ensures Stored(Fill(fs, Prepend([i], child)))
      ensures Grows(old(db), db) && ContentAddressed(codec, db)
    {
      PrependMeaning([i], child, []);
      if childNode.BranchNode? {
        SaveExtended(path0 + [i], ExtensionNode([i], Null), childNode, stack0, fs, child);
      } else {
        var childKey := [i] + childNode.key;
        SavePrepended(path0 + childKey, childKey, childNode, stack0, fs, [i], child);
      }
    }

    /** The parent is an extension: it takes the slot's nibble, or the child takes its key. */
    method CollapseUnderExtension(path0: Key, i: Nibble, childNode: Node, parentNode: Node, stack0: seq<Node>,
                                  ghost fs: seq<Frame>, ghost child: Tree)
      requires Pending([]) && Framed(fs) && fs != [] && fs[|fs|-1].Along?
      requires StackFits(codec, stack0, fs[..|fs|-1]) && FitsFrame(codec, parentNode, fs[|fs|-1])
      requires Shaped(child) && !child.Empty? && childNode == NodeOf(codec, child) && path0 == PathOf(fs)
      requires ChildrenResolve(codec, db, child) && Resolves(codec, db, child) && FramesResolve(codec, db, fs)
      modifies this`db, this`root
      ensures Stored(Fill(fs[..|fs|-1], Prepend(fs[|fs|-1].key, Prepend([i], child))))
      ensures Grows(old(db), db) && ContentAddressed(codec, db)
    {
      ghost var above := fs[..|fs|-1];
      var parentKey := parentNode.key;
      PrependTwice(parentKey, [i], child);
      PathAssoc(fs, []);
      assert path0 == PathOf(above) + parentKey;
      assert forall j :: 0 <= j < |above| ==> above[j] == fs[j];
      assert above != [] ==> above[|above|-1].Slot?;
      if childNode.BranchNode? {
        assert path0 + [i] == PathOf(above) + (parentKey + [i]);
        SaveExtended(path0 + [i], ExtensionNode(parentKey + [i], parentNode.child), childNode, stack0, above, child);
      } else {
        var childKey := [i] + childNode.key;
        assert (parentKey + [i]) + child.key == parentKey + childKey;
        assert path0 + childKey == PathOf(above) + (parentKey + childKey);
        SavePrepended(path0 + childKey, parentKey + childKey, childNode, stack0, above, parentKey + [i], child);
      }
    }

    // ----- the public operations -----

    /** Every root kept so far still stands for its trie once the store has grown. */
    lemma ArchiveSurvives(before: Store, r: Digest, ops: seq<Op>)
      requires Grows(before, db) && Produced(before, r, ops)
      ensures Produced(db, r, ops)
    {
      if !Run(ops).Empty? {
        ResolvesGrows(codec, before, db, Run(ops));
      }
    }

    /** The first leaf of an empty trie. */
    method CreateInitialNode(key: Key, value: Value)
      requires Pending([])
      modifies this`db, this`root
      ensures Stored(Leaf(key, value)) && Grows(old(db), db) && ContentAddressed(codec, db)
    {
      var newNode := LeafNode(key, value);
      root := codec.digest(newNode);
      db := db[root := newNode];
    }

    /** Store a value, or delete the key when the value is empty. */
    method Put(keyBytes: Bytes, value: Bytes)
      requires Valid()
      modifies this
      ensures Valid()
      ensures log == old(log) + [if value == [] then Op.Del(Nibbles(keyBytes)) else Op.Put(Nibbles(keyBytes), value)]
      ensures archive == old(archive)[root := log] && Grows(old(db), db)
    {
      if value == [] {
        Del(keyBytes);
        return;
      }
      var key := BytesToNibbles(keyBytes);
      assert Produced(db, root, archive[root]);
      if root == codec.emptyRoot {
        RootDeterminesTree(codec, Run(log), Empty);
        CreateInitialNode(key, value);
      } else {
        var found, remaining, stack, fs, focus, rest := FindPath(key);
        UpdateNode(key, value, remaining, stack, fs, focus, rest);
      }
      Record(Op.Put(key, value), old(db));
    }

    /** Delete a key; a key the walk does not end at leaves the trie as it is. */
    method Del(keyBytes: Bytes)
      requires Valid()
      modifies this
      ensures Valid()
      ensures log == old(log) + [Op.Del(Nibbles(keyBytes))]
      ensures archive == old(archive)[root := log] && Grows(old(db), db)
    {
      var key := BytesToNibbles(keyBytes);
      assert Produced(db, root, archive[root]);
      var found, remaining, stack, fs, focus, rest := FindPath(key);
      if found.Some? {
        DeleteNode(key, stack, fs, focus, rest);
      } else if !Run(log).Empty? {
        AbsentKey(fs, focus, rest);
      }
      Record(Op.Del(key), old(db));
    }

    lemma AbsentKey(fs: seq<Frame>, focus: Tree, rest: Key)
      requires Framed(fs) && HoleFits(fs, focus) && Stuck(focus, rest) && !Ends(focus, rest)
      ensures Shaped(Fill(fs, focus)) && Delete(Fill(fs, focus), PathOf(fs) + rest) == Fill(fs, focus)
    {
      StuckRemove(focus, rest);
      RemoveFill(fs, focus, rest);
      if fs != [] { PathAssoc(fs, rest); }
    }

    ghost method Record(op: Op, before: Store)
      requires codec.CollisionFree() && ContentAddressed(codec, db) && Grows(before, db)
      requires Stored(Step(Run(log), op))
      requires forall r :: r in archive ==> Produced(before, r, archive[r])
      modifies this`log, this`archive
      ensures Valid() && log == old(log) + [op] && archive == old(archive)[root := log]
    {
      forall r | r in archive ensures Produced(db, r, archive[r]) {
        ArchiveSurvives(before, r, archive[r]);
      }
      assert (log + [op])[..|log|] == log;
      log := log + [op];
      archive := archive[root := log];
    }

    /** Puts and deletions one after the other. */
    method ApplyBatch(ops: seq<MptHistory.ByteOp>)
      requires Valid()
      modifies this
      ensures Valid() && log == old(log) + MptHistory.OpsOf(ops) && Grows(old(db), db)
      ensures archive.Keys >= old(archive).Keys
    {
      for i := 0 to |ops|
        invariant Valid() && log == old(log) + MptHistory.OpsOf(ops[..i]) && Grows(old(db), db)
        invariant archive.Keys >= old(archive).Keys
      {
        MptHistory.OpsAfter(ops, i);
        Assoc(old(log), MptHistory.OpsOf(ops[..i]), [MptHistory.OpOf(ops[i])]);
        ApplyOp(ops[i]);
      }
      assert ops[..|ops|] == ops;
    }

    method ApplyOp(op: MptHistory.ByteOp)
      requires Valid()
      modifies this
      ensures Valid() && log == old(log) + [MptHistory.OpOf(op)] && Grows(old(db), db)
      ensures archive.Keys >= old(archive).Keys
    {
      match op
      case Put(k, v) => Put(k, v);
      case Del(k) => Del(k);
    }

    /** Go back to a root produced earlier: it still denotes the trie it denoted then. */
    method SetRoot(r: Digest)
      requires Valid() && r in archive
      modifies this`root, this`log
      ensures Valid() && root == r && log == archive[r]
    {
      root := r;
      log := archive[r];
    }
  }

  // ----- what the roots mean -----

  /** Over prefix-free keys two histories have the same root exactly when they leave the same map. */
  lemma SameRootSameMap(c: Codec, ops1: seq<Op>, ops2: seq<Op>, ks1: set<Key>, ks2: set<Key>)
    requires c.CollisionFree()
    requires PrefixFree(ks1) && KeysIn(ops1, ks1)
    requires PrefixFree(ks2) && KeysIn(ops2, ks2)
    ensures RootOf(c, Run(ops1)) == RootOf(c, Run(ops2)) <==> MapOf(ops1) == MapOf(ops2)
    ensures RootOf(c, Run(ops1)) == c.emptyRoot <==> MapOf(ops1) == map[]
  {
    HistoryIndependence(ops1, ops2, ks1, ks2);
    RootDeterminesTree(c, Run(ops1), Run(ops2));
    RootDeterminesTree(c, Run(ops1), Empty);
  }
}
