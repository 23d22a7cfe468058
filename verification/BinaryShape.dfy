/**
  The binary state tree as a value: stems at the first depth where they stand alone, and
  internal nodes at every depth above.  The tree refines a map from stems to their values,
  and is the only tree that does.
*/
module BinaryShape {
  import opened Wrappers

  type Bits = seq<bool>

  const STEM_BITS: nat := 248
  const NODE_WIDTH: nat := 256

  type Key = k: Bits | |k| == STEM_BITS witness seq(STEM_BITS, _ => false)

  type Values = v: seq<Option<Bytes>> | |v| == NODE_WIDTH witness seq(NODE_WIDTH, _ => None)

  datatype Tree = Nil | Stem(key: Key, values: Values) | Internal(left: Tree, right: Tree)

  function NoValues(): Values {
    seq(NODE_WIDTH, _ => None)
  }

  predicate Holds(v: Values) {
    exists i :: 0 <= i < NODE_WIDTH && v[i] != None
  }

  // ----- what can be hashed -----

  predicate Zeros(b: Bytes) {
    |b| == 64 && forall i :: 0 <= i < |b| ==> b[i] == 0
  }

  /** All values have a length that can be hashed. */
  predicate Hashable(v: Values) {
    forall i :: 0 <= i < NODE_WIDTH && v[i].Some? ==> |v[i].value| == 32 || |v[i].value| == 64
  }

  predicate HasBit(k: Key) {
    exists i :: 0 <= i < STEM_BITS && k[i]
  }

  /** 64 zero bytes hash to what nothing hashes to: such a value, or the zero stem without values. */
  predicate Distinct(k: Key, v: Values) {
    (HasBit(k) || Holds(v)) && forall i :: 0 <= i < NODE_WIDTH && v[i].Some? ==> !Zeros(v[i].value)
  }

  predicate Regular(k: Key, v: Values) {
    Hashable(v) && Distinct(k, v)
  }

  function Child(t: Tree, b: bool): Tree
    requires t.Internal?
  {
    if b then t.right else t.left
  }

  function WithChild(t: Tree, b: bool, c: Tree): Tree
    requires t.Internal?
  {
    if b then Internal(t.left, c) else Internal(c, t.right)
  }

  function Size(t: Tree): nat {
    match t
    case Nil => 0
    case Stem(_, _) => 1
    case Internal(l, r) => Size(l) + Size(r)
  }

  /**
    In place at `p`: every stem below starts with the bits that lead to it and can be hashed,
    and none stands alone below a node.
  */
  ghost predicate At(t: Tree, p: Bits)
  {
    match t
    case Nil => true
    case Stem(k, v) => |p| <= STEM_BITS && k[..|p|] == p && Regular(k, v)
    case Internal(l, r) => |p| < STEM_BITS && Size(t) >= 2 && At(l, p + [false]) && At(r, p + [true])
  }

  function Lookup(t: Tree, k: Key, i: nat): Option<Values>
    decreases t
  {
    match t
    case Nil => None
    case Stem(k', v) => if k' == k then Some(v) else None
    case Internal(_, _) => if i < STEM_BITS then Lookup(Child(t, k[i]), k, i + 1) else None
  }

  /** Internal nodes from depth `i` down to the first bit where two stems differ. */
  function Split(k: Key, v: Values, k': Key, v': Values, i: nat): Tree
    decreases STEM_BITS - i
  {
    if i >= STEM_BITS then Nil
    else if k[i] != k'[i] then WithChild(WithChild(Internal(Nil, Nil), k[i], Stem(k, v)), k'[i], Stem(k', v'))
    else WithChild(Internal(Nil, Nil), k[i], Split(k, v, k', v', i + 1))
  }

  function Insert(t: Tree, k: Key, v: Values, i: nat): Tree
    decreases t
  {
    match t
    case Nil => Stem(k, v)
    case Stem(k', v') => if k' == k then Stem(k, v) else Split(k, v, k', v', i)
    case Internal(_, _) => if i < STEM_BITS then WithChild(t, k[i], Insert(Child(t, k[i]), k, v, i + 1)) else t
  }

  // ----- prefixes -----

  /** Two keys that share `p`. */
  predicate Under(k: Key, p: Bits) {
    |p| <= STEM_BITS && k[..|p|] == p
  }

  lemma UnderLonger(k: Key, p: Bits)
    requires Under(k, p) && |p| < STEM_BITS
    ensures Under(k, p + [k[|p|]])
  {
    assert k[..|p| + 1] == k[..|p|] + [k[|p|]];
  }

  lemma UnderShorter(k: Key, p: Bits, b: bool)
    requires Under(k, p + [b])
    ensures Under(k, p) && k[|p|] == b
  {
    assert k[..|p|] == k[..|p| + 1][..|p|] == (p + [b])[..|p|] == p;
    assert k[..|p| + 1][|p|] == (p + [b])[|p|];
  }

  /** Different keys leave room for a bit where they differ. */
  lemma Room(k: Key, k': Key, p: Bits)
    requires Under(k, p) && Under(k', p) && k != k'
    ensures |p| < STEM_BITS
  {
    assert k[..STEM_BITS] == k && k'[..STEM_BITS] == k';
  }

  /** How many bits two paths share from the start. */
  function Matching(a: Bits, b: Bits): (n: nat)
    ensures n <= |a| && n <= |b| && a[..n] == b[..n]
  {
    if a == [] || b == [] || a[0] != b[0] then 0 else 1 + Matching(a[1..], b[1..])
  }

  lemma {:induction false} MatchingIs(a: Bits, b: Bits, n: nat)
    requires n <= |a| && n <= |b| && a[..n] == b[..n]
    requires n == |a| || n == |b| || a[n] != b[n]
    ensures Matching(a, b) == n
  {
    if n > 0 {
      assert a[0] == a[..n][0] && b[0] == b[..n][0];
      assert a[1..][..n-1] == a[..n][1..] && b[1..][..n-1] == b[..n][1..];
      MatchingIs(a[1..], b[1..], n - 1);
    }
  }

  lemma {:induction false} MatchingAll(a: Bits, b: Bits)
    requires |a| == |b|
    ensures Matching(a, b) == |b| <==> a == b
  {
    if a != [] && a[0] == b[0] {
      MatchingAll(a[1..], b[1..]);
      assert a == [a[0]] + a[1..] && b == [b[0]] + b[1..];
    }
  }

  /** Beyond the shared bits two paths differ, if both go on. */
  lemma {:induction false} MatchingParts(a: Bits, b: Bits)
    ensures var m := Matching(a, b); m < |a| && m < |b| ==> a[m] != b[m]
  {
    if a != [] && b != [] && a[0] == b[0] {
      MatchingParts(a[1..], b[1..]);
    }
  }

  /** A path and a longer one with the same bits match on all of the shorter. */
  lemma PrefixMatching(key: Key, a: nat, b: nat)
    requires a <= b <= STEM_BITS
    ensures Matching(key[..b], key[..a]) == a
  {
    MatchingIs(key[..b], key[..a], a);
  }

  /** Two keys that share bits match at least on those. */
  lemma {:induction false} MatchAtLeast(a: Bits, b: Bits, n: nat)
    requires n <= |a| && n <= |b| && a[..n] == b[..n]
    ensures Matching(a, b) >= n
  {
    if n > 0 {
      assert a[0] == a[..n][0] && b[0] == b[..n][0];
      assert a[1..][..n-1] == a[..n][1..] && b[1..][..n-1] == b[..n][1..];
      MatchAtLeast(a[1..], b[1..], n - 1);
    }
  }

  // ----- what insertion does -----

  lemma {:induction false} SplitAt(k: Key, v: Values, k': Key, v': Values, p: Bits)
    requires Under(k, p) && Under(k', p) && k != k' && Regular(k, v) && Regular(k', v')
    ensures |p| < STEM_BITS && var t := Split(k, v, k', v', |p|);
            t.Internal? && Size(t) == 2 && At(t, p)
    decreases STEM_BITS - |p|
  {
    Room(k, k', p);
    UnderLonger(k, p);
    UnderLonger(k', p);
    if k[|p|] == k'[|p|] {
      SplitAt(k, v, k', v', p + [k[|p|]]);
    }
  }

  lemma {:induction false} SplitMeaning(k: Key, v: Values, k': Key, v': Values, p: Bits, j: Key)
    requires Under(k, p) && Under(k', p) && k != k'
    requires Under(j, p)
    ensures Lookup(Split(k, v, k', v', |p|), j, |p|) == if j == k then Some(v) else if j == k' then Some(v') else None
    decreases STEM_BITS - |p|
  {
    Room(k, k', p);
    if k[|p|] == k'[|p|] {
      UnderLonger(k, p);
      UnderLonger(k', p);
      if j[|p|] == k[|p|] {
        UnderLonger(j, p);
        SplitMeaning(k, v, k', v', p + [k[|p|]], j);
      }
    }
  }

  lemma {:induction false} InsertAt(t: Tree, p: Bits, k: Key, v: Values)
    requires At(t, p) && Under(k, p) && Regular(k, v)
    ensures At(Insert(t, k, v, |p|), p) && Size(Insert(t, k, v, |p|)) >= Size(t) && !Insert(t, k, v, |p|).Nil?
    ensures Size(Insert(t, k, v, |p|)) > 0
  {
    match t
    case Nil =>
    case Stem(k', v') => if k' != k { SplitAt(k, v, k', v', p); }
    case Internal(_, _) =>
      UnderLonger(k, p);
      InsertAt(Child(t, k[|p|]), p + [k[|p|]], k, v);
  }

  /** Insertion changes the values of its stem and of no other. */
  lemma {:induction false} InsertMeaning(t: Tree, p: Bits, k: Key, v: Values, j: Key)
    requires At(t, p) && Under(k, p) && Under(j, p)
    ensures Lookup(Insert(t, k, v, |p|), j, |p|) == if j == k then Some(v) else Lookup(t, j, |p|)
  {
    match t
    case Nil =>
    case Stem(k', v') => if k' != k { SplitMeaning(k, v, k', v', p, j); }
    case Internal(_, _) =>
      UnderLonger(k, p);
      if j[|p|] == k[|p|] {
        UnderLonger(j, p);
        InsertMeaning(Child(t, k[|p|]), p + [k[|p|]], k, v, j);
      }
  }

  // ----- one tree for each map -----

  /** A recorded stem other than a given one. */
  lemma {:induction false} AnotherKey(t: Tree, p: Bits, k: Key) returns (j: Key)
    requires At(t, p) && (Size(t) >= 2 || (Size(t) == 1 && Lookup(t, k, |p|).None?))
    requires Under(k, p)
    ensures j != k && Under(j, p) && Lookup(t, j, |p|).Some?
  {
    match t
    case Stem(k', _) => j := k';
    case Internal(l, r) =>
      UnderLonger(k, p);
      var b := k[|p|];
      if Size(Child(t, !b)) > 0 {
        j := AnyKey(Child(t, !b), p + [!b]);
        UnderShorter(j, p, !b);
      } else {
        j := AnotherKey(Child(t, b), p + [b], k);
        UnderShorter(j, p, b);
      }
  }

  lemma {:induction false} AnyKey(t: Tree, p: Bits) returns (j: Key)
    requires At(t, p) && Size(t) > 0
    ensures Under(j, p) && Lookup(t, j, |p|).Some?
  {
    match t
    case Stem(k', _) => j := k';
    case Internal(l, r) =>
      var b := Size(l) == 0;
      j := AnyKey(Child(t, b), p + [b]);
      UnderShorter(j, p, b);
  }

  lemma EmptyIsNil(t: Tree, p: Bits)
    requires At(t, p)
    ensures Size(t) == 0 <==> t.Nil?
  {
  }

  ghost predicate SameMap(a: Tree, b: Tree, p: Bits) {
    forall k: Key :: Under(k, p) ==> Lookup(a, k, |p|) == Lookup(b, k, |p|)
  }

  /** Two trees in place that record the same values are the same tree. */
  lemma {:induction false} OneTreeForEachMap(a: Tree, b: Tree, p: Bits)
    requires At(a, p) && At(b, p) && SameMap(a, b, p)
    ensures a == b
  {
    EmptyIsNil(a, p);
    EmptyIsNil(b, p);
    if a.Nil? {
      if !b.Nil? { var j := AnyKey(b, p); }
    } else if b.Nil? {
      var j := AnyKey(a, p);
    } else if a.Stem? {
      assert Under(a.key, p);
      if b.Internal? { var j := AnotherKey(b, p, a.key); }
    } else if b.Stem? {
      assert Under(b.key, p);
      var j := AnotherKey(a, p, b.key);
    } else {
      forall side: bool ensures Child(a, side) == Child(b, side) {
        forall k: Key | Under(k, p + [side])
          ensures Lookup(Child(a, side), k, |p| + 1) == Lookup(Child(b, side), k, |p| + 1)
        {
          UnderShorter(k, p, side);
        }
        assert SameMap(Child(a, side), Child(b, side), p + [side]);
        OneTreeForEachMap(Child(a, side), Child(b, side), p + [side]);
      }
      assert Child(a, false) == Child(b, false) && Child(a, true) == Child(b, true);
    }
  }

  // ----- histories -----

  /** One put: the suffixes of a stem and what to store there. */
  datatype Op = Op(key: Key, suffixes: seq<nat>, values: seq<Option<Bytes>>)

  predicate Proper(op: Op) {
    |op.suffixes| == |op.values| && forall i :: 0 <= i < |op.suffixes| ==> op.suffixes[i] < NODE_WIDTH
  }

  /** The values of a stem once they are set one after the other. */
  function Updated(v: Values, suffixes: seq<nat>, values: seq<Option<Bytes>>): Values
    requires |suffixes| == |values| && forall i :: 0 <= i < |suffixes| ==> suffixes[i] < NODE_WIDTH
  {
    if suffixes == [] then v
    else
      var n := |suffixes| - 1;
      Updated(v, suffixes[..n], values[..n])[suffixes[n] := values[n]]
  }

  function ValuesIn(m: map<Key, Values>, k: Key): Values {
    if k in m then m[k] else NoValues()
  }

  /** Takes away the last value of a stem that is recorded beside others. */
  predicate Emptied(m: map<Key, Values>, op: Op)
    requires Proper(op)
  {
    op.key in m && m.Keys != {op.key} && !Holds(Updated(ValuesIn(m, op.key), op.suffixes, op.values))
  }

  /** The values it leaves can be hashed. */
  predicate Accepted(m: map<Key, Values>, op: Op)
    requires Proper(op)
  {
    Hashable(Updated(ValuesIn(m, op.key), op.suffixes, op.values))
  }

  /** They are told apart by their hash, or they are none and not stored. */
  predicate Distinguished(m: map<Key, Values>, op: Op)
    requires Proper(op)
  {
    var v := Updated(ValuesIn(m, op.key), op.suffixes, op.values);
    Distinct(op.key, v) || (!Holds(v) && op.key !in m && m != map[])
  }

  /**
    A stem without values is not added to others; a lone one is kept without values.  This
    is what a put does unless it empties a stem beside others.
  */
  function PutMap(m: map<Key, Values>, op: Op): map<Key, Values>
    requires Proper(op)
  {
    var v := Updated(ValuesIn(m, op.key), op.suffixes, op.values);
    if Holds(v) || m.Keys <= {op.key} then m[op.key := v] else m
  }

  function StemValues(t: Tree, k: Key): Values {
    var v := Lookup(t, k, 0);
    if v.Some? then v.value else NoValues()
  }

  function PutTree(t: Tree, op: Op): Tree
    requires Proper(op)
  {
    var v := Updated(StemValues(t, op.key), op.suffixes, op.values);
    if Holds(v) || t.Nil? || (t.Stem? && t.key == op.key) then Insert(t, op.key, v, 0) else t
  }

  ghost predicate Denotes(t: Tree, m: map<Key, Values>) {
    At(t, []) && forall k: Key :: Lookup(t, k, 0) == if k in m then Some(m[k]) else None
  }

  /** A tree with more than one stem records more than one, and with none none. */
  lemma DenotesSize(t: Tree, m: map<Key, Values>, k: Key)
    requires Denotes(t, m)
    ensures m.Keys <= {k} <==> t.Nil? || (t.Stem? && t.key == k)
  {
    if t.Stem? {
      assert Lookup(t, t.key, 0).Some?;
    } else if t.Internal? {
      assert Under(k, []);
      var j := AnotherKey(t, [], k);
      assert j in m && j != k;
    } else {
      forall j: Key ensures j !in m { assert Lookup(t, j, 0) == None; }
    }
  }

  lemma InsertDenotes(t: Tree, m: map<Key, Values>, k: Key, v: Values)
    requires Denotes(t, m) && Regular(k, v)
    ensures Denotes(Insert(t, k, v, 0), m[k := v])
  {
    InsertAt(t, [], k, v);
    forall j: Key ensures Lookup(Insert(t, k, v, 0), j, 0) == if j == k then Some(v) else Lookup(t, j, 0) {
      InsertMeaning(t, [], k, v, j);
    }
  }

  lemma OneMapForEachTree(t: Tree, m: map<Key, Values>, n: map<Key, Values>)
    requires Denotes(t, m) && Denotes(t, n)
    ensures m == n
  {
    assert forall k: Key :: (k in m <==> k in n) && (k in m ==> m[k] == n[k]);
  }

  lemma PutDenotes(t: Tree, m: map<Key, Values>, op: Op)
    requires Denotes(t, m) && Proper(op) && Accepted(m, op) && Distinguished(m, op)
    ensures Denotes(PutTree(t, op), PutMap(m, op))
  {
    var v := Updated(StemValues(t, op.key), op.suffixes, op.values);
    DenotesSize(t, m, op.key);
    if PutTree(t, op) != t || Holds(v) || m.Keys <= {op.key} {
      InsertDenotes(t, m, op.key, v);
    }
  }

  function RunMap(ops: seq<Op>): map<Key, Values>
  {
    if ops == [] then map[]
    else
      var m := RunMap(ops[..|ops|-1]);
      if Proper(ops[|ops|-1]) then PutMap(m, ops[|ops|-1]) else m
  }

  function RunTree(ops: seq<Op>): Tree
  {
    if ops == [] then Nil
    else
      var t := RunTree(ops[..|ops|-1]);
      if Proper(ops[|ops|-1]) then PutTree(t, ops[|ops|-1]) else t
  }

  /** Every put of the history is accepted and told apart, and none empties a stem beside others. */
  predicate AllKept(ops: seq<Op>) {
    ops != [] ==>
      var init, op := ops[..|ops|-1], ops[|ops|-1];
      && AllKept(init) && Proper(op)
      && Accepted(RunMap(init), op) && Distinguished(RunMap(init), op) && !Emptied(RunMap(init), op)
  }

  lemma {:induction false} HistoryRefinesMap(ops: seq<Op>)
    requires AllKept(ops)
    ensures Denotes(RunTree(ops), RunMap(ops))
  {
    if ops != [] {
      HistoryRefinesMap(ops[..|ops|-1]);
      PutDenotes(RunTree(ops[..|ops|-1]), RunMap(ops[..|ops|-1]), ops[|ops|-1]);
    }
  }

  /** Deleting the only value of one of two stems empties a stem beside another. */
  lemma DeletionThatEmpties(k: Key, k': Key, value: Bytes)
    requires k != k' && HasBit(k) && |value| == 32
    ensures var ops, op := [Op(k, [0], [Some(value)]), Op(k', [0], [Some(value)])], Op(k, [0], [None]);
            && AllKept(ops) && Proper(op) && Accepted(RunMap(ops), op) && Distinguished(RunMap(ops), op)
            && Emptied(RunMap(ops), op)
  {
    var first, second := Op(k, [0], [Some(value)]), Op(k', [0], [Some(value)]);
    var ops, v := [first, second], NoValues()[0 := Some(value)];
    OneMorePut([], k, value);
    assert [] + [first] == [first] && [first] + [second] == ops;
    OneMorePut([first], k', value);
    UpdatedOnce(v, None);
    assert v[0 := None] == NoValues();
    assert RunMap(ops) == map[k := v, k' := v] && k' in RunMap(ops);
  }

  /** A put of one value at a stem that is not there yet. */
  lemma OneMorePut(ops: seq<Op>, k: Key, value: Bytes)
    requires AllKept(ops) && k !in RunMap(ops) && |value| == 32
    ensures var all := ops + [Op(k, [0], [Some(value)])];
            AllKept(all) && RunMap(all) == RunMap(ops)[k := NoValues()[0 := Some(value)]]
  {
    PutNew(RunMap(ops), k, value);
    OneMore(ops, Op(k, [0], [Some(value)]));
  }

  lemma OneMore(ops: seq<Op>, op: Op)
    requires AllKept(ops) && Proper(op)
    requires Accepted(RunMap(ops), op) && Distinguished(RunMap(ops), op) && !Emptied(RunMap(ops), op)
    ensures AllKept(ops + [op]) && RunMap(ops + [op]) == PutMap(RunMap(ops), op)
  {
    assert (ops + [op])[..|ops|] == ops;
  }

  lemma PutNew(m: map<Key, Values>, k: Key, value: Bytes)
    requires k !in m && |value| == 32
    ensures var op := Op(k, [0], [Some(value)]);
            && Proper(op) && Accepted(m, op) && Distinguished(m, op) && !Emptied(m, op)
            && PutMap(m, op) == m[k := NoValues()[0 := Some(value)]]
  {
    UpdatedOnce(NoValues(), Some(value));
    OneValue(k, value);
  }

  lemma OneValue(k: Key, value: Bytes)
    requires |value| == 32
    ensures var v := NoValues()[0 := Some(value)]; Holds(v) && Hashable(v) && Distinct(k, v)
  {
    assert NoValues()[0 := Some(value)][0] != None;
  }

  lemma UpdatedOnce(v: Values, value: Option<Bytes>)
    ensures Updated(v, [0], [value]) == v[0 := value]
  {
    assert [0][..0] == [] && Updated(v, [], []) == v;
  }

  /** What was written last, if anything, at one suffix by one put. */
  function WrittenBy(suffixes: seq<nat>, values: seq<Option<Bytes>>, i: nat, before: Option<Bytes>): Option<Bytes>
    requires |suffixes| == |values|
  {
    if suffixes == [] then before
    else
      var n := |suffixes| - 1;
      if suffixes[n] == i then values[n] else WrittenBy(suffixes[..n], values[..n], i, before)
  }

  /** The value last written at a suffix of a stem. */
  function LastWritten(ops: seq<Op>, k: Key, i: nat): Option<Bytes>
  {
    if ops == [] then None
    else
      var before, op := LastWritten(ops[..|ops|-1], k, i), ops[|ops|-1];
      if op.key == k && Proper(op) then WrittenBy(op.suffixes, op.values, i, before) else before
  }

  lemma {:induction false} UpdatedAt(v: Values, suffixes: seq<nat>, values: seq<Option<Bytes>>, i: nat)
    requires |suffixes| == |values| && i < NODE_WIDTH
    requires forall j :: 0 <= j < |suffixes| ==> suffixes[j] < NODE_WIDTH
    ensures Updated(v, suffixes, values)[i] == WrittenBy(suffixes, values, i, v[i])
  {
    if suffixes != [] {
      UpdatedAt(v, suffixes[..|suffixes|-1], values[..|suffixes|-1], i);
    }
  }

  lemma PutValues(m: map<Key, Values>, op: Op, k: Key)
    requires Proper(op) && !Emptied(m, op)
    ensures ValuesIn(PutMap(m, op), k) ==
            if k == op.key then Updated(ValuesIn(m, k), op.suffixes, op.values) else ValuesIn(m, k)
  {
    var v := Updated(ValuesIn(m, op.key), op.suffixes, op.values);
    if !Holds(v) && !(m.Keys <= {op.key}) {
      assert forall i :: 0 <= i < NODE_WIDTH ==> v[i] == None;
      assert v == NoValues();
      assert op.key !in m || m.Keys == {op.key};
    }
  }

  /** After every such history each suffix of each stem holds what was last written there. */
  lemma {:induction false} LastWriteIsHeld(ops: seq<Op>, k: Key, i: nat)
    requires AllKept(ops) && i < NODE_WIDTH
    ensures StemValues(RunTree(ops), k)[i] == LastWritten(ops, k, i)
  {
    HistoryRefinesMap(ops);
    if ops != [] {
      var init, op := ops[..|ops|-1], ops[|ops|-1];
      HistoryRefinesMap(init);
      LastWriteIsHeld(init, k, i);
      PutValues(RunMap(init), op, k);
      if k == op.key { UpdatedAt(ValuesIn(RunMap(init), k), op.suffixes, op.values, i); }
    }
  }

  /** Histories that leave the same map build the same tree, whatever their order. */
  lemma HistoryIndependence(a: seq<Op>, b: seq<Op>)
    requires AllKept(a) && AllKept(b)
    ensures RunTree(a) == RunTree(b) <==> RunMap(a) == RunMap(b)
  {
    HistoryRefinesMap(a);
    HistoryRefinesMap(b);
    if RunMap(a) == RunMap(b) {
      OneTreeForEachMap(RunTree(a), RunTree(b), []);
    }
    if RunTree(a) == RunTree(b) {
      OneMapForEachTree(RunTree(a), RunMap(a), RunMap(b));
    }
  }
}
