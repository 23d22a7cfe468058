/**
  Histories of puts and deletes with byte keys, as callers make them: over prefix-free keys
  what the trie returns is what a plain map would.
*/
module MptHistory {
  import opened Wrappers
  import opened MptTree
  import opened MptDeletion
  import MptCanonical
  import opened MptNibbles

  /** Putting an empty value deletes. */
  datatype ByteOp = Put(key: Bytes, value: Bytes) | Del(key: Bytes)

  function Stored(op: ByteOp): Option<Value> {
    if op.Put? && op.value != [] then Some(op.value) else None
  }

  ghost function OpOf(op: ByteOp): MptCanonical.Op {
    if Stored(op).Some? then MptCanonical.Put(Nibbles(op.key), Stored(op).value) else MptCanonical.Del(Nibbles(op.key))
  }

  ghost function OpsOf(ops: seq<ByteOp>): (r: seq<MptCanonical.Op>)
    ensures |r| == |ops|
  {
    if ops == [] then [] else OpsOf(ops[..|ops|-1]) + [OpOf(ops[|ops|-1])]
  }

  lemma OpsAfter(ops: seq<ByteOp>, i: nat)
    requires i < |ops|
    ensures OpsOf(ops[..i+1]) == OpsOf(ops[..i]) + [OpOf(ops[i])]
  {
    assert ops[..i+1][..i] == ops[..i];
  }

  ghost function TrieOf(ops: seq<ByteOp>): (t: Tree)
    ensures Shaped(t) && WellFormed(t)
  {
    MptCanonical.Run(OpsOf(ops))
  }

  lemma TrieAfter(ops: seq<ByteOp>, op: ByteOp)
    ensures TrieOf(ops + [op]) == MptCanonical.Step(TrieOf(ops), OpOf(op))
  {
    assert (ops + [op])[..|ops|] == ops;
    var all := OpsOf(ops + [op]);
    assert all[..|all|-1] == OpsOf(ops);
  }

  /** The plain map the same history builds. */
  function PlainMap(ops: seq<ByteOp>): map<Bytes, Value> {
    if ops == [] then map[]
    else
      var m, op := PlainMap(ops[..|ops|-1]), ops[|ops|-1];
      if Stored(op).Some? then m[op.key := Stored(op).value] else m - {op.key}
  }

  /** What a plain map would return. */
  function Plainly(ops: seq<ByteOp>, k: Bytes): Option<Value> {
    if k in PlainMap(ops) then Some(PlainMap(ops)[k]) else None
  }

  /** No key begins another; keys of one length are such. */
  ghost predicate PrefixFree(keys: set<Bytes>) {
    forall a, b :: a in keys && b in keys && a != b ==> !(a <= b)
  }

  ghost predicate KeysIn(ops: seq<ByteOp>, keys: set<Bytes>) {
    forall i :: 0 <= i < |ops| ==> ops[i].key in keys
  }

  ghost function Paths(keys: set<Bytes>): set<Key> {
    set k | k in keys :: Nibbles(k)
  }

  lemma PathsPrefixFree(keys: set<Bytes>)
    requires PrefixFree(keys)
    ensures MptCanonical.PrefixFree(Paths(keys))
  {
    forall a, b | a in Paths(keys) && b in Paths(keys) && a != b ensures !(a <= b) {
      var x, y :| x in keys && y in keys && a == Nibbles(x) && b == Nibbles(y);
      NibblesPrefix(x, y);
    }
  }

  lemma {:induction false} OpsKeysIn(ops: seq<ByteOp>, keys: set<Bytes>)
    requires KeysIn(ops, keys)
    ensures MptCanonical.KeysIn(OpsOf(ops), Paths(keys))
  {
    if ops != [] {
      OpsKeysIn(ops[..|ops|-1], keys);
      assert ops[|ops|-1].key in keys;
    }
  }

  lemma {:induction false} SameMaps(ops: seq<ByteOp>, k: Bytes)
    ensures var m := MptCanonical.MapOf(OpsOf(ops));
            && (Nibbles(k) in m <==> k in PlainMap(ops))
            && (k in PlainMap(ops) ==> m[Nibbles(k)] == PlainMap(ops)[k])
  {
    if ops != [] {
      SameMaps(ops[..|ops|-1], k);
      NibblesPrefix(k, ops[|ops|-1].key);
      var all := OpsOf(ops);
      assert all[..|all|-1] == OpsOf(ops[..|ops|-1]);
    }
  }

  /** Over prefix-free keys every key, put or not, is found exactly as in the plain map. */
  lemma GetIsPlainMap(ops: seq<ByteOp>, keys: set<Bytes>, k: Bytes)
    requires PrefixFree(keys) && KeysIn(ops, keys)
    ensures Lookup(TrieOf(ops), Nibbles(k)) == Plainly(ops, k)
  {
    PathsPrefixFree(keys);
    OpsKeysIn(ops, keys);
    MptCanonical.HistoryRefinesMap(OpsOf(ops), Paths(keys));
    SameMaps(ops, k);
  }

  /** Over keys of one length, as hashed keys are, the same holds without further ado. */
  lemma GetIsPlainMapForEqualLengths(ops: seq<ByteOp>, n: nat, k: Bytes)
    requires forall i :: 0 <= i < |ops| ==> |ops[i].key| == n
    ensures Lookup(TrieOf(ops), Nibbles(k)) == Plainly(ops, k)
  {
    var keys := set i | 0 <= i < |ops| :: ops[i].key;
    GetIsPlainMap(ops, keys, k);
  }

  // ----- a deletion that does not happen -----

  /** The byte keys 0x12, 0x1234 and 0x1256 are put, and 0x12 is deleted. */
  function Doomed(v: Value): seq<ByteOp> {
    [Put([0x12], v), Put([0x12, 0x34], v), Put([0x12, 0x56], v), Del([0x12])]
  }

  lemma DoomedPaths()
    ensures Nibbles([0x12]) == [1, 2] && Nibbles([0x12, 0x34]) == [1, 2, 3, 4] && Nibbles([0x12, 0x56]) == [1, 2, 5, 6]
  {
    NibblesAt([0x12], 0);
    NibblesAt([0x12, 0x34], 0);
    NibblesAt([0x12, 0x34], 1);
    NibblesAt([0x12, 0x56], 0);
    NibblesAt([0x12, 0x56], 1);
  }

  /** The puts build an extension over a branch with the value of 0x12 and a leaf for each other key. */
  lemma DoomedPuts(v: Value)
    ensures TrieOf(Doomed(v)[..3]) == ValueAboveTwo(v)
  {
    DoomedPaths();
    var ops := Doomed(v);
    assert ops[..1] == [] + [ops[0]] && ops[..2] == ops[..1] + [ops[1]] && ops[..3] == ops[..2] + [ops[2]];
    TrieAfter([], ops[0]);
    TrieAfter(ops[..1], ops[1]);
    TrieAfter(ops[..2], ops[2]);
    DoomedInserts(v);
  }

  lemma DoomedInserts(v: Value)
    ensures Insert(Insert(Leaf([1, 2], v), [1, 2, 3, 4], v), [1, 2, 5, 6], v) == ValueAboveTwo(v)
  {
    var a: Key, b: Key, c: Key := [1, 2], [1, 2, 3, 4], [1, 2, 5, 6];
    var one := Branch(NoChildren()[3 := Leaf([4], v)], Some(v));
    assert MatchingLength(a, b) == 2 by {
      assert a[1..] == [2] && b[1..] == [2, 3, 4] && a[1..][1..] == [] && b[1..][1..] == [3, 4];
    }
    assert a[..2] == a && b[2..] == [3, 4] && b[2..][1..] == [4];
    assert Insert(Leaf(a, v), b, v) == Extension(a, one);
    assert c[..2] == a && c[2..] == [5, 6] && c[2..][1..] == [6];
    assert one.children[5] == Empty;
    assert Insert(one, [5, 6], v) == Branch(NoChildren()[3 := Leaf([4], v)][5 := Leaf([6], v)], Some(v));
  }

  /** The deleted key is still found, although the plain map has lost it. */
  lemma DeletedKeySurvives(v: Value)
    ensures Lookup(TrieOf(Doomed(v)), Nibbles([0x12])) == Some(v) && [0x12] !in PlainMap(Doomed(v))
  {
    DoomedPaths();
    DoomedPuts(v);
    BranchValueSurvives(v);
    var ops := Doomed(v);
    assert ops == ops[..3] + [ops[3]];
    TrieAfter(ops[..3], ops[3]);
  }

  // ----- a deletion that takes everything -----

  /** Two keys are put, and the empty key, which was never put, is deleted. */
  function Emptying(v: Value): seq<ByteOp> {
    [Put([0x12], v), Put([0x34], v), Del([])]
  }

  /** The puts build a branch without a value at the root. */
  lemma EmptyingPuts(v: Value)
    ensures TrieOf(Emptying(v)[..2]) == Branch(NoChildren()[1 := Leaf([2], v)][3 := Leaf([4], v)], None)
  {
    NibblesAt([0x12], 0);
    NibblesAt([0x34], 0);
    var ops := Emptying(v);
    assert ops[..1] == [] + [ops[0]] && ops[..2] == ops[..1] + [ops[1]];
    TrieAfter([], ops[0]);
    TrieAfter(ops[..1], ops[1]);
    var a: Key, b: Key := [1, 2], [3, 4];
    assert MatchingLength(a, b) == 0 && a[..0] == [] && b[0..] == b && a[1..] == [2] && b[1..] == [4];
  }

  /** The whole trie is gone, although the plain map still holds both keys. */
  lemma EmptyKeyTakesAll(v: Value)
    ensures TrieOf(Emptying(v)) == Empty
    ensures PlainMap(Emptying(v)) == map[[0x12] := v, [0x34] := v]
  {
    EmptyingPuts(v);
    var ops := Emptying(v);
    assert ops == ops[..2] + [ops[2]];
    TrieAfter(ops[..2], ops[2]);
    EmptyingMap(v);
  }

  lemma EmptyingMap(v: Value)
    ensures PlainMap(Emptying(v)) == map[[0x12] := v, [0x34] := v]
  {
    var ops, m := Emptying(v), PlainMap(Emptying(v)[..2]);
    assert ops[..1] == [ops[0]] && ops[..2][..1] == ops[..1];
    assert PlainMap(ops[..1]) == map[[0x12] := v];
    assert m == map[[0x12] := v, [0x34] := v] && m - {[]} == m;
  }

  /** No branch has a value here: a trie in normal form is enough for the condition to fail. */
  lemma EmptyKeyUnderNormalForm(v: Value)
    ensures MptCanonical.Normal(TrieOf(Emptying(v)[..2])) && !DeletesExactly(TrieOf(Emptying(v)[..2]), [])
  {
    EmptyingPuts(v);
    NoChildrenCount();
    CountUpdate(NoChildren(), 1, Leaf([2], v));
    CountUpdate(NoChildren()[1 := Leaf([2], v)], 3, Leaf([4], v));
  }
}
