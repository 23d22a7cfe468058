/**
  The access witness on values: committed stems and chunks under caches that a revert drops.
  Reads and writes are charged when first recorded; the laws relate what was charged to what
  is recorded.
*/
module WitnessModel {
  import opened Wrappers
  import opened EvmTypes
  import opened Sums

  const BRANCH_READ_COST: nat := 1900
  const CHUNK_READ_COST: nat := 200
  const BRANCH_WRITE_COST: nat := 3000
  const CHUNK_WRITE_COST: nat := 500
  const CHUNK_FILL_COST: nat := 6200

  datatype Stem = Stem(address: Addr, treeIndex: nat, write: bool)

  datatype Chunk = Chunk(write: bool, fill: bool)

  type Stems = map<Bytes, Stem>

  type Chunks = map<Bytes, Chunk>

  datatype Witness = Witness(stems: Stems, chunks: Chunks, stemCache: Stems, chunkCache: Chunks)

  datatype Flags = Flags(stemRead: bool, stemWrite: bool, chunkRead: bool, chunkWrite: bool, chunkFill: bool)

  /** One access: the position and the stem it is stored under. */
  datatype Access = Access(stem: Bytes, address: Addr, treeIndex: nat, subIndex: Byte, isWrite: bool)

  function ChunkKey(stem: Bytes, sub: Byte): Bytes {
    stem + [sub]
  }

  /** All but the last byte of a chunk's key. */
  function StemKey(key: Bytes): Bytes {
    if key == [] then [] else key[..|key|-1]
  }

  // ----- touching -----

  /** The entry where it lives: the cache first, then what is committed; new ones are cached. */
  function Entry<V>(committed: map<Bytes, V>, cache: map<Bytes, V>, k: Bytes): Option<V> {
    if k in cache then Some(cache[k]) else if k in committed then Some(committed[k]) else None
  }

  /** A write flag goes straight into the entry, be it cached or committed. */
  function Put<V>(committed: map<Bytes, V>, cache: map<Bytes, V>, k: Bytes, v: V): (map<Bytes, V>, map<Bytes, V>) {
    if k in committed && k !in cache then (committed[k := v], cache) else (committed, cache[k := v])
  }

  function StemTouched(found: Option<Stem>, a: Access): Stem {
    if found.Some? then found.value.(write := found.value.write || a.isWrite)
    else Stem(a.address, a.treeIndex, a.isWrite)
  }

  function ChunkTouched(found: Option<Chunk>, a: Access): Chunk {
    if found.Some? then found.value.(write := found.value.write || a.isWrite) else Chunk(a.isWrite, false)
  }

  function StemsTouched(stems: Stems, cache: Stems, a: Access): (Stems, Stems) {
    Put(stems, cache, a.stem, StemTouched(Entry(stems, cache, a.stem), a))
  }

  function ChunksTouched(chunks: Chunks, cache: Chunks, a: Access): (Chunks, Chunks) {
    var k := ChunkKey(a.stem, a.subIndex);
    Put(chunks, cache, k, ChunkTouched(Entry(chunks, cache, k), a))
  }

  /** Making the entry first and marking it then comes to the same. */
  lemma StemMarkedIsTouched(stems: Stems, cache: Stems, a: Access)
    ensures var found := Entry(stems, cache, a.stem);
            var made := if found.None? then cache[a.stem := Stem(a.address, a.treeIndex, false)] else cache;
            var entry := Entry(stems, made, a.stem).value;
            StemsTouched(stems, cache, a) ==
              if a.isWrite && !entry.write then Put(stems, made, a.stem, entry.(write := true)) else (stems, made)
  {
    var k := a.stem;
    if k in cache {
      assert cache[k := cache[k]] == cache;
    } else if k in stems {
      assert stems[k := stems[k]] == stems;
    } else {
      assert cache[k := Stem(a.address, a.treeIndex, false)][k := Stem(a.address, a.treeIndex, true)] ==
             cache[k := Stem(a.address, a.treeIndex, true)];
    }
  }

  /** Making the entry first and marking it then comes to the same. */
  lemma ChunkMarkedIsTouched(chunks: Chunks, cache: Chunks, a: Access)
    ensures var found := Entry(chunks, cache, ChunkKey(a.stem, a.subIndex));
            var made := if found.None? then cache[ChunkKey(a.stem, a.subIndex) := Chunk(false, false)] else cache;
            var entry := Entry(chunks, made, ChunkKey(a.stem, a.subIndex)).value;
            ChunksTouched(chunks, cache, a) ==
              if a.isWrite && !entry.write then Put(chunks, made, ChunkKey(a.stem, a.subIndex), entry.(write := true))
              else (chunks, made)
  {
    var k := ChunkKey(a.stem, a.subIndex);
    if k in cache {
      assert cache[k := cache[k]] == cache;
    } else if k in chunks {
      assert chunks[k := chunks[k]] == chunks;
    } else {
      assert cache[k := Chunk(false, false)][k := Chunk(true, false)] == cache[k := Chunk(true, false)];
    }
  }

  function Touched(w: Witness, a: Access): Witness {
    var s, c := StemsTouched(w.stems, w.stemCache, a), ChunksTouched(w.chunks, w.chunkCache, a);
    Witness(s.0, c.0, s.1, c.1)
  }

  function FlagsOf(w: Witness, a: Access): Flags {
    var s, c := Entry(w.stems, w.stemCache, a.stem), Entry(w.chunks, w.chunkCache, ChunkKey(a.stem, a.subIndex));
    Flags(s.None?, a.isWrite && !(s.Some? && s.value.write), c.None?, a.isWrite && !(c.Some? && c.value.write), false)
  }

  function GasOf(f: Flags): nat {
    (if f.stemRead then BRANCH_READ_COST else 0) + (if f.stemWrite then BRANCH_WRITE_COST else 0)
    + (if f.chunkRead then CHUNK_READ_COST else 0) + (if f.chunkWrite then CHUNK_WRITE_COST else 0)
    + (if f.chunkFill then CHUNK_FILL_COST else 0)
  }

  function Committed(w: Witness): Witness {
    Witness(w.stems + w.stemCache, w.chunks + w.chunkCache, map[], map[])
  }

  function Reverted(w: Witness): Witness {
    w.(stemCache := map[], chunkCache := map[])
  }

  // ----- what is recorded, and its cost -----

  function StemCost(s: Stem): int {
    BRANCH_READ_COST + if s.write then BRANCH_WRITE_COST else 0
  }

  function ChunkCost(c: Chunk): int {
    CHUNK_READ_COST + if c.write then CHUNK_WRITE_COST else 0
  }

  /** The cost of everything recorded, cached or committed. */
  ghost function Cost(w: Witness): int {
    Sum(w.stems + w.stemCache, StemCost) + Sum(w.chunks + w.chunkCache, ChunkCost)
  }

  /** The cost of what only the caches hold. */
  ghost function CacheCost(w: Witness): int {
    Sum(w.stemCache, StemCost) + Sum(w.chunkCache, ChunkCost)
  }

  // ----- what holds of every witness -----

  /** No key is both cached and committed. */
  ghost predicate Separate(w: Witness) {
    w.stems.Keys !! w.stemCache.Keys && w.chunks.Keys !! w.chunkCache.Keys
  }

  /** Every committed chunk has a committed stem, and every cached chunk a stem of either kind. */
  ghost predicate Rooted(w: Witness) {
    forall k {:trigger RootedAt(w, k)} :: RootedAt(w, k)
  }

  ghost predicate RootedAt(w: Witness, k: Bytes) {
    && (k in w.chunks ==> k != [] && StemKey(k) in w.stems)
    && (k in w.chunkCache ==> k != [] && (StemKey(k) in w.stems || StemKey(k) in w.stemCache))
  }

  /** Every recorded stem is kept under the key that its address and index hash to. */
  ghost predicate Hashed(w: Witness, stemOf: (Addr, nat) -> Bytes) {
    forall k {:trigger HashedAt(w, stemOf, k)} :: HashedAt(w, stemOf, k)
  }

  ghost predicate HashedAt(w: Witness, stemOf: (Addr, nat) -> Bytes, k: Bytes) {
    && (k in w.stems ==> stemOf(w.stems[k].address, w.stems[k].treeIndex) == k)
    && (k in w.stemCache ==> stemOf(w.stemCache[k].address, w.stemCache[k].treeIndex) == k)
  }

  lemma EndKeepsHashed(w: Witness, stemOf: (Addr, nat) -> Bytes)
    requires Hashed(w, stemOf)
    ensures Hashed(Committed(w), stemOf) && Hashed(Reverted(w), stemOf)
  {
    forall k ensures HashedAt(Committed(w), stemOf, k) && HashedAt(Reverted(w), stemOf, k) {
      assert HashedAt(w, stemOf, k);
    }
  }

  lemma TouchKeepsHashed(w: Witness, stemOf: (Addr, nat) -> Bytes, a: Access)
    requires Hashed(w, stemOf) && a.stem == stemOf(a.address, a.treeIndex)
    ensures Hashed(Touched(w, a), stemOf)
  {
    assert HashedAt(w, stemOf, a.stem);
    forall k ensures HashedAt(Touched(w, a), stemOf, k) {
      assert HashedAt(w, stemOf, k);
    }
  }

  lemma TouchKeeps(w: Witness, a: Access)
    ensures Separate(w) ==> Separate(Touched(w, a))
    ensures Rooted(w) ==> Rooted(Touched(w, a))
  {
    assert StemKey(ChunkKey(a.stem, a.subIndex)) == a.stem;
    if Rooted(w) {
      forall k ensures RootedAt(Touched(w, a), k) {
        assert RootedAt(w, k);
      }
    }
  }

  lemma PutCost<V>(committed: map<Bytes, V>, cache: map<Bytes, V>, cost: V -> int, k: Bytes, v: V)
    ensures var (m, n) := Put(committed, cache, k, v);
            var found := Entry(committed, cache, k);
            Sum(m + n, cost) == Sum(committed + cache, cost) - (if found.Some? then cost(found.value) else 0) + cost(v)
  {
    var (m, n) := Put(committed, cache, k, v);
    assert m + n == (committed + cache)[k := v];
    SumPut(committed + cache, cost, k, v);
  }

  /** A touch is charged exactly what it adds to the record. */
  lemma TouchCharges(w: Witness, a: Access)
    ensures Cost(Touched(w, a)) == Cost(w) + GasOf(FlagsOf(w, a))
  {
    var k := ChunkKey(a.stem, a.subIndex);
    PutCost(w.stems, w.stemCache, StemCost, a.stem, StemTouched(Entry(w.stems, w.stemCache, a.stem), a));
    PutCost(w.chunks, w.chunkCache, ChunkCost, k, ChunkTouched(Entry(w.chunks, w.chunkCache, k), a));
  }

  /** What is recorded at a key is what was. */
  predicate OtherKept<V(==)>(before: (map<Bytes, V>, map<Bytes, V>), now: (map<Bytes, V>, map<Bytes, V>), k: Bytes) {
    Entry(now.0, now.1, k) == Entry(before.0, before.1, k)
  }

  /**
    A touch records its stem and chunk, as written if it is a write or they were; a new entry is
    cached, nothing else changes, and no entry moves between cache and record.
  */
  lemma TouchRecords(w: Witness, a: Access)
    ensures var t, k := Touched(w, a), ChunkKey(a.stem, a.subIndex);
            var s, s', c, c' := Entry(w.stems, w.stemCache, a.stem), Entry(t.stems, t.stemCache, a.stem),
                                Entry(w.chunks, w.chunkCache, k), Entry(t.chunks, t.chunkCache, k);
            && s'.Some? && (s'.value.write <==> a.isWrite || (s.Some? && s.value.write))
            && s'.value.address == (if s.Some? then s.value.address else a.address)
            && s'.value.treeIndex == (if s.Some? then s.value.treeIndex else a.treeIndex)
            && c'.Some? && (c'.value.write <==> a.isWrite || (c.Some? && c.value.write))
            && t.stems.Keys == w.stems.Keys && t.chunks.Keys == w.chunks.Keys
            && (forall j :: j != a.stem ==> OtherKept((w.stems, w.stemCache), (t.stems, t.stemCache), j))
            && (forall j :: j != k ==> OtherKept((w.chunks, w.chunkCache), (t.chunks, t.chunkCache), j))
  {
  }

  lemma CommitKeeps(w: Witness)
    ensures Cost(Committed(w)) == Cost(w) && Separate(Committed(w)) && (Rooted(w) ==> Rooted(Committed(w)))
  {
    assert w.stems + w.stemCache + map[] == w.stems + w.stemCache;
    assert w.chunks + w.chunkCache + map[] == w.chunks + w.chunkCache;
    if Rooted(w) {
      forall k ensures RootedAt(Committed(w), k) {
        assert RootedAt(w, k);
      }
    }
  }

  lemma RevertKeepsRooted(w: Witness)
    ensures Rooted(w) ==> Rooted(Reverted(w))
  {
    if Rooted(w) {
      forall k ensures RootedAt(Reverted(w), k) {
        assert RootedAt(w, k);
      }
    }
  }

  /** A revert forgets what the caches hold, and nothing of what was committed. */
  lemma RevertKeeps(w: Witness)
    requires Separate(w)
    ensures Cost(Reverted(w)) == Cost(w) - CacheCost(w) && Separate(Reverted(w)) && (Rooted(w) ==> Rooted(Reverted(w)))
  {
    SumJoin(w.stems, w.stemCache, StemCost);
    SumJoin(w.chunks, w.chunkCache, ChunkCost);
    assert w.stems + map[] == w.stems && w.chunks + map[] == w.chunks;
    RevertKeepsRooted(w);
  }

  /** What holds of a witness between its operations; the keys are apart unless a merge hid some. */
  ghost predicate Sane(w: Witness, stemOf: (Addr, nat) -> Bytes, settled: bool) {
    Rooted(w) && Hashed(w, stemOf) && (settled ==> Separate(w))
  }

  lemma TouchKeepsSane(w: Witness, stemOf: (Addr, nat) -> Bytes, settled: bool, a: Access)
    requires Sane(w, stemOf, settled) && a.stem == stemOf(a.address, a.treeIndex)
    ensures Sane(Touched(w, a), stemOf, settled)
  {
    TouchKeeps(w, a);
    TouchKeepsHashed(w, stemOf, a);
  }

  lemma EndKeepsSane(w: Witness, stemOf: (Addr, nat) -> Bytes, settled: bool)
    requires Sane(w, stemOf, settled)
    ensures Sane(Committed(w), stemOf, true) && Sane(Reverted(w), stemOf, true)
  {
    CommitKeeps(w);
    RevertKeepsRooted(w);
    EndKeepsHashed(w, stemOf);
  }

  // ----- runs -----

  datatype Op = Touch(address: Addr, treeIndex: nat, subIndex: Byte, isWrite: bool) | Commit | Revert

  const FRESH := Witness(map[], map[], map[], map[])

  /** A touch under the stem that its address and index hash to. */
  function AccessOf(stemOf: (Addr, nat) -> Bytes, op: Op): Access
    requires op.Touch?
  {
    Access(stemOf(op.address, op.treeIndex), op.address, op.treeIndex, op.subIndex, op.isWrite)
  }

  /** The witness after a run, the gas charged on the way, and the cost of what reverts forgot. */
  ghost function After(stemOf: (Addr, nat) -> Bytes, ops: seq<Op>): (Witness, int, int) {
    if ops == [] then (FRESH, 0, 0)
    else
      var (w, charged, forgotten) := After(stemOf, ops[..|ops|-1]);
      var op := ops[|ops|-1];
      match op
      case Touch(_, _, _, _) =>
        var a := AccessOf(stemOf, op); (Touched(w, a), charged + GasOf(FlagsOf(w, a)), forgotten)
      case Commit => (Committed(w), charged, forgotten)
      case Revert => (Reverted(w), charged, forgotten + CacheCost(w))
  }

  /**
    Over every run the gas charged is the cost of what is recorded plus the cost of what
    reverts forgot; every recorded chunk has its stem, and every stem is kept under its hash.
  */
  lemma {:induction false} ChargedForRecord(stemOf: (Addr, nat) -> Bytes, ops: seq<Op>)
    ensures var (w, charged, forgotten) := After(stemOf, ops);
            && Separate(w) && Rooted(w) && Hashed(w, stemOf)
            && charged == Cost(w) + forgotten && forgotten >= 0
  {
    if ops != [] {
      var init, op := ops[..|ops|-1], ops[|ops|-1];
      ChargedForRecord(stemOf, init);
      var w := After(stemOf, init).0;
      match op
      case Touch(_, _, _, _) =>
        TouchKeeps(w, AccessOf(stemOf, op));
        TouchCharges(w, AccessOf(stemOf, op));
        TouchKeepsHashed(w, stemOf, AccessOf(stemOf, op));
      case Commit => CommitKeeps(w); EndKeepsHashed(w, stemOf);
      case Revert => RevertKeeps(w); CostNotNegative(w); EndKeepsHashed(w, stemOf);
    }
  }

  lemma CostNotNegative(w: Witness)
    ensures CacheCost(w) >= 0
  {
    SumNotNegative(w.stemCache, StemCost);
    SumNotNegative(w.chunkCache, ChunkCost);
  }

  /** Without reverts nothing is forgotten: each read and each write is charged once. */
  lemma {:induction false} ChargedOnce(stemOf: (Addr, nat) -> Bytes, ops: seq<Op>)
    requires Revert !in ops
    ensures After(stemOf, ops).1 == Cost(After(stemOf, ops).0) && After(stemOf, ops).2 == 0
  {
    ChargedForRecord(stemOf, ops);
    if ops != [] {
      ChargedOnce(stemOf, ops[..|ops|-1]);
    }
  }

  /** What was charged covers the committed record alone. */
  lemma ChargedCoversCommitted(stemOf: (Addr, nat) -> Bytes, ops: seq<Op>)
    ensures var (w, charged, forgotten) := After(stemOf, ops);
            charged >= Sum(w.stems, StemCost) + Sum(w.chunks, ChunkCost)
  {
    var w := After(stemOf, ops).0;
    ChargedForRecord(stemOf, ops);
    CostNotNegative(w);
    SumJoin(w.stems, w.stemCache, StemCost);
    SumJoin(w.chunks, w.chunkCache, ChunkCost);
  }

  // ----- merging -----

  /** The stems of another witness's committed chunks. */
  function StemKeys(chunks: Chunks): set<Bytes> {
    set k | k in chunks :: StemKey(k)
  }

  /** Entries of the other under these keys are added; where both have one, writes are joined. */
  ghost predicate MergedStems(mine: Stems, other: Stems, keys: set<Bytes>, r: Stems) {
    && keys <= other.Keys && r.Keys == mine.Keys + keys
    && forall k :: k in r ==>
         r[k] == if k in mine && k in keys then mine[k].(write := mine[k].write || other[k].write)
                 else if k in mine then mine[k]
                 else other[k]
  }

  ghost predicate MergedChunks(mine: Chunks, other: Chunks, keys: set<Bytes>, r: Chunks) {
    && keys <= other.Keys && r.Keys == mine.Keys + keys
    && forall k :: k in r ==>
         r[k] == if k in mine && k in keys then mine[k].(write := mine[k].write || other[k].write)
                 else if k in mine then mine[k]
                 else other[k]
  }

  /** All committed chunks of the other are merged, with their stems. */
  ghost predicate Merged(w: Witness, other: Witness, m: Witness) {
    && m.stemCache == w.stemCache && m.chunkCache == w.chunkCache
    && MergedStems(w.stems, other.stems, StemKeys(other.chunks), m.stems)
    && MergedChunks(w.chunks, other.chunks, other.chunks.Keys, m.chunks)
  }

  function JoinStem(stems: Stems, k: Bytes, v: Stem): Stems {
    stems[k := if k in stems then stems[k].(write := stems[k].write || v.write) else v]
  }

  function JoinChunk(chunks: Chunks, k: Bytes, v: Chunk): Chunks {
    chunks[k := if k in chunks then chunks[k].(write := chunks[k].write || v.write) else v]
  }

  /** Joining one more stem, or the same one again. */
  lemma MergeStem(mine: Stems, other: Stems, keys: set<Bytes>, r: Stems, k: Bytes)
    requires MergedStems(mine, other, keys, r) && k in other
    ensures MergedStems(mine, other, keys + {k}, JoinStem(r, k, other[k]))
  {
  }

  lemma MergeChunk(mine: Chunks, other: Chunks, keys: set<Bytes>, r: Chunks, k: Bytes)
    requires MergedChunks(mine, other, keys, r) && k in other
    ensures MergedChunks(mine, other, keys + {k}, JoinChunk(r, k, other[k]))
  {
  }

  /** Merging is done for the other's chunks but those still to do, and for their stems. */
  ghost predicate PartMerged(w: Witness, other: Witness, todo: set<Bytes>, stems: Stems, chunks: Chunks) {
    var done := other.chunks.Keys - todo;
    && todo <= other.chunks.Keys
    && MergedStems(w.stems, other.stems, set k | k in done :: StemKey(k), stems)
    && MergedChunks(w.chunks, other.chunks, done, chunks)
  }

  lemma MergeNone(w: Witness, other: Witness)
    ensures PartMerged(w, other, other.chunks.Keys, w.stems, w.chunks)
  {
    assert other.chunks.Keys - other.chunks.Keys == {};
  }

  lemma MergeNext(w: Witness, other: Witness, todo: set<Bytes>, stems: Stems, chunks: Chunks, k: Bytes)
    requires PartMerged(w, other, todo, stems, chunks) && k in todo && StemKey(k) in other.stems
    ensures PartMerged(w, other, todo - {k},
              JoinStem(stems, StemKey(k), other.stems[StemKey(k)]), JoinChunk(chunks, k, other.chunks[k]))
  {
    var done := other.chunks.Keys - todo;
    var keys := set j | j in done :: StemKey(j);
    assert other.chunks.Keys - (todo - {k}) == done + {k};
    assert (set j | j in done + {k} :: StemKey(j)) == keys + {StemKey(k)};
    MergeStem(w.stems, other.stems, keys, stems, StemKey(k));
    MergeChunk(w.chunks, other.chunks, done, chunks, k);
  }

  lemma MergeComplete(w: Witness, other: Witness, stems: Stems, chunks: Chunks)
    requires PartMerged(w, other, {}, stems, chunks)
    ensures Merged(w, other, w.(stems := stems, chunks := chunks))
  {
    var done := other.chunks.Keys - {};
    assert done == other.chunks.Keys && (set j | j in done :: StemKey(j)) == StemKeys(other.chunks);
  }

  lemma MergeKeepsRooted(w: Witness, other: Witness, m: Witness)
    requires Merged(w, other, m) && Rooted(w) && Rooted(other)
    ensures Rooted(m)
  {
    forall k ensures RootedAt(m, k) {
      assert RootedAt(w, k) && RootedAt(other, k);
      if k in other.chunks { assert StemKey(k) in StemKeys(other.chunks); }
    }
  }

  lemma MergeKeepsHashed(w: Witness, other: Witness, m: Witness, stemOf: (Addr, nat) -> Bytes)
    requires Merged(w, other, m) && Hashed(w, stemOf) && Hashed(other, stemOf)
    ensures Hashed(m, stemOf)
  {
    forall k ensures HashedAt(m, stemOf, k) {
      assert HashedAt(w, stemOf, k) && HashedAt(other, stemOf, k);
    }
  }

  /** No committed key of the other is cached here. */
  ghost predicate Unhidden(w: Witness, other: Witness) {
    StemKeys(other.chunks) !! w.stemCache.Keys && other.chunks.Keys !! w.chunkCache.Keys
  }

  /** Cached and committed keys stay apart exactly when no merged key is cached. */
  lemma MergeKeepsSeparate(w: Witness, other: Witness, m: Witness)
    requires Merged(w, other, m) && Separate(w)
    ensures Separate(m) <==> Unhidden(w, other)
  {
  }

  lemma MergeKeepsSane(w: Witness, other: Witness, m: Witness, stemOf: (Addr, nat) -> Bytes, settled: bool,
                       settled': bool)
    requires Merged(w, other, m) && Sane(w, stemOf, settled) && Sane(other, stemOf, settled')
    ensures Sane(m, stemOf, settled && Unhidden(w, other))
  {
    MergeKeepsRooted(w, other, m);
    MergeKeepsHashed(w, other, m, stemOf);
    if settled { MergeKeepsSeparate(w, other, m); }
  }

  /** A commit keeps every write that is committed. */
  ghost predicate WritesKept(m: Witness) {
    && (forall k :: k in m.stems && m.stems[k].write ==> Committed(m).stems[k].write)
    && (forall k :: k in m.chunks && m.chunks[k].write ==> Committed(m).chunks[k].write)
  }

  /**
    After a merge the next commit keeps every write if and only if each write of the other
    under a key that is cached here is also a write of the cached entry.
  */
  lemma MergeThenCommitKeeps(w: Witness, other: Witness, m: Witness)
    requires Merged(w, other, m) && Separate(w)
    ensures WritesKept(m) <==>
            && (forall k :: k in w.stemCache && k in StemKeys(other.chunks) && other.stems[k].write ==>
              w.stemCache[k].write)
            && (forall k :: k in w.chunkCache && k in other.chunks && other.chunks[k].write ==> w.chunkCache[k].write)
  {
    forall k | k in w.stemCache && k in StemKeys(other.chunks)
      ensures k in m.stems && m.stems[k] == other.stems[k] && Committed(m).stems[k] == w.stemCache[k] {
    }
    forall k | k in w.chunkCache && k in other.chunks
      ensures k in m.chunks && m.chunks[k] == other.chunks[k] && Committed(m).chunks[k] == w.chunkCache[k] {
    }
  }

  /** Whatever is read and still cached hides the merged write, which the commit then overwrites. */
  lemma MergeThenCommitMayForget(a: Access)
    requires !a.isWrite
    ensures var w, other := Touched(FRESH, a), Committed(Touched(FRESH, a.(isWrite := true)));
            var m := Witness(other.stems, other.chunks, w.stemCache, w.chunkCache);
            Merged(w, other, m) && !WritesKept(m)
  {
    var w, other := Touched(FRESH, a), Committed(Touched(FRESH, a.(isWrite := true)));
    var m := Witness(other.stems, other.chunks, w.stemCache, w.chunkCache);
    var k := ChunkKey(a.stem, a.subIndex);
    assert StemKey(k) == a.stem;
    assert m.chunks[k].write && !Committed(m).chunks[k].write;
  }

  // ----- positions in the tree -----

  const NODE_WIDTH: nat := 256
  const HEADER_STORAGE_OFFSET: nat := 64
  const CODE_OFFSET: nat := 128
  const MAIN_STORAGE_OFFSET: nat := 0x1_0000_0000_0000_0000_0000_0000_0000_0000_0000_0000_0000_0000_0000_0000_0000_00

  /** Up to here every integer is a double-precision number. */
  const SAFE: nat := 0x20_0000_0000_0000

  /** The number nearest to an integer, of two the one whose last bit is not set. */
  function Nearest(n: nat): nat {
    Rounded(n, false, false)
  }

  /** The same for leading bits, when the bit dropped last is `half` and any before it was set for `below`. */
  function Rounded(n: nat, half: bool, below: bool): nat {
    if n >= SAFE then 2 * Rounded(n / 2, n % 2 == 1, half || below)
    else if half && (below || n % 2 == 1) then n + 1
    else n
  }

  function Number(x: int): int {
    if x >= 0 then Nearest(x) else 0 - Nearest(-x)
  }

  datatype AccessedState = BasicData | CodeHash | Storage(slot: nat) | Code(codeOffset: int)

  /** The offset in the code of the chunk at a position, in floating-point arithmetic. */
  function OffsetAt(position: nat): int {
    Number(Number(Number(position) - CODE_OFFSET) * 31)
  }

  /** What an index pair stands for; nothing is stored between the header fields and the slots. */
  function DecodeAccess(treeIndex: nat, chunkIndex: nat): Option<AccessedState>
  {
    var position := treeIndex * NODE_WIDTH + chunkIndex;
    if position == 0 then Some(BasicData)
    else if position == 1 then Some(CodeHash)
    else if position < HEADER_STORAGE_OFFSET then None
    else if position < CODE_OFFSET then Some(Storage(position - HEADER_STORAGE_OFFSET))
    else if position < MAIN_STORAGE_OFFSET then Some(Code(OffsetAt(position)))
    else Some(Storage(position - MAIN_STORAGE_OFFSET))
  }

  function SlotPosition(slot: nat): nat {
    if slot < CODE_OFFSET - HEADER_STORAGE_OFFSET then HEADER_STORAGE_OFFSET + slot else MAIN_STORAGE_OFFSET + slot
  }

  function IndicesForStorageSlot(slot: nat): (nat, nat) {
    var position := SlotPosition(slot);
    (position / NODE_WIDTH, position % NODE_WIDTH)
  }

  function IndicesForCodeChunk(chunkId: nat): (nat, nat) {
    var position := Nearest(CODE_OFFSET + chunkId);
    (position / NODE_WIDTH, position % NODE_WIDTH)
  }

  /** From there on numbers are even. */
  lemma NearestEven(n: nat)
    requires n >= SAFE
    ensures Nearest(n) % 2 == 0
  {
  }

  /** Every integer up to the bound is a number, and every even one up to its double. */
  lemma NearestTo(n: nat)
    requires n < 2 * SAFE
    ensures Nearest(n) == n <==> n < SAFE || n % 2 == 0
    ensures n - 1 <= Nearest(n) <= n + 1
  {
    if n >= SAFE {
      assert Rounded(n / 2, n % 2 == 1, false) == if n % 2 == 1 && n / 2 % 2 == 1 then n / 2 + 1 else n / 2;
    }
  }

  lemma IndicesJoin(position: nat)
    ensures position / NODE_WIDTH * NODE_WIDTH + position % NODE_WIDTH == position
  {
  }

  /** Storage slots read back as themselves. */
  lemma SlotsReadBack(slot: nat)
    ensures var (t, i) := IndicesForStorageSlot(slot); DecodeAccess(t, i) == Some(Storage(slot)) && i < NODE_WIDTH
  {
    IndicesJoin(SlotPosition(slot));
  }

  /** The offset that is computed from the position of a chunk. */
  lemma OffsetReadBack(chunkId: nat)
    requires chunkId <= SAFE
    ensures var p := Nearest(CODE_OFFSET + chunkId);
            && CODE_OFFSET <= p < MAIN_STORAGE_OFFSET
            && (OffsetAt(p) == chunkId * 31 <==> Nearest(chunkId * 31) == chunkId * 31)
  {
    var c := CODE_OFFSET + chunkId;
    var p := Nearest(c);
    NearestTo(c);
    NearestTo(p);
    var d: int := p - CODE_OFFSET;
    assert Number(p) == p && 0 <= d <= SAFE by {
      if c >= SAFE { NearestEven(c); }
    }
    NearestTo(d);
    assert Number(d) == d;
    if d != chunkId {
      assert c > SAFE && chunkId * 31 % 2 == 1;
      NearestEven(d * 31);
      NearestEven(chunkId * 31);
    }
  }

  /** A code chunk reads back as its offset exactly if that offset is a number. */
  lemma ChunksReadBack(chunkId: nat)
    requires chunkId <= SAFE
    ensures var (t, i) := IndicesForCodeChunk(chunkId);
            DecodeAccess(t, i) == Some(Code(chunkId * 31)) <==> Nearest(chunkId * 31) == chunkId * 31
    ensures chunkId * 31 <= SAFE ==> Nearest(chunkId * 31) == chunkId * 31
  {
    OffsetReadBack(chunkId);
    var p := Nearest(CODE_OFFSET + chunkId);
    IndicesJoin(p);
    if chunkId * 31 <= SAFE { NearestTo(chunkId * 31); }
  }
}
