/**
  The access witness as it is kept: maps to shared mutable entries.  A write flag set on an
  entry shows wherever the entry is referenced, so committed entries change under a later
  touch; each method is proved against the witness on values.
*/
module AccessWitness {
  import opened Wrappers
  import opened EvmTypes
  import opened WitnessModel

  datatype RawAccess = RawAccess(address: Addr, treeIndex: nat, chunkIndex: Byte, chunkKey: Bytes)

  ghost function KeysOf(accesses: seq<RawAccess>): set<Bytes> {
    if accesses == [] then {} else KeysOf(accesses[..|accesses|-1]) + {accesses[|accesses|-1].chunkKey}
  }

  /** The key is made of what is reported for it. */
  predicate Faithful(r: RawAccess, stemOf: (Addr, nat) -> Bytes) {
    r.chunkKey == ChunkKey(stemOf(r.address, r.treeIndex), r.chunkIndex)
  }

  /** These chunks are reported, each once and faithfully. */
  ghost predicate Listed(accesses: seq<RawAccess>, keys: set<Bytes>, stemOf: (Addr, nat) -> Bytes)
  {
    && KeysOf(accesses) == keys && |accesses| == |keys|
    && forall i :: 0 <= i < |accesses| ==> Faithful(accesses[i], stemOf)
  }

  lemma OneLess(keys: set<Bytes>, todo: set<Bytes>, k: Bytes)
    requires todo <= keys && k in todo
    ensures keys - (todo - {k}) == keys - todo + {k} && |keys - (todo - {k})| == |keys - todo| + 1
  {
    assert keys - (todo - {k}) == keys - todo + {k};
  }

  lemma ListedNext(accesses: seq<RawAccess>, keys: set<Bytes>, todo: set<Bytes>, stemOf: (Addr, nat) -> Bytes,
                   r: RawAccess)
    requires todo <= keys && Listed(accesses, keys - todo, stemOf) && r.chunkKey in todo
    requires Faithful(r, stemOf)
    ensures Listed(accesses + [r], keys - (todo - {r.chunkKey}), stemOf)
  {
    OneLess(keys, todo, r.chunkKey);
    assert (accesses + [r])[..|accesses|] == accesses;
  }

  class StemEvent {
    ghost const key: Bytes
    const address: Addr
    const treeIndex: nat
    var write: bool
    /** Committed, so that other witnesses may hold it as well. */
    ghost var shared: bool

    constructor (ghost key: Bytes, address: Addr, treeIndex: nat)
      ensures this.key == key && this.address == address && this.treeIndex == treeIndex && !write && !shared
    {
      this.key, this.address, this.treeIndex, write, shared := key, address, treeIndex, false, false;
    }
  }

  class ChunkEvent {
    ghost const key: Bytes
    var write: bool
    var fill: bool
    ghost var shared: bool

    constructor (ghost key: Bytes)
      ensures this.key == key && !write && !fill && !shared
    {
      this.key, write, fill, shared := key, false, false, false;
    }
  }

  /** The entry under a key, if there is one, holds what is recorded and is referenced under no other key. */
  ghost predicate StemAt(m: map<Bytes, StemEvent>, v: Stems, entries: set<StemEvent>, shared: bool, k: Bytes)
    reads entries
  {
    k in m ==> (
      && k in v && m[k] in entries && m[k].key == k && m[k].shared == shared
      && v[k] == Stem(m[k].address, m[k].treeIndex, m[k].write))
  }

  ghost predicate StemsHold(m: map<Bytes, StemEvent>, v: Stems, entries: set<StemEvent>, shared: bool)
    reads entries
  {
    m.Keys == v.Keys && forall k {:trigger StemAt(m, v, entries, shared, k)} :: StemAt(m, v, entries, shared, k)
  }

  lemma StemsJoin(m: map<Bytes, StemEvent>, v: Stems, n: map<Bytes, StemEvent>, w: Stems, entries: set<StemEvent>)
    requires StemsHold(m, v, entries, true) && StemsHold(n, w, entries, true)
    ensures StemsHold(m + n, v + w, entries, true)
  {
    var both, all := m + n, v + w;
    forall k ensures StemAt(both, all, entries, true, k) {
      assert StemAt(m, v, entries, true, k) && StemAt(n, w, entries, true, k);
    }
  }

  lemma EmptyStems(entries: set<StemEvent>)
    ensures StemsHold(map[], map[], entries, false)
  {
    var none: map<Bytes, StemEvent>, nothing: Stems := map[], map[];
    forall k ensures StemAt(none, nothing, entries, false, k) { }
  }

  lemma StemsAdd(m: map<Bytes, StemEvent>, v: Stems, entries: set<StemEvent>, shared: bool, e: StemEvent, x: Stem)
    requires StemsHold(m, v, entries, shared) && e in entries && e.shared == shared
    requires x == Stem(e.address, e.treeIndex, e.write)
    ensures StemsHold(m[e.key := e], v[e.key := x], entries, shared)
  {
    var m', v' := m[e.key := e], v[e.key := x];
    forall k ensures StemAt(m', v', entries, shared, k) {
      assert StemAt(m, v, entries, shared, k);
    }
  }

  lemma StemsWiden(m: map<Bytes, StemEvent>, v: Stems, entries: set<StemEvent>, more: set<StemEvent>, shared: bool)
    requires StemsHold(m, v, entries, shared) && entries <= more
    ensures StemsHold(m, v, more, shared)
  {
    forall k ensures StemAt(m, v, more, shared, k) {
      assert StemAt(m, v, entries, shared, k);
    }
  }

  /** The entry under a key, if there is one, holds what is recorded and is referenced under no other key. */
  ghost predicate ChunkAt(m: map<Bytes, ChunkEvent>, v: Chunks, entries: set<ChunkEvent>, shared: bool, k: Bytes)
    reads entries
  {
    k in m ==> (
      && k in v && m[k] in entries && m[k].key == k && m[k].shared == shared
      && v[k] == Chunk(m[k].write, m[k].fill))
  }

  ghost predicate ChunksHold(m: map<Bytes, ChunkEvent>, v: Chunks, entries: set<ChunkEvent>, shared: bool)
    reads entries
  {
    m.Keys == v.Keys && forall k {:trigger ChunkAt(m, v, entries, shared, k)} :: ChunkAt(m, v, entries, shared, k)
  }

  lemma ChunksJoin(m: map<Bytes, ChunkEvent>, v: Chunks, n: map<Bytes, ChunkEvent>, w: Chunks, entries: set<ChunkEvent>)
    requires ChunksHold(m, v, entries, true) && ChunksHold(n, w, entries, true)
    ensures ChunksHold(m + n, v + w, entries, true)
  {
    var both, all := m + n, v + w;
    forall k ensures ChunkAt(both, all, entries, true, k) {
      assert ChunkAt(m, v, entries, true, k) && ChunkAt(n, w, entries, true, k);
    }
  }

  lemma EmptyChunks(entries: set<ChunkEvent>)
    ensures ChunksHold(map[], map[], entries, false)
  {
    var none: map<Bytes, ChunkEvent>, nothing: Chunks := map[], map[];
    forall k ensures ChunkAt(none, nothing, entries, false, k) { }
  }

  lemma ChunksAdd(m: map<Bytes, ChunkEvent>, v: Chunks, entries: set<ChunkEvent>, shared: bool, e: ChunkEvent, x: Chunk)
    requires ChunksHold(m, v, entries, shared) && e in entries && e.shared == shared && x == Chunk(e.write, e.fill)
    ensures ChunksHold(m[e.key := e], v[e.key := x], entries, shared)
  {
    var m', v' := m[e.key := e], v[e.key := x];
    forall k ensures ChunkAt(m', v', entries, shared, k) {
      assert ChunkAt(m, v, entries, shared, k);
    }
  }

  lemma ChunksWiden(m: map<Bytes, ChunkEvent>, v: Chunks, entries: set<ChunkEvent>, more: set<ChunkEvent>, shared: bool)
    requires ChunksHold(m, v, entries, shared) && entries <= more
    ensures ChunksHold(m, v, more, shared)
  {
    forall k ensures ChunkAt(m, v, more, shared, k) {
      assert ChunkAt(m, v, entries, shared, k);
    }
  }

  /** Each of these chunks has its stem, kept under its hash. */
  ghost predicate Readable(stems: map<Bytes, StemEvent>, keys: set<Bytes>, stemOf: (Addr, nat) -> Bytes) {
    forall k :: k in keys ==>
      k != [] && StemKey(k) in stems && stemOf(stems[StemKey(k)].address, stems[StemKey(k)].treeIndex) == StemKey(k)
  }

  method ReadAll(stems: map<Bytes, StemEvent>, keys: set<Bytes>, stemOf: (Addr, nat) -> Bytes)
    returns (accesses: seq<RawAccess>)
    requires Readable(stems, keys, stemOf)
    ensures Listed(accesses, keys, stemOf)
  {
    accesses := [];
    var todo := keys;
    while todo != {}
      invariant todo <= keys && Listed(accesses, keys - todo, stemOf)
      decreases |todo|
    {
      var chunkKey :| chunkKey in todo;
      var access := ReadOne(stems, keys, stemOf, chunkKey);
      ListedNext(accesses, keys, todo, stemOf, access);
      accesses := accesses + [access];
      todo := todo - {chunkKey};
    }
    assert keys - {} == keys;
  }

  method ReadOne(stems: map<Bytes, StemEvent>, ghost keys: set<Bytes>, ghost stemOf: (Addr, nat) -> Bytes,
                 chunkKey: Bytes)
    returns (access: RawAccess)
    requires Readable(stems, keys, stemOf) && chunkKey in keys
    ensures access.chunkKey == chunkKey && Faithful(access, stemOf)
  {
    var stemKey := StemKey(chunkKey);
    if stemKey !in stems {
      assert false;
    } else {
      var stem := stems[stemKey];
      access := RawAccess(stem.address, stem.treeIndex, chunkKey[|chunkKey|-1], chunkKey);
      assert ChunkKey(stemKey, access.chunkIndex) == chunkKey;
    }
  }

  class BinaryTreeAccessWitness {
    const stemOf: (Addr, nat) -> Bytes
    var stems: map<Bytes, StemEvent>
    var chunks: map<Bytes, ChunkEvent>
    var stemCache: map<Bytes, StemEvent>
    var chunkCache: map<Bytes, ChunkEvent>
    ghost var stemRecord: (Stems, Stems)
    ghost var chunkRecord: (Chunks, Chunks)
    ghost var stemEntries: set<StemEvent>
    ghost var chunkEntries: set<ChunkEvent>
    /** No entry that is cached hides a merged one. */
    ghost var settled: bool

    ghost predicate StemsKept()
      reads this`stems, this`stemCache, this`stemRecord, this`stemEntries, stemEntries
    {
      StemsHold(stems, stemRecord.0, stemEntries, true) && StemsHold(stemCache, stemRecord.1, stemEntries, false)
    }

    ghost predicate ChunksKept()
      reads this`chunks, this`chunkCache, this`chunkRecord, this`chunkEntries, chunkEntries
    {
      && ChunksHold(chunks, chunkRecord.0, chunkEntries, true)
      && ChunksHold(chunkCache, chunkRecord.1, chunkEntries, false)
    }

    /** The maps hold what is recorded. */
    ghost predicate Linked()
      reads this`stems, this`stemCache, this`stemRecord, this`stemEntries, stemEntries
      reads this`chunks, this`chunkCache, this`chunkRecord, this`chunkEntries, chunkEntries
    {
      StemsKept() && ChunksKept()
    }

    /** The values the entries hold. */
    ghost function Record(): Witness
      reads this`stemRecord, this`chunkRecord
    {
      Witness(stemRecord.0, chunkRecord.0, stemRecord.1, chunkRecord.1)
    }

    /** Every chunk has its stem, every stem is kept under its hash. */
    ghost predicate Valid()
      reads this, stemEntries, chunkEntries
    {
      Linked() && Sane(Record(), stemOf, settled)
    }

    constructor (stemOf: (Addr, nat) -> Bytes)
      ensures Valid() && Record() == FRESH && settled && this.stemOf == stemOf
      ensures stemEntries == {} && chunkEntries == {}
    {
      this.stemOf := stemOf;
      stems, chunks, stemCache, chunkCache := map[], map[], map[], map[];
      stemRecord, chunkRecord, stemEntries, chunkEntries := (map[], map[]), (map[], map[]), {}, {};
      settled := true;
    }

    // ----- touching -----

    /** Charge for whatever a touch records for the first time. */
    method TouchAddressAndComputeGas(address: Addr, treeIndex: nat, subIndex: Byte, isWrite: bool) returns (gas: nat)
      requires Valid()
      modifies this, stemEntries, chunkEntries
      ensures Valid() && settled == old(settled) && fresh(stemEntries - old(stemEntries))
      ensures fresh(chunkEntries - old(chunkEntries))
      ensures Record() ==
              Touched(old(Record()), Access(stemOf(address, treeIndex), address, treeIndex, subIndex, isWrite))
      ensures Cost(Record()) == Cost(old(Record())) + gas
    {
      TouchCharges(Record(), Access(stemOf(address, treeIndex), address, treeIndex, subIndex, isWrite));
      var flags := TouchAddress(address, treeIndex, subIndex, isWrite);
      gas := GasOf(flags);
    }

    method TouchAddress(address: Addr, treeIndex: nat, subIndex: Byte, isWrite: bool) returns (flags: Flags)
      requires Valid()
      modifies this, stemEntries, chunkEntries
      ensures Valid() && settled == old(settled) && fresh(stemEntries - old(stemEntries))
      ensures fresh(chunkEntries - old(chunkEntries))
      ensures var a := Access(stemOf(address, treeIndex), address, treeIndex, subIndex, isWrite);
              Record() == Touched(old(Record()), a) && flags == FlagsOf(old(Record()), a)
    {
      ghost var w := Record();
      var a := Access(stemOf(address, treeIndex), address, treeIndex, subIndex, isWrite);
      flags := TouchEntries(a);
      TouchKeepsSane(w, stemOf, settled, a);
    }

    method TouchEntries(a: Access) returns (flags: Flags)
      requires Linked()
      modifies this`stemCache, this`stemRecord, this`stemEntries, stemEntries
      modifies this`chunkCache, this`chunkRecord, this`chunkEntries, chunkEntries
      ensures Linked() && fresh(stemEntries - old(stemEntries)) && fresh(chunkEntries - old(chunkEntries))
      ensures Record() == Touched(old(Record()), a) && flags == FlagsOf(old(Record()), a)
    {
      var stemRead, stemWrite := TouchStem(a);
      var chunkRead, chunkWrite := TouchChunk(a);
      flags := Flags(stemRead, stemWrite, chunkRead, chunkWrite, false);
    }

    /** The entry for a touch, made and cached when there is none. */
    method FindStem(a: Access) returns (found: StemEvent, read: bool)
      requires StemsKept()
      modifies this`stemCache, this`stemRecord, this`stemEntries
      ensures StemsKept() && fresh(stemEntries - old(stemEntries)) && old(stemEntries) <= stemEntries
      ensures stems == old(stems)
      ensures a.stem in stemCache || a.stem in stems
      ensures found == (if a.stem in stemCache then stemCache[a.stem] else stems[a.stem]) && found.key == a.stem
      ensures found in stemEntries
      ensures var kept := Entry(stemRecord.0, stemRecord.1, a.stem); kept.Some? && found.write == kept.value.write
      ensures read == Entry(old(stemRecord).0, old(stemRecord).1, a.stem).None?
      ensures stemRecord ==
              if read then (old(stemRecord).0, old(stemRecord).1[a.stem := Stem(a.address, a.treeIndex, false)])
              else old(stemRecord)
    {
      read := false;
      var key := a.stem;
      assert StemAt(stems, stemRecord.0, stemEntries, true, key);
      assert StemAt(stemCache, stemRecord.1, stemEntries, false, key);
      if key in stemCache {
        found := stemCache[key];
      } else if key in stems {
        found := stems[key];
      } else {
        read := true;
        found := new StemEvent(key, a.address, a.treeIndex);
        StemsWiden(stems, stemRecord.0, stemEntries, stemEntries + {found}, true);
        StemsWiden(stemCache, stemRecord.1, stemEntries, stemEntries + {found}, false);
        stemEntries := stemEntries + {found};
        StemsAdd(stemCache, stemRecord.1, stemEntries, false, found, Stem(a.address, a.treeIndex, false));
        stemCache := stemCache[key := found];
        stemRecord := (stemRecord.0, stemRecord.1[key := Stem(a.address, a.treeIndex, false)]);
      }
    }

    /** Set the write flag of an entry, wherever it is referenced. */
    method MarkStem(found: StemEvent, ghost k: Bytes)
      requires StemsKept() && (k in stemCache || k in stems) && found.key == k
      requires found == if k in stemCache then stemCache[k] else stems[k]
      modifies this`stemRecord, found
      ensures StemsKept()
      ensures var v := Entry(old(stemRecord).0, old(stemRecord).1, k).value.(write := true);
              stemRecord == Put(old(stemRecord).0, old(stemRecord).1, k, v)
    {
      ghost var v, was := Entry(stemRecord.0, stemRecord.1, k).value.(write := true), stemRecord;
      assert StemAt(stems, stemRecord.0, stemEntries, true, k);
      assert StemAt(stemCache, stemRecord.1, stemEntries, false, k);
      stemRecord := Put(stemRecord.0, stemRecord.1, k, v);
      found.write := true;
      assert StemsHold(stems, stemRecord.0, stemEntries, true) by {
        forall j ensures StemAt(stems, stemRecord.0, stemEntries, true, j) {
          assert old(StemAt(stems, stemRecord.0, stemEntries, true, j));
        }
      }
      assert StemsHold(stemCache, stemRecord.1, stemEntries, false) by {
        forall j ensures StemAt(stemCache, stemRecord.1, stemEntries, false, j) {
          assert old(StemAt(stemCache, stemRecord.1, stemEntries, false, j));
        }
      }
    }

    method TouchStem(a: Access) returns (read: bool, write: bool)
      requires Linked()
      modifies this`stemCache, this`stemRecord, this`stemEntries, stemEntries
      ensures Linked() && fresh(stemEntries - old(stemEntries))
      ensures stemRecord == StemsTouched(old(stemRecord).0, old(stemRecord).1, a)
      ensures read == FlagsOf(old(Record()), a).stemRead && write == FlagsOf(old(Record()), a).stemWrite
    {
      ghost var was := stemRecord;
      var found;
      found, read := FindStem(a);
      write := a.isWrite && !found.write;
      if write {
        MarkStem(found, a.stem);
      }
      StemMarkedIsTouched(was.0, was.1, a);
      assert unchanged(chunkEntries);
    }

    /** The cached entries may be held by other witnesses from now on. */
    ghost method ShareStems()
      requires StemsKept()
      modifies stemEntries
      ensures StemsHold(stems, stemRecord.0, stemEntries, true) && StemsHold(stemCache, stemRecord.1, stemEntries, true)
    {
      assert forall k | k in stemCache :: StemAt(stemCache, stemRecord.1, stemEntries, false, k);
      forall k | k in stemCache {
        stemCache[k].shared := true;
      }
      forall k ensures StemAt(stems, stemRecord.0, stemEntries, true, k) {
        assert old(StemAt(stems, stemRecord.0, stemEntries, true, k));
      }
      forall k ensures StemAt(stemCache, stemRecord.1, stemEntries, true, k) {
        assert old(StemAt(stemCache, stemRecord.1, stemEntries, false, k));
      }
    }

    method CommitStems()
      requires Linked()
      modifies this`stems, this`stemCache, this`stemRecord, stemEntries
      ensures Linked() && stemRecord == (old(stemRecord).0 + old(stemRecord).1, map[])
    {
      ShareStems();
      assert unchanged(chunkEntries);
      StemsJoin(stems, stemRecord.0, stemCache, stemRecord.1, stemEntries);
      stems, stemCache := stems + stemCache, map[];
      stemRecord := (stemRecord.0 + stemRecord.1, map[]);
      EmptyStems(stemEntries);
    }

    /** The entry for a touch, made and cached when there is none. */
    method FindChunk(a: Access) returns (found: ChunkEvent, read: bool)
      requires ChunksKept()
      modifies this`chunkCache, this`chunkRecord, this`chunkEntries
      ensures ChunksKept() && fresh(chunkEntries - old(chunkEntries)) && old(chunkEntries) <= chunkEntries
      ensures chunks == old(chunks)
      ensures ChunkKey(a.stem, a.subIndex) in chunkCache || ChunkKey(a.stem, a.subIndex) in chunks
      ensures var k := ChunkKey(a.stem, a.subIndex);
              found == (if k in chunkCache then chunkCache[k] else chunks[k]) && found.key == k && found in chunkEntries
      ensures var kept := Entry(chunkRecord.0, chunkRecord.1, ChunkKey(a.stem, a.subIndex));
              kept.Some? && found.write == kept.value.write
      ensures read == Entry(old(chunkRecord).0, old(chunkRecord).1, ChunkKey(a.stem, a.subIndex)).None?
      ensures chunkRecord ==
              if read then (old(chunkRecord).0, old(chunkRecord).1[ChunkKey(a.stem, a.subIndex) := Chunk(false, false)])
              else old(chunkRecord)
    {
      read := false;
      var key := ChunkKey(a.stem, a.subIndex);
      assert ChunkAt(chunks, chunkRecord.0, chunkEntries, true, key);
      assert ChunkAt(chunkCache, chunkRecord.1, chunkEntries, false, key);
      if key in chunkCache {
        found := chunkCache[key];
      } else if key in chunks {
        found := chunks[key];
      } else {
        read := true;
        found := new ChunkEvent(key);
        ChunksWiden(chunks, chunkRecord.0, chunkEntries, chunkEntries + {found}, true);
        ChunksWiden(chunkCache, chunkRecord.1, chunkEntries, chunkEntries + {found}, false);
        chunkEntries := chunkEntries + {found};
        ChunksAdd(chunkCache, chunkRecord.1, chunkEntries, false, found, Chunk(false, false));
        chunkCache := chunkCache[key := found];
        chunkRecord := (chunkRecord.0, chunkRecord.1[key := Chunk(false, false)]);
      }
    }

    /** Set the write flag of an entry, wherever it is referenced. */
    method MarkChunk(found: ChunkEvent, ghost k: Bytes)
      requires ChunksKept() && (k in chunkCache || k in chunks) && found.key == k
      requires found == if k in chunkCache then chunkCache[k] else chunks[k]
      modifies this`chunkRecord, found
      ensures ChunksKept()
      ensures var v := Entry(old(chunkRecord).0, old(chunkRecord).1, k).value.(write := true);
              chunkRecord == Put(old(chunkRecord).0, old(chunkRecord).1, k, v)
    {
      ghost var v, was := Entry(chunkRecord.0, chunkRecord.1, k).value.(write := true), chunkRecord;
      assert ChunkAt(chunks, chunkRecord.0, chunkEntries, true, k);
      assert ChunkAt(chunkCache, chunkRecord.1, chunkEntries, false, k);
      chunkRecord := Put(chunkRecord.0, chunkRecord.1, k, v);
      found.write := true;
      assert ChunksHold(chunks, chunkRecord.0, chunkEntries, true) by {
        forall j ensures ChunkAt(chunks, chunkRecord.0, chunkEntries, true, j) {
          assert old(ChunkAt(chunks, chunkRecord.0, chunkEntries, true, j));
        }
      }
      assert ChunksHold(chunkCache, chunkRecord.1, chunkEntries, false) by {
        forall j ensures ChunkAt(chunkCache, chunkRecord.1, chunkEntries, false, j) {
          assert old(ChunkAt(chunkCache, chunkRecord.1, chunkEntries, false, j));
        }
      }
    }

    method TouchChunk(a: Access) returns (read: bool, write: bool)
      requires Linked()
      modifies this`chunkCache, this`chunkRecord, this`chunkEntries, chunkEntries
      ensures Linked() && fresh(chunkEntries - old(chunkEntries))
      ensures chunkRecord == ChunksTouched(old(chunkRecord).0, old(chunkRecord).1, a)
      ensures read == FlagsOf(old(Record()), a).chunkRead && write == FlagsOf(old(Record()), a).chunkWrite
    {
      ghost var was := chunkRecord;
      var found;
      found, read := FindChunk(a);
      write := a.isWrite && !found.write;
      if write {
        MarkChunk(found, ChunkKey(a.stem, a.subIndex));
      }
      ChunkMarkedIsTouched(was.0, was.1, a);
      assert unchanged(stemEntries);
    }

    /** The cached entries may be held by other witnesses from now on. */
    ghost method ShareChunks()
      requires ChunksKept()
      modifies chunkEntries
      ensures ChunksHold(chunks, chunkRecord.0, chunkEntries, true)
      ensures ChunksHold(chunkCache, chunkRecord.1, chunkEntries, true)
    {
      assert forall k | k in chunkCache :: ChunkAt(chunkCache, chunkRecord.1, chunkEntries, false, k);
      forall k | k in chunkCache {
        chunkCache[k].shared := true;
      }
      forall k ensures ChunkAt(chunks, chunkRecord.0, chunkEntries, true, k) {
        assert old(ChunkAt(chunks, chunkRecord.0, chunkEntries, true, k));
      }
      forall k ensures ChunkAt(chunkCache, chunkRecord.1, chunkEntries, true, k) {
        assert old(ChunkAt(chunkCache, chunkRecord.1, chunkEntries, false, k));
      }
    }

    method CommitChunks()
      requires Linked()
      modifies this`chunks, this`chunkCache, this`chunkRecord, chunkEntries
      ensures Linked() && chunkRecord == (old(chunkRecord).0 + old(chunkRecord).1, map[])
    {
      ShareChunks();
      assert unchanged(stemEntries);
      ChunksJoin(chunks, chunkRecord.0, chunkCache, chunkRecord.1, chunkEntries);
      chunks, chunkCache := chunks + chunkCache, map[];
      chunkRecord := (chunkRecord.0 + chunkRecord.1, map[]);
      EmptyChunks(chunkEntries);
    }

    // ----- ending a scope -----

    method Commit()
      requires Valid()
      modifies this`stems, this`stemCache, this`stemRecord, stemEntries
      modifies this`chunks, this`chunkCache, this`chunkRecord, chunkEntries, this`settled
      ensures Valid() && settled && Record() == Committed(old(Record()))
    {
      EndKeepsSane(Record(), stemOf, settled);
      settled := true;
      CommitEntries();
    }

    method CommitEntries()
      requires Linked()
      modifies this`stems, this`stemCache, this`stemRecord, stemEntries
      modifies this`chunks, this`chunkCache, this`chunkRecord, chunkEntries
      ensures Linked() && Record() == Committed(old(Record()))
    {
      CommitStems();
      CommitChunks();
    }

    method Revert()
      requires Valid()
      modifies this`stemCache, this`chunkCache, this`stemRecord, this`chunkRecord, this`settled
      ensures Valid() && settled && Record() == Reverted(old(Record()))
    {
      EndKeepsSane(Record(), stemOf, settled);
      settled := true;
      RevertEntries();
    }

    method RevertEntries()
      requires Linked()
      modifies this`stemCache, this`chunkCache, this`stemRecord, this`chunkRecord
      ensures Linked() && Record() == Reverted(old(Record()))
    {
      stemCache, chunkCache := map[], map[];
      stemRecord, chunkRecord := (stemRecord.0, map[]), (chunkRecord.0, map[]);
    }

    // ----- merging -----

    /** Both hold what they record, and this one may change what it shares with the other. */
    ghost predicate Linkable(other: BinaryTreeAccessWitness)
      reads this`stems, this`stemCache, this`stemRecord, this`stemEntries, stemEntries
      reads this`chunks, this`chunkCache, this`chunkRecord, this`chunkEntries, chunkEntries
      reads other`stems, other`stemCache, other`stemRecord, other`stemEntries, other.stemEntries
      reads other`chunks, other`chunkCache, other`chunkRecord, other`chunkEntries, other.chunkEntries
    {
      && other != this && Linked() && other.Linked()
      && other.stemEntries <= stemEntries && other.chunkEntries <= chunkEntries
    }

    /**
      Take over another witness's committed entries: new ones are shared with it from then
      on, others get its write flags.  The other does not change, and no chunk is met without
      its stem.
    */
    method Merge(other: BinaryTreeAccessWitness)
      requires Valid() && other.Valid() && other != this && other.stemOf == stemOf
      modifies this`stems, this`stemRecord, this`stemEntries, stemEntries, other.stemEntries
      modifies this`chunks, this`chunkRecord, this`chunkEntries, chunkEntries, other.chunkEntries, this`settled
      ensures Valid() && other.Valid() && other.Record() == old(other.Record())
      ensures Merged(old(Record()), old(other.Record()), Record())
      ensures settled <==> old(settled && Unhidden(Record(), other.Record()))
      ensures stemEntries == old(stemEntries) + other.stemEntries
      ensures chunkEntries == old(chunkEntries) + other.chunkEntries
    {
      ghost var w, o := Record(), other.Record();
      ghost var apart, settled' := settled, settled && Unhidden(w, o);
      settled := settled';
      MergeLinked(other, w, o);
      MergeKeepsSane(w, o, Record(), stemOf, apart, other.settled);
      assert Sane(Record(), stemOf, settled') && Sane(other.Record(), stemOf, other.settled);
    }

    /** Take in the entries of a witness, so that they can be shared with it. */
    ghost method Adopt(other: BinaryTreeAccessWitness)
      requires Linked() && other.Linked() && other != this
      modifies this`stemEntries, this`chunkEntries
      ensures Linkable(other)
      ensures stemEntries == old(stemEntries) + other.stemEntries
      ensures chunkEntries == old(chunkEntries) + other.chunkEntries
    {
      AdoptStems(other);
      AdoptChunks(other);
    }

    ghost method AdoptStems(other: BinaryTreeAccessWitness)
      requires StemsKept()
      modifies this`stemEntries
      ensures StemsKept() && stemEntries == old(stemEntries) + other.stemEntries
    {
      StemsWiden(stems, stemRecord.0, stemEntries, stemEntries + other.stemEntries, true);
      StemsWiden(stemCache, stemRecord.1, stemEntries, stemEntries + other.stemEntries, false);
      stemEntries := stemEntries + other.stemEntries;
    }

    ghost method AdoptChunks(other: BinaryTreeAccessWitness)
      requires ChunksKept()
      modifies this`chunkEntries
      ensures ChunksKept() && chunkEntries == old(chunkEntries) + other.chunkEntries
    {
      ChunksWiden(chunks, chunkRecord.0, chunkEntries, chunkEntries + other.chunkEntries, true);
      ChunksWiden(chunkCache, chunkRecord.1, chunkEntries, chunkEntries + other.chunkEntries, false);
      chunkEntries := chunkEntries + other.chunkEntries;
    }

    method MergeLinked(other: BinaryTreeAccessWitness, ghost w: Witness, ghost o: Witness)
      requires Linked() && other.Linked() && other != this && Rooted(o) && w == Record() && o == other.Record()
      modifies this`stems, this`stemRecord, this`stemEntries, stemEntries, other.stemEntries
      modifies this`chunks, this`chunkRecord, this`chunkEntries, chunkEntries, other.chunkEntries
      ensures Linked() && other.Linked() && o == other.Record() && Merged(w, o, Record())
      ensures stemEntries == old(stemEntries) + other.stemEntries
      ensures chunkEntries == old(chunkEntries) + other.chunkEntries
    {
      Adopt(other);
      MergeEntries(other, w, o);
    }

    method MergeEntries(other: BinaryTreeAccessWitness, ghost w: Witness, ghost o: Witness)
      requires Linkable(other) && Rooted(o) && w == Record() && o == other.Record()
      modifies this`stems, this`stemRecord, stemEntries, this`chunks, this`chunkRecord, chunkEntries
      ensures Linkable(other) && Merged(w, o, Record())
    {
      var todo := other.chunks.Keys;
      MergeNone(w, o);
      while todo != {}
        invariant Linkable(other) && MergingTo(w, o, todo)
        decreases |todo|
      {
        var key :| key in todo;
        MergeStep(key, other, w, todo);
        todo := todo - {key};
      }
      MergeComplete(w, o, stemRecord.0, chunkRecord.0);
    }

    method MergeStep(key: Bytes, other: BinaryTreeAccessWitness, ghost w: Witness, ghost todo: set<Bytes>)
      requires Linkable(other) && Rooted(other.Record()) && MergingTo(w, other.Record(), todo) && key in todo
      modifies this`stems, this`stemRecord, stemEntries, this`chunks, this`chunkRecord, chunkEntries
      ensures Linkable(other) && MergingTo(w, other.Record(), todo - {key})
    {
      assert RootedAt(other.Record(), key);
      if StemKey(key) !in other.stems {
        assert false;
      } else {
        MergeNext(w, other.Record(), todo, stemRecord.0, chunkRecord.0, key);
        MergeEntry(key, other);
      }
    }

    /** Merged but for these chunks. */
    ghost predicate MergingTo(w: Witness, o: Witness, todo: set<Bytes>)
      reads this`stemRecord, this`chunkRecord
    {
      && stemRecord.1 == w.stemCache && chunkRecord.1 == w.chunkCache
      && PartMerged(w, o, todo, stemRecord.0, chunkRecord.0)
    }

    /** Join one chunk of another witness, and its stem. */
    method MergeEntry(key: Bytes, other: BinaryTreeAccessWitness)
      requires Linkable(other) && key in other.chunks && StemKey(key) in other.stems
      modifies this`stems, this`stemRecord, stemEntries, this`chunks, this`chunkRecord, chunkEntries
      ensures Linkable(other)
      ensures stemRecord ==
              (JoinStem(old(stemRecord).0, StemKey(key), other.stemRecord.0[StemKey(key)]), old(stemRecord).1)
      ensures chunkRecord == (JoinChunk(old(chunkRecord).0, key, other.chunkRecord.0[key]), old(chunkRecord).1)
    {
      JoinStemFrom(StemKey(key), other);
      JoinChunkFrom(key, other);
    }

    /** Join one entry of another witness. */
    method JoinStemFrom(key: Bytes, other: BinaryTreeAccessWitness)
      requires Linkable(other) && key in other.stems
      modifies this`stems, this`stemRecord, stemEntries
      ensures Linkable(other)
      ensures stemRecord == (JoinStem(old(stemRecord).0, key, other.stemRecord.0[key]), old(stemRecord).1)
    {
      var entry := other.stems[key];
      assert StemAt(stems, stemRecord.0, stemEntries, true, key);
      assert StemAt(other.stems, other.stemRecord.0, other.stemEntries, true, key);
      if key in stems {
        if entry.write {
          SetStemWrite(key, other);
        } else {
          assert stemRecord.0[key := stemRecord.0[key]] == stemRecord.0;
        }
      } else {
        StemsAdd(stems, stemRecord.0, stemEntries, true, entry, other.stemRecord.0[key]);
        stems := stems[key := entry];
        stemRecord := (stemRecord.0[key := other.stemRecord.0[key]], stemRecord.1);
      }
      assert unchanged(chunkEntries);
    }

    method SetStemWrite(key: Bytes, ghost other: BinaryTreeAccessWitness)
      requires other != this && StemsKept() && key in stems
      requires other.StemsKept() && key in other.stems && other.stems[key].write
      modifies this`stemRecord, stems[key]
      ensures StemsKept() && other.StemsKept()
      ensures stemRecord == (old(stemRecord).0[key := old(stemRecord).0[key].(write := true)], old(stemRecord).1)
    {
      assert StemAt(stems, stemRecord.0, stemEntries, true, key);
      assert StemAt(other.stems, other.stemRecord.0, other.stemEntries, true, key);
      stemRecord := (stemRecord.0[key := stemRecord.0[key].(write := true)], stemRecord.1);
      stems[key].write := true;
      assert StemsHold(stems, stemRecord.0, stemEntries, true) by {
        forall j ensures StemAt(stems, stemRecord.0, stemEntries, true, j) {
          assert old(StemAt(stems, stemRecord.0, stemEntries, true, j));
        }
      }
      assert StemsHold(stemCache, stemRecord.1, stemEntries, false) by {
        forall j ensures StemAt(stemCache, stemRecord.1, stemEntries, false, j) {
          assert old(StemAt(stemCache, stemRecord.1, stemEntries, false, j));
        }
      }
      assert StemsHold(other.stems, other.stemRecord.0, other.stemEntries, true) by {
        forall j ensures StemAt(other.stems, other.stemRecord.0, other.stemEntries, true, j) {
          assert old(StemAt(other.stems, other.stemRecord.0, other.stemEntries, true, j));
        }
      }
      assert StemsHold(other.stemCache, other.stemRecord.1, other.stemEntries, false) by {
        forall j ensures StemAt(other.stemCache, other.stemRecord.1, other.stemEntries, false, j) {
          assert old(StemAt(other.stemCache, other.stemRecord.1, other.stemEntries, false, j));
        }
      }
    }

    /** Join one entry of another witness. */
    method JoinChunkFrom(key: Bytes, other: BinaryTreeAccessWitness)
      requires Linkable(other) && key in other.chunks
      modifies this`chunks, this`chunkRecord, chunkEntries
      ensures Linkable(other)
      ensures chunkRecord == (JoinChunk(old(chunkRecord).0, key, other.chunkRecord.0[key]), old(chunkRecord).1)
    {
      var entry := other.chunks[key];
      assert ChunkAt(chunks, chunkRecord.0, chunkEntries, true, key);
      assert ChunkAt(other.chunks, other.chunkRecord.0, other.chunkEntries, true, key);
      if key in chunks {
        if entry.write {
          SetChunkWrite(key, other);
        } else {
          assert chunkRecord.0[key := chunkRecord.0[key]] == chunkRecord.0;
        }
      } else {
        ChunksAdd(chunks, chunkRecord.0, chunkEntries, true, entry, other.chunkRecord.0[key]);
        chunks := chunks[key := entry];
        chunkRecord := (chunkRecord.0[key := other.chunkRecord.0[key]], chunkRecord.1);
      }
      assert unchanged(stemEntries);
    }

    method SetChunkWrite(key: Bytes, ghost other: BinaryTreeAccessWitness)
      requires other != this && ChunksKept() && key in chunks
      requires other.ChunksKept() && key in other.chunks && other.chunks[key].write
      modifies this`chunkRecord, chunks[key]
      ensures ChunksKept() && other.ChunksKept()
      ensures chunkRecord == (old(chunkRecord).0[key := old(chunkRecord).0[key].(write := true)], old(chunkRecord).1)
    {
      assert ChunkAt(chunks, chunkRecord.0, chunkEntries, true, key);
      assert ChunkAt(other.chunks, other.chunkRecord.0, other.chunkEntries, true, key);
      chunkRecord := (chunkRecord.0[key := chunkRecord.0[key].(write := true)], chunkRecord.1);
      chunks[key].write := true;
      assert ChunksHold(chunks, chunkRecord.0, chunkEntries, true) by {
        forall j ensures ChunkAt(chunks, chunkRecord.0, chunkEntries, true, j) {
          assert old(ChunkAt(chunks, chunkRecord.0, chunkEntries, true, j));
        }
      }
      assert ChunksHold(chunkCache, chunkRecord.1, chunkEntries, false) by {
        forall j ensures ChunkAt(chunkCache, chunkRecord.1, chunkEntries, false, j) {
          assert old(ChunkAt(chunkCache, chunkRecord.1, chunkEntries, false, j));
        }
      }
      assert ChunksHold(other.chunks, other.chunkRecord.0, other.chunkEntries, true) by {
        forall j ensures ChunkAt(other.chunks, other.chunkRecord.0, other.chunkEntries, true, j) {
          assert old(ChunkAt(other.chunks, other.chunkRecord.0, other.chunkEntries, true, j));
        }
      }
      assert ChunksHold(other.chunkCache, other.chunkRecord.1, other.chunkEntries, false) by {
        forall j ensures ChunkAt(other.chunkCache, other.chunkRecord.1, other.chunkEntries, false, j) {
          assert old(ChunkAt(other.chunkCache, other.chunkRecord.1, other.chunkEntries, false, j));
        }
      }
    }

    /**
      The committed accesses: each committed chunk once, with the address and indices its key
      is made of.  No chunk is met without its stem.
    */
    method RawAccesses() returns (accesses: seq<RawAccess>)
      requires Valid()
      ensures Listed(accesses, chunks.Keys, stemOf)
    {
      assert Readable(stems, chunks.Keys, stemOf) by {
        forall k | k in chunks.Keys
          ensures k != [] && StemKey(k) in stems
          ensures stemOf(stems[StemKey(k)].address, stems[StemKey(k)].treeIndex) == StemKey(k)
        {
          assert RootedAt(Record(), k) && HashedAt(Record(), stemOf, StemKey(k));
          assert StemAt(stems, stemRecord.0, stemEntries, true, StemKey(k));
        }
      }
      accesses := ReadAll(stems, chunks.Keys, stemOf);
    }
  }
}
