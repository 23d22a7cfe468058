/**
  The blockchain object: putting blocks with reorganisation, resetting the canonical head
  and deleting blocks.  `readsLeft` lets any database read throw: a number counts the
  reads that still succeed, `None` means that reads never fail.
*/
module Blockchain {
  import opened Wrappers
  import opened ChainModel

  /** `h` is the canonical block at one of the numbers lo..hi. */
  ghost predicate Dropped(db: Db, h: Hash, lo: nat, hi: nat)
  {
    OnChain(db, h) && lo <= db.headers[h].number < hi
  }

  /** A head hash after the canonical blocks numbered lo..hi were dropped in favour of `to`. */
  ghost function MovedTo(h: Hash, db: Db, lo: nat, hi: nat, to: Hash): Hash
  {
    if Dropped(db, h, lo, hi) then to else h
  }

  /** `heads'` is `heads` with every head on a dropped block moved. */
  ghost predicate Retargeted(heads: map<string, Hash>, heads': map<string, Hash>, db: Db, lo: nat, hi: nat, to: Hash)
  {
    heads'.Keys == heads.Keys && forall name :: name in heads ==> heads'[name] == MovedTo(heads[name], db, lo, hi, to)
  }

  /** Every iterator head that stands on `stale` is set to `to`. */
  function MoveHeads(heads: map<string, Hash>, stale: Hash, to: Hash): map<string, Hash>
  {
    map name | name in heads :: if heads[name] == stale then to else heads[name]
  }

  lemma MovedStep(h: Hash, db: Db, lo: nat, hi: nat, to: Hash)
    requires IndexSound(db) && hi in db.numberToHash && to != db.numberToHash[hi] && lo <= hi
    ensures MovedTo(h, db, lo, hi + 1, to) ==
            if MovedTo(h, db, lo, hi, to) == db.numberToHash[hi] then to else MovedTo(h, db, lo, hi, to)
  {
    assert db.headers[db.numberToHash[hi]].number == hi;
  }

  lemma RetargetStep(heads: map<string, Hash>, heads': map<string, Hash>, db: Db, lo: nat, hi: nat, to: Hash)
    requires IndexSound(db) && hi in db.numberToHash && to != db.numberToHash[hi] && lo <= hi
    requires Retargeted(heads, heads', db, lo, hi, to)
    ensures Retargeted(heads, MoveHeads(heads', db.numberToHash[hi], to), db, lo, hi + 1, to)
  {
    forall name | name in heads
      ensures MoveHeads(heads', db.numberToHash[hi], to)[name] == MovedTo(heads[name], db, lo, hi + 1, to)
    {
      MovedStep(heads[name], db, lo, hi, to);
    }
  }

  /** `d'` is `d` without the index entries lo..hi. */
  ghost predicate DropsFrom(d: Db, d': Db, lo: nat, hi: nat)
  {
    && d'.headers == d.headers && d'.td == d.td && d'.hashToNumber == d.hashToNumber
    && (forall n :: n in d'.numberToHash <==> n in d.numberToHash && !(lo <= n < hi))
    && (forall n :: n in d'.numberToHash ==> d'.numberToHash[n] == d.numberToHash[n])
  }

  lemma DropsStep(db: Db, d: Db, ops: seq<DbOp>, lo: nat, hi: nat)
    requires DropsFrom(d, Batch(db, ops), lo, hi) && lo <= hi
    ensures DropsFrom(d, Batch(db, ops + [DelNumberToHash(hi)]), lo, hi + 1)
  {
    BatchPush(db, ops, DelNumberToHash(hi));
  }

  lemma DroppedStep(h: Hash, db: Db, lo: nat, hi: nat)
    requires IndexSound(db) && lo < hi
    ensures Dropped(db, h, lo, hi) <==>
            Dropped(db, h, lo + 1, hi) || (lo in db.numberToHash && h == db.numberToHash[lo])
  {
  }

  /** `d'` is `d` with the blocks of `p` above `lo` indexed, and the number of its last block recorded. */
  ghost predicate IndexesAbove(d: Db, d': Db, p: seq<Header>, lo: nat)
    requires p != [] && lo < |p|
  {
    && d'.headers == d.headers && d'.td == d.td
    && d'.hashToNumber == (if lo < |p| - 1 then d.hashToNumber[p[|p|-1].hash := |p| - 1] else d.hashToNumber)
    && (forall n :: n in d'.numberToHash <==> n in d.numberToHash || lo < n < |p|)
    && (forall n :: n in d'.numberToHash ==>
      d'.numberToHash[n] == if lo < n < |p| then p[n].hash else d.numberToHash[n])
  }

  function SaveLookups(hash: Hash, number: nat): seq<DbOp>
  {
    [SetNumberToHash(number, hash), SetHashToNumber(hash, number)]
  }

  /** One round of the rebuild: the lookups of the block at `k` are saved. */
  lemma IndexStep(db: Db, d: Db, ops: seq<DbOp>, ops': seq<DbOp>, p: seq<Header>, k: nat)
    requires 0 < k < |p| && IndexesAbove(d, Batch(db, ops), p, k)
    requires k < |p| - 1 ==> p[k].hash != p[|p|-1].hash && p[k].hash in d.hashToNumber && d.hashToNumber[p[k].hash] == k
    requires ops' == ops + SaveLookups(p[k].hash, k)
    ensures IndexesAbove(d, Batch(db, ops'), p, k - 1)
  {
    var a := p[k].hash;
    BatchPush(db, ops, SetNumberToHash(k, a));
    BatchPush(db, ops + [SetNumberToHash(k, a)], SetHashToNumber(a, k));
    assert ops + [SetNumberToHash(k, a)] + [SetHashToNumber(a, k)] ==
           ops + [SetNumberToHash(k, a), SetHashToNumber(a, k)];
  }

  /** The tables createBlockchain writes. */
  lemma GenesisTables(g: Header)
    ensures Batch(Db(map[], map[], map[], map[]),
              [SetTd(g.hash, g.difficulty), SetHeader(g), SetNumberToHash(0, g.hash), SetHashToNumber(g.hash, 0)])
            == Db(map[g.hash := g], map[g.hash := g.difficulty], map[g.hash := 0], map[0 := g.hash])
  {
    var d := Db(map[], map[], map[], map[]);
    var a, b, c, e := SetTd(g.hash, g.difficulty), SetHeader(g), SetNumberToHash(0, g.hash), SetHashToNumber(g.hash, 0);
    assert [] + [a] == [a] && [a] + [b] == [a, b] && [a, b] + [c] == [a, b, c] && [a, b, c] + [e] == [a, b, c, e];
    BatchPush(d, [], a);
    BatchPush(d, [a], b);
    BatchPush(d, [a, b], c);
    BatchPush(d, [a, b, c], e);
  }

  lemma StoringOps(db: Db, block: Header, td: nat)
    ensures Batch(db, [SetTd(block.hash, td), SetHeader(block)]) ==
            db.(td := db.td[block.hash := td], headers := db.headers[block.hash := block])
  {
    assert [] + [SetTd(block.hash, td)] == [SetTd(block.hash, td)];
    assert [SetTd(block.hash, td)] + [SetHeader(block)] == [SetTd(block.hash, td), SetHeader(block)];
    BatchPush(db, [], SetTd(block.hash, td));
    BatchPush(db, [SetTd(block.hash, td)], SetHeader(block));
  }

  lemma GenesisValid(g: Header, d: Db)
    requires g.number == 0
    requires d == Db(map[g.hash := g], map[g.hash := g.difficulty], map[g.hash := 0], map[0 := g.hash])
    ensures var known := map[g.hash := g];
            Lineage(known, g) && Truthful(d, known, g) && Chain(d, g, g.hash)
  {
    var known := map[g.hash := g];
    assert Lineage(known, g);
    assert PathTo(known, g, g.hash) == [g] && [g][..0] == [];
    assert SumOfDifficulties([g]) == g.difficulty;
    assert d.headers.Keys == {g.hash} && d.td.Keys == {g.hash} && d.hashToNumber.Keys == {g.hash};
  }

  /** Dropping the index above a block and writing its path below leaves exactly its path. */
  lemma IndexRebuilt(db: Db, d0: Db, d1: Db, d2: Db, genesis: Header, top: Hash, p: seq<Header>, m: nat)
    requires Chain(db, genesis, top) && IsPath(p, genesis) && StoredAs(db, p) && ForkPoint(db, p, m)
    requires d0.numberToHash == db.numberToHash
    requires DropsFrom(d0, d1, |p|, db.headers[top].number + 1) && IndexesAbove(d1, d2, p, m)
    ensures IndexIs(d2, p)
  {
    forall n: nat | n <= m ensures Agrees(db, p, n) {
      AgreeBelow(db, genesis, top, p, m, n);
    }
    forall n: nat ensures n in d2.numberToHash <==> n < |p| {
      assert n in d1.numberToHash <==> n in db.numberToHash && n < |p|;
      assert n <= m ==> Agrees(db, p, n);
    }
    forall n: nat | n < |p| ensures d2.numberToHash[n] == p[n].hash {
      assert n <= m ==> Agrees(db, p, n) && n in d1.numberToHash;
    }
  }

  /** The new head is on no replaced or dropped block. */
  lemma NewHeadStays(db: Db, p: seq<Header>, m: nat, hi: nat)
    requires ForkPoint(db, p, m) && StoredAs(db, p) && p[|p|-1].number == |p| - 1
    ensures !Dropped(db, p[|p|-1].hash, |p|, hi) && !Dropped(db, p[|p|-1].hash, m + 1, |p|)
  {
    assert Dropped(db, p[|p|-1].hash, m + 1, |p|) ==> Agrees(db, p, |p| - 1);
  }

  lemma HeadsRebuilt(heads0: map<string, Hash>, heads1: map<string, Hash>, heads2: map<string, Hash>,
                     db: Db, genesis: Header, top: Hash, p: seq<Header>, m: nat)
    requires Chain(db, genesis, top) && ForkPoint(db, p, m) && StoredAs(db, p) && IsPath(p, genesis)
    requires Retargeted(heads0, heads1, db, |p|, db.headers[top].number + 1, p[|p|-1].hash)
    requires Retargeted(heads1, heads2, db, m + 1, |p|, p[m].hash)
    ensures HeadsMoved(db, heads0, heads2, p, m)
  {
    NewHeadStays(db, p, m, db.headers[top].number + 1);
  }

  /**
    Heads on replaced blocks moved to the fork, heads above the new block moved to it, others
    stayed.
  */
  ghost predicate HeadsMoved(before: Db, heads0: map<string, Hash>, heads: map<string, Hash>, p: seq<Header>, m: nat)
    requires m < |p|
  {
    && heads.Keys == heads0.Keys
    && forall name :: name in heads0 ==>
         heads[name] == if !OnChain(before, heads0[name]) || before.headers[heads0[name]].number <= m then heads0[name]
                        else if before.headers[heads0[name]].number < |p| then p[m].hash
                        else p[|p|-1].hash
  }

  /** After a reorganisation along `p` from the fork at `m` the index is exactly `p`. */
  ghost predicate Reorganised(db0: Db, heads0: map<string, Hash>, db1: Db, heads1: map<string, Hash>, p: seq<Header>,
                              m: nat)
    requires p != []
  {
    ForkPoint(db0, p, m) && IndexIs(db1, p) && HeadsMoved(db0, heads0, heads1, p, m)
  }

  /** What a successful put makes of the tables, the iterator heads and the head. */
  ghost predicate Placed(db0: Db, heads0: map<string, Hash>, head0: Hash, db1: Db, heads1: map<string, Hash>,
                         head1: Hash, p: seq<Header>, adopts: bool, m: nat)
    requires p != []
  {
    && Records(db0, db1, p[|p|-1], SumOfDifficulties(p))
    && if adopts then head1 == p[|p|-1].hash && Reorganised(db0, heads0, db1, heads1, p, m) && Stored(db0, p, m)
       else head1 == head0 && heads1 == heads0 && db1.numberToHash == db0.numberToHash
  }

  ghost predicate AllOnChain(db: Db, heads: map<string, Hash>)
  {
    forall name :: name in heads ==> OnChain(db, heads[name])
  }

  /** A placed block leaves a canonical chain under every head. */
  lemma PlacedChain(db0: Db, heads0: map<string, Hash>, head0: Hash, db1: Db, heads1: map<string, Hash>, head1: Hash,
                    genesis: Header, p: seq<Header>, adopts: bool, m: nat)
    requires Chain(db0, genesis, head0) && AllOnChain(db0, heads0) && IsPath(p, genesis) && StoredAs(db0, p)
    requires Placed(db0, heads0, head0, db1, heads1, head1, p, adopts, m)
    ensures Chain(db1, genesis, head1) && AllOnChain(db1, heads1)
  {
    if adopts {
      AdoptedChain(db0, db1, genesis, head0, p, m, heads0, heads1);
    } else {
      ChainKept(db0, db1, genesis, head0, p[|p|-1]);
    }
  }

  /** A placed block keeps everything the blockchain maintains. */
  lemma PlacedBlock(db0: Db, heads0: map<string, Hash>, head0: Hash, db1: Db, heads1: map<string, Hash>, head1: Hash,
                    known: map<Hash, Header>, genesis: Header, block: Header, adopts: bool, m: nat)
    requires Lineage(known, genesis) && Truthful(db0, known, genesis) && Chain(db0, genesis, head0)
    requires AllOnChain(db0, heads0) && Fresh(known, genesis, block)
    requires Placed(db0, heads0, head0, db1, heads1, head1, NewPath(known, genesis, block), adopts, m)
    ensures var known' := known[block.hash := block];
            && Lineage(known', genesis) && Truthful(db1, known', genesis)
            && Chain(db1, genesis, head1) && AllOnChain(db1, heads1)
  {
    assert Chain(db1, genesis, head1) && AllOnChain(db1, heads1) by {
      NewPathIsPath(db0, known, genesis, block);
      PlacedChain(db0, heads0, head0, db1, heads1, head1, genesis, NewPath(known, genesis, block), adopts, m);
    }
    TruthfulGrows(db0, db1, known, genesis, block);
  }

  /** Placing by weight keeps the head the first of the heaviest blocks. */
  lemma PlacedHeaviest(db0: Db, heads0: map<string, Hash>, head0: Hash, db1: Db, heads1: map<string, Hash>, head1: Hash,
                       known: map<Hash, Header>, genesis: Header, block: Header, m: nat, seen: seq<Hash>)
    requires Lineage(known, genesis) && Truthful(db0, known, genesis) && head0 in db0.headers
    requires Fresh(known, genesis, block) && FirstHeaviest(db0, seen, head0)
    requires Placed(db0, heads0, head0, db1, heads1, head1, NewPath(known, genesis, block),
               SumOfDifficulties(NewPath(known, genesis, block)) > TotalDifficulty(known, genesis, head0), m)
    ensures FirstHeaviest(db1, if block.hash in db0.headers then seen else seen + [block.hash], head1)
  {
    if block.hash in known {
      LineageGrows(known, genesis, block);
      assert known[block.hash := block] == known;
    }
    FirstHeaviestKept(db0, db1, seen, head0, block, SumOfDifficulties(NewPath(known, genesis, block)));
  }

  /** Cutting the canonical chain down to one of its blocks leaves it a chain under every head. */
  lemma CutChain(db0: Db, db1: Db, genesis: Header, top: Hash, n: nat, heads0: map<string, Hash>,
                 heads1: map<string, Hash>)
    requires Chain(db0, genesis, top) && n <= db0.headers[top].number && AllOnChain(db0, heads0)
    requires forall k: nat :: k in db1.numberToHash <==> k <= n
    requires forall k: nat :: k <= n ==> db1.numberToHash[k] == db0.numberToHash[k]
    requires forall k: nat :: k <= n ==>
               var h := db0.numberToHash[k]; h in db1.headers && db1.headers[h] == db0.headers[h]
    requires Retargeted(heads0, heads1, db0, n + 1, db0.headers[top].number + 1, db0.numberToHash[n])
    ensures Chain(db1, genesis, db0.numberToHash[n]) && AllOnChain(db1, heads1)
  {
    forall k: nat | 0 < k <= n ensures ChildAt(db1, k) {
      assert ChildAt(db0, k);
    }
    forall name | name in heads1 ensures OnChain(db1, heads1[name]) {
      assert OnChain(db0, heads0[name]);
    }
  }

  /** The tables once a canonical block and those above it are deleted and taken off the index. */
  lemma CutTables(db0: Db, d: Db, db1: Db, genesis: Header, top: Hash, number: nat)
    requires Chain(db0, genesis, top) && 0 < number <= db0.headers[top].number
    requires Without(db0, d, CanonicalFrom(db0, number)) && DropsFrom(d, db1, number, db0.headers[top].number + 1)
    ensures forall k: nat :: k in db1.numberToHash <==> k <= number - 1
    ensures forall k: nat :: k <= number - 1 ==> db1.numberToHash[k] == db0.numberToHash[k]
    ensures forall k: nat :: k <= number - 1 ==>
              var h := db0.numberToHash[k]; h in db1.headers && db1.headers[h] == db0.headers[h]
  {
    forall k: nat | k <= number - 1
      ensures var h := db0.numberToHash[k]; h in db1.headers && db1.headers[h] == db0.headers[h]
    {
      assert k in db0.numberToHash;
    }
  }

  /** Deleting a canonical block makes its parent the top of the chain, and all heads stay on it. */
  lemma CutBranch(db0: Db, d: Db, db1: Db, genesis: Header, top: Hash, number: nat, parent: Hash,
                  heads0: map<string, Hash>, heads1: map<string, Hash>)
    requires Chain(db0, genesis, top) && AllOnChain(db0, heads0) && 0 < number <= db0.headers[top].number
    requires parent == db0.numberToHash[number - 1]
    requires Without(db0, d, CanonicalFrom(db0, number)) && DropsFrom(d, db1, number, db0.headers[top].number + 1)
    requires Retargeted(heads0, heads1, db0, number, db0.headers[top].number + 1, parent)
    ensures Chain(db1, genesis, parent) && AllOnChain(db1, heads1)
  {
    CutTables(db0, d, db1, genesis, top, number);
    CutChain(db0, db1, genesis, top, number - 1, heads0, heads1);
  }

  /** The head was the top or was moved to the parent already; either way it ends there. */
  lemma HeadCut(db: Db, genesis: Header, top: Hash, number: nat, parent: Hash, h: Hash)
    requires Chain(db, genesis, top) && 0 < number <= db.headers[top].number && parent == db.numberToHash[number - 1]
    requires h == top || h == parent
    ensures MovedTo(h, db, number, db.headers[top].number + 1, parent) == parent
  {
  }

  /** What deleting a canonical block makes of the tables and heads. */
  lemma CutDeletes(db0: Db, d: Db, db1: Db, genesis: Header, top: Hash, block: Header,
                   heads0: map<string, Hash>, heads1: map<string, Hash>)
    requires Chain(db0, genesis, top) && OnChain(db0, block.hash)
    requires db0.headers[block.hash] == block && block.number > 0
    requires Without(db0, d, CanonicalFrom(db0, block.number))
    requires DropsFrom(d, db1, block.number, db0.headers[top].number + 1)
    requires Retargeted(heads0, heads1, db0, block.number, db0.headers[top].number + 1, block.parentHash)
    ensures Deleted(db0, heads0, top, db1, heads1, block.parentHash, block.hash)
    ensures db1.td == db0.td - CanonicalFrom(db0, block.number)
         && db1.hashToNumber == db0.hashToNumber - CanonicalFrom(db0, block.number)
  {
  }

  /** Deleting a block off the chain leaves the chain as it is. */
  lemma ChainKeptWithout(db0: Db, db1: Db, genesis: Header, top: Hash, gone: Hash)
    requires Chain(db0, genesis, top) && !OnChain(db0, gone) && Without(db0, db1, {gone})
    ensures Chain(db1, genesis, top)
    ensures forall h :: OnChain(db0, h) ==> OnChain(db1, h)
  {
    forall n: nat | n in db0.numberToHash ensures db0.numberToHash[n] != gone {
      assert OnChain(db0, db0.numberToHash[n]);
    }
    forall n: nat | 0 < n <= db0.headers[top].number ensures ChildAt(db1, n) {
      assert ChildAt(db0, n);
    }
  }

  /** The canonical blocks numbered `lo` and above. */
  ghost function CanonicalFrom(db: Db, lo: nat): set<Hash>
  {
    set h | h in db.headers && OnChain(db, h) && db.headers[h].number >= lo
  }

  /**
    What deleting a block makes of the headers, the iterator heads and the head: a canonical
    block goes with the canonical blocks above it and its parent becomes the head; another
    block goes alone.
  */
  ghost predicate Deleted(db0: Db, heads0: map<string, Hash>, head0: Hash, db1: Db, heads1: map<string, Hash>,
                          head1: Hash, blockHash: Hash)
  {
    && blockHash in db0.headers && head0 in db0.headers
    && var n := db0.headers[blockHash].number;
    if OnChain(db0, blockHash)
    then && db1.headers == db0.headers - CanonicalFrom(db0, n)
         && head1 == db0.headers[blockHash].parentHash
         && Retargeted(heads0, heads1, db0, n, db0.headers[head0].number + 1, head1)
    else && db1.headers == db0.headers - {blockHash} && db1.numberToHash == db0.numberToHash
         && head1 == head0 && heads1 == heads0
  }

  /** `d'` is `d` without the blocks `gone`; the number index is not touched. */
  ghost predicate Without(d: Db, d': Db, gone: set<Hash>)
  {
    && d'.headers == d.headers - gone && d'.td == d.td - gone && d'.hashToNumber == d.hashToNumber - gone
    && d'.numberToHash == d.numberToHash
  }

  lemma WithoutOne(db: Db, ops: seq<DbOp>, h: Hash)
    ensures Without(Batch(db, ops), Batch(db, ops + [DelHeader(h), DelHashToNumber(h), DelTd(h)]), {h})
  {
    BatchThree(db, ops, DelHeader(h), DelHashToNumber(h), DelTd(h));
  }

  lemma WithoutMore(a: Db, b: Db, c: Db, x: set<Hash>, y: set<Hash>)
    requires Without(a, b, x) && Without(b, c, y)
    ensures Without(a, c, x + y)
  {
  }

  /** The chain along the new block's path, and the heads moved to it. */
  lemma AdoptedChain(db0: Db, db1: Db, genesis: Header, top: Hash, p: seq<Header>, m: nat,
                     heads0: map<string, Hash>, heads1: map<string, Hash>)
    requires Chain(db0, genesis, top) && IsPath(p, genesis) && StoredAs(db0, p)
    requires ForkPoint(db0, p, m) && Stored(db0, p, m) && IndexIs(db1, p)
    requires db1.headers == db0.headers[p[|p|-1].hash := p[|p|-1]]
    requires HeadsMoved(db0, heads0, heads1, p, m)
    requires forall name :: name in heads0 ==> OnChain(db0, heads0[name])
    ensures Chain(db1, genesis, p[|p|-1].hash)
    ensures forall name :: name in heads1 ==> OnChain(db1, heads1[name])
  {
    forall k: nat | k < |p| ensures p[k].hash in db1.headers && db1.headers[p[k].hash] == p[k] {
      if k <= m { AgreeBelow(db0, genesis, top, p, m, k); }
    }
    IndexedPathIsChain(db1, genesis, p);
    forall k: nat | k < |p| ensures OnChain(db1, p[k].hash) {
      assert db1.headers[p[k].hash] == p[k];
    }
    forall name | name in heads1 ensures OnChain(db1, heads1[name]) {
      var n := db0.headers[heads0[name]].number;
      if n <= m {
        AgreeBelow(db0, genesis, top, p, m, n);
        assert heads1[name] == p[n].hash;
      }
    }
  }

  /** The backward walk that rebuilds the index: a header, what is indexed there, and what was collected above. */
  datatype Walk = Walk(header: Header, staleHash: Option<Hash>, staleHeads: set<string>, staleHeadBlock: bool,
                       ops: seq<DbOp>)

  /** Whether a callback returns on every block, or throws on one of those it is run on. */
  datatype Callback = Returns | ThrowsAt(block: nat, notFound: bool)

  /** The blocks a callback gets through. */
  function RunBy(callback: Callback, blocks: int): int {
    if callback.ThrowsAt? && callback.block < blocks then callback.block else blocks
  }

  class Blockchain {
    const genesis: Header
    var db: Db
    var headHeaderHash: Hash
    var headBlockHash: Hash
    var heads: map<string, Hash>
    var readsLeft: Option<nat>
    /** Every header ever stored, and the stored ones in the order they first came. */
    ghost var known: map<Hash, Header>
    ghost var seen: seq<Hash>

    ghost predicate Valid()
      reads this
    {
      && Tables()
      && Chain(db, genesis, headHeaderHash)
      && headBlockHash == headHeaderHash
      && AllOnChain(db, heads)
    }

    ghost predicate Tables()
      reads this
    {
      Lineage(known, genesis) && Truthful(db, known, genesis)
    }

    constructor (g: Header)
      requires g.number == 0
      ensures Valid() && genesis == g && headHeaderHash == g.hash && heads == map[] && readsLeft == None
      ensures FirstHeaviest(db, seen, headHeaderHash)
    {
      genesis := g;
      var ops := [SetTd(g.hash, g.difficulty), SetHeader(g), SetNumberToHash(0, g.hash), SetHashToNumber(g.hash, 0)];
      db := Batch(Db(map[], map[], map[], map[]), ops);
      headHeaderHash, headBlockHash, heads, readsLeft := g.hash, g.hash, map[], None;
      known, seen := map[g.hash := g], [g.hash];
      new;
      GenesisTables(g);
      GenesisValid(g, db);
      assert FirstAt(db, seen, g.hash, 0);
    }

    // ----- database reads -----

    /** One database read; false when it throws. */
    method Read() returns (ok: bool)
      modifies this`readsLeft
      ensures old(readsLeft).None? ==> ok && readsLeft.None?
    {
      match readsLeft
      case None => ok := true;
      case Some(n) =>
        ok := n > 0;
        if ok { readsLeft := Some(n - 1); }
    }

    method HashToNumber(hash: Hash) returns (r: Result<nat>)
      modifies this`readsLeft
      ensures r.Success? ==> hash in db.hashToNumber && r.value == db.hashToNumber[hash]
      ensures old(readsLeft).None? ==> readsLeft.None? && (r.Success? <==> hash in db.hashToNumber)
    {
      var ok := Read();
      if !ok || hash !in db.hashToNumber { return Failure; }
      return Success(db.hashToNumber[hash]);
    }

    /** A header is found under its hash and its number together. */
    method GetHeaderAt(hash: Hash, number: nat) returns (r: Result<Header>)
      modifies this`readsLeft
      ensures r.Success? ==> hash in db.headers && r.value == db.headers[hash] && r.value.number == number
      ensures old(readsLeft).None? ==>
        readsLeft.None? && (r.Success? <==> hash in db.headers && db.headers[hash].number == number)
    {
      var ok := Read();
      if !ok || hash !in db.headers || db.headers[hash].number != number { return Failure; }
      return Success(db.headers[hash]);
    }

    /** The number of a stored block can be looked up. */
    ghost predicate Numbered(hash: Hash)
      reads this`db
    {
      && (hash in db.hashToNumber <==> hash in db.headers)
      && (hash in db.headers ==> db.hashToNumber[hash] == db.headers[hash].number)
    }

    method GetHeader(hash: Hash) returns (r: Result<Header>)
      requires Numbered(hash)
      modifies this`readsLeft
      ensures r.Success? ==> hash in db.headers && r.value == db.headers[hash]
      ensures old(readsLeft).None? ==> readsLeft.None? && (r.Success? <==> hash in db.headers)
    {
      var number :- HashToNumber(hash);
      r := GetHeaderAt(hash, number);
    }

    method SafeNumberToHash(number: nat) returns (r: Result<Option<Hash>>)
      modifies this`readsLeft
      ensures r.Success? ==>
        r.value == if number in db.numberToHash then Some(db.numberToHash[number]) else None
      ensures old(readsLeft).None? ==> readsLeft.None? && r.Success?
    {
      var ok := Read();
      if !ok { return Failure; }
      return Success(if number in db.numberToHash then Some(db.numberToHash[number]) else None);
    }

    /** The canonical header at a number, on the chain below `top`. */
    method GetCanonicalHeader(number: nat, ghost top: Hash) returns (r: Result<Option<Header>>)
      requires Chain(db, genesis, top)
      modifies this`readsLeft
      ensures r.Success? ==>
        r.value == if number in db.numberToHash then Some(db.headers[db.numberToHash[number]]) else None
      ensures old(readsLeft).None? ==> readsLeft.None? && r.Success?
    {
      var hash :- SafeNumberToHash(number);
      if hash.None? { return Success(None); }
      var header :- GetHeaderAt(hash.value, number);
      return Success(Some(header));
    }

    method GetTotalDifficulty(hash: Hash) returns (r: Result<nat>)
      requires Tables()
      modifies this`readsLeft
      ensures r.Success? ==> hash in db.td && r.value == SumOfDifficulties(PathTo(known, genesis, hash))
      ensures old(readsLeft).None? ==> readsLeft.None? && (r.Success? <==> hash in db.td)
    {
      var _ :- HashToNumber(hash);
      var ok := Read();
      if !ok { return Failure; }
      return Success(db.td[hash]);
    }

    // ----- the two backward walks -----

    /** `x` is on the path, reached over stored headers, and the path is off the chain just above it. */
    ghost predicate WalkedTo(p: seq<Header>, x: Header)
      reads this
    {
      x.number < |p| && x == p[x.number] && Stored(db, p, x.number) && !Agrees(db, p, x.number + 1)
    }

    /** What the walks start from: the canonical chain and the new block's path. */
    ghost predicate Compare(p: seq<Header>)
      reads this
    {
      Chain(db, genesis, headHeaderHash) && IsPath(p, genesis) && StoredAs(db, p)
    }

    /** One step back from a header that is not canonical. */
    method ParentOf(x: Header, ghost p: seq<Header>) returns (r: Result<Header>)
      requires Compare(p) && WalkedTo(p, x) && x.number > 0 && !Agrees(db, p, x.number)
      modifies this`readsLeft
      ensures r.Success? ==> WalkedTo(p, r.value) && r.value.number == x.number - 1
      ensures old(readsLeft).None? ==> readsLeft.None? && (r.Failure? ==> !Connected(db, p))
    {
      assert LinkedAt(p, x.number);
      if p[x.number - 1].hash !in db.headers {
        NotConnected(p, x.number - 1);
      }
      r := GetHeaderAt(x.parentHash, x.number - 1);
    }

    /** A missing ancestor above which the path is off the chain leaves the block unconnected. */
    lemma NotConnected(p: seq<Header>, k: nat)
      requires Compare(p) && k < |p| - 1 && p[k].hash !in db.headers && !Agrees(db, p, k + 1)
      ensures !Connected(db, p)
    {
      forall m: nat | ForkPoint(db, p, m) ensures !Stored(db, p, m) {
        ForkBelow(db, genesis, headHeaderHash, p, m, k + 1);
      }
    }

    /** Walk back from the head and from the new header until the hashes meet. */
    method FindCommonAncestor(newHeader0: Header, ghost p: seq<Header>) returns (r: Result<Header>)
      requires Compare(p) && Numbered(headHeaderHash) && newHeader0 == p[|p|-1]
      modifies this`readsLeft
      ensures r.Success? ==>
        ForkPoint(db, p, r.value.number) && r.value == p[r.value.number] && Stored(db, p, r.value.number)
      ensures old(readsLeft).None? ==> readsLeft.None? && (r.Success? <==> Connected(db, p))
    {
      var newHeader := newHeader0;
      var header :- GetHeader(headHeaderHash);
      if header.number > newHeader.number {
        var canonical :- GetCanonicalHeader(newHeader.number, headHeaderHash);
        if canonical.None? { assert false; return Failure; }
        header := canonical.value;
      } else {
        while header.number != newHeader.number && newHeader.number > 0
          invariant header.number <= newHeader.number && WalkedTo(p, newHeader)
          invariant old(readsLeft).None? ==> readsLeft.None?
          decreases newHeader.number
        {
          newHeader :- ParentOf(newHeader, p);
        }
      }
      if header.number != newHeader.number { assert false; return Failure; }
      while header.hash != newHeader.hash && header.number > 0
        invariant header.number == newHeader.number && WalkedTo(p, newHeader)
        invariant header.number in db.numberToHash && header == db.headers[db.numberToHash[header.number]]
        invariant header.hash == db.numberToHash[header.number]
        invariant old(readsLeft).None? ==> readsLeft.None?
        decreases header.number
      {
        var canonical :- GetCanonicalHeader(header.number - 1, headHeaderHash);
        if canonical.None? { assert false; return Failure; }
        header := canonical.value;
        newHeader :- ParentOf(newHeader, p);
      }
      if header.hash != newHeader.hash { assert false; return Failure; }
      ForkPointHere(db, genesis, headHeaderHash, p, header.number);
      return Success(header);
    }

    // ----- moving the canonical index -----

    /** Whatever points at a stale canonical block points at `headHash` from now on. */
    method ResetStaleHeads(stale: Hash, headHash: Hash)
      modifies this`heads, this`headHeaderHash, this`headBlockHash
      ensures heads == MoveHeads(old(heads), stale, headHash)
      ensures headHeaderHash == if old(headHeaderHash) == stale then headHash else old(headHeaderHash)
      ensures headBlockHash == if old(headBlockHash) == stale then headHash else old(headBlockHash)
    {
      heads := MoveHeads(heads, stale, headHash);
      if headHeaderHash == stale {
        headHeaderHash := headHash;
      }
      if headBlockHash == stale {
        headBlockHash := headHash;
      }
    }

    /**
      Drop the number index from `number` up and move what pointed there to `headHash`.
      Only operations are collected; the tables are not written yet.
    */
    method DeleteCanonicalChainReferences(number: nat, headHash: Hash, ops0: seq<DbOp>, ghost top: Hash)
      returns (r: Result<seq<DbOp>>)
      requires Chain(db, genesis, top)
      requires headHash in db.headers ==> db.headers[headHash].number < number
      modifies this`readsLeft, this`heads, this`headHeaderHash, this`headBlockHash
      ensures old(readsLeft).None? ==> readsLeft.None? && r.Success?
      ensures heads.Keys == old(heads).Keys
      ensures forall name :: name in heads ==> heads[name] == old(heads)[name] || heads[name] == headHash
      ensures headHeaderHash == old(headHeaderHash) || headHeaderHash == headHash
      ensures headBlockHash == old(headBlockHash) || headBlockHash == headHash
      ensures r.Success? ==>
        var end := db.headers[top].number + 1;
        && Retargeted(old(heads), heads, db, number, end, headHash)
        && headHeaderHash == MovedTo(old(headHeaderHash), db, number, end, headHash)
        && headBlockHash == MovedTo(old(headBlockHash), db, number, end, headHash)
        && DropsFrom(Batch(db, ops0), Batch(db, r.value), number, end)
    {
      var blockNumber, ops := number, ops0;
      ghost var end := db.headers[top].number + 1;
      var hash :- SafeNumberToHash(blockNumber);
      while hash.Some?
        invariant number <= blockNumber && (number <= end ==> blockNumber <= end)
        invariant number > end ==> blockNumber == number
        invariant hash == if blockNumber in db.numberToHash then Some(db.numberToHash[blockNumber]) else None
        invariant Retargeted(old(heads), heads, db, number, blockNumber, headHash)
        invariant headHeaderHash == MovedTo(old(headHeaderHash), db, number, blockNumber, headHash)
        invariant headBlockHash == MovedTo(old(headBlockHash), db, number, blockNumber, headHash)
        invariant DropsFrom(Batch(db, ops0), Batch(db, ops), number, blockNumber)
        invariant old(readsLeft).None? ==> readsLeft.None?
        decreases end - blockNumber
      {
        DropsStep(db, Batch(db, ops0), ops, number, blockNumber);
        ops := ops + [DelNumberToHash(blockNumber)];
        RetargetStep(old(heads), heads, db, number, blockNumber, headHash);
        MovedStep(old(headHeaderHash), db, number, blockNumber, headHash);
        MovedStep(old(headBlockHash), db, number, blockNumber, headHash);
        ResetStaleHeads(hash.value, headHash);
        blockNumber := blockNumber + 1;
        hash :- SafeNumberToHash(blockNumber);
      }
      return Success(ops);
    }

    /** The heads flagged so far are those on the canonical blocks numbered lo..hi. */
    ghost predicate Flagged(staleHeads: set<string>, staleHeadBlock: bool, lo: nat, hi: nat)
      reads this`db, this`heads, this`headBlockHash
    {
      && (forall name :: name in staleHeads <==> name in heads && Dropped(db, heads[name], lo, hi))
      && (staleHeadBlock <==> Dropped(db, headBlockHash, lo, hi))
    }

    /** Flag the heads that stand on a stale canonical block. */
    method FlagStale(staleHash: Option<Hash>, staleHeads0: set<string>, staleHeadBlock0: bool,
                     ghost k: nat, ghost hi: nat)
      returns (staleHeads: set<string>, staleHeadBlock: bool)
      requires IndexSound(db) && k < hi && Flagged(staleHeads0, staleHeadBlock0, k + 1, hi)
      requires staleHash == if k in db.numberToHash then Some(db.numberToHash[k]) else None
      ensures Flagged(staleHeads, staleHeadBlock, k, hi)
    {
      staleHeads, staleHeadBlock := staleHeads0, staleHeadBlock0;
      if staleHash.Some? {
        staleHeads := staleHeads + (set name | name in heads && heads[name] == staleHash.value);
        if headBlockHash == staleHash.value {
          staleHeadBlock := true;
        }
      }
      DroppedStep(headBlockHash, db, k, hi);
      forall name | name in heads
        ensures name in staleHeads <==> Dropped(db, heads[name], k, hi)
      {
        DroppedStep(heads[name], db, k, hi);
      }
    }

    /** Set the flagged heads to the last valid canonical block. */
    method MoveFlagged(staleHeads: set<string>, staleHeadBlock: bool, hash: Hash, ghost lo: nat, ghost hi: nat)
      requires Flagged(staleHeads, staleHeadBlock, lo, hi)
      modifies this`heads, this`headBlockHash
      ensures Retargeted(old(heads), heads, db, lo, hi, hash)
      ensures headBlockHash == MovedTo(old(headBlockHash), db, lo, hi, hash)
    {
      heads := map name | name in heads :: if name in staleHeads then hash else heads[name];
      if staleHeadBlock {
        headBlockHash := hash;
      }
    }

    /** The header one lower on the path, and what is indexed there. */
    method StepBack(header: Header, ghost p: seq<Header>) returns (r: Result<(Header, Option<Hash>)>)
      requires IsPath(p, genesis) && StoredAs(db, p) && 0 < header.number < |p| && header == p[header.number]
      modifies this`readsLeft
      ensures r.Success? ==>
        var k := header.number - 1;
        && p[k].hash in db.headers
        && r.value == (p[k], if k in db.numberToHash then Some(db.numberToHash[k]) else None)
      ensures old(readsLeft).None? ==> readsLeft.None? && (p[header.number-1].hash in db.headers ==> r.Success?)
    {
      assert LinkedAt(p, header.number);
      var parent :- GetHeaderAt(header.parentHash, header.number - 1);
      var stale :- SafeNumberToHash(parent.number);
      return Success((parent, stale));
    }

    /**
      Walk back from the new head until the index agrees, collecting the index entries to
      write and the iterator heads that stood on the blocks they replace.  The ghost `m` is
      some fork point; the walk does not use it and stops there nevertheless.
    */
    method RebuildCanonical(header0: Header, ops0: seq<DbOp>, ghost p: seq<Header>, ghost m: nat)
      returns (r: Result<seq<DbOp>>)
      requires IndexSound(db) && IsPath(p, genesis) && StoredAs(db, p) && ForkPoint(db, p, m)
      requires header0 == p[|p|-1]
      requires NumberedPath(p)
      requires Batch(db, ops0).hashToNumber == db.hashToNumber
      modifies this`readsLeft, this`heads, this`headBlockHash
      ensures r.Failure? ==> heads == old(heads) && headBlockHash == old(headBlockHash)
      ensures r.Success? ==>
        && IndexesAbove(Batch(db, ops0), Batch(db, r.value), p, m)
        && Retargeted(old(heads), heads, db, m + 1, |p|, p[m].hash)
        && headBlockHash == MovedTo(old(headBlockHash), db, m + 1, |p|, p[m].hash)
      ensures old(readsLeft).None? ==> readsLeft.None?
      ensures old(readsLeft).None? && Stored(db, p, m) ==> r.Success?
    {
      var staleHash :- SafeNumberToHash(header0.number);
      var w := Walk(header0, staleHash, {}, false, ops0);
      ghost var d := Batch(db, ops0);
      while w.staleHash != Some(w.header.hash)
        invariant Walking(w, d, p, m) && (old(readsLeft).None? ==> readsLeft.None?)
        modifies this`readsLeft
        decreases w.header.number
      {
        w :- RebuildStep(w, d, p, m);
      }
      assert Agrees(db, p, w.header.number);
      MoveFlagged(w.staleHeads, w.staleHeadBlock, w.header.hash, w.header.number + 1, |p|);
      return Success(w.ops);
    }

    /** Where the walk stands: above its header the path is collected and the stale heads are flagged. */
    ghost predicate Walking(w: Walk, d: Db, p: seq<Header>, m: nat)
      reads this`db, this`heads, this`headBlockHash
    {
      && m <= w.header.number < |p| && w.header == p[w.header.number]
      && (w.header.number < |p| - 1 ==> w.header.hash in db.headers)
      && w.staleHash == (if w.header.number in db.numberToHash then Some(db.numberToHash[w.header.number]) else None)
      && IndexesAbove(d, Batch(db, w.ops), p, w.header.number)
      && Flagged(w.staleHeads, w.staleHeadBlock, w.header.number + 1, |p|)
    }

    /** Collect one block and go back to its parent. */
    method RebuildStep(w: Walk, ghost d: Db, ghost p: seq<Header>, ghost m: nat) returns (r: Result<Walk>)
      requires IndexSound(db) && IsPath(p, genesis) && StoredAs(db, p) && ForkPoint(db, p, m) && NumberedPath(p)
      requires d.hashToNumber == db.hashToNumber && Walking(w, d, p, m) && w.staleHash != Some(w.header.hash)
      modifies this`readsLeft
      ensures r.Success? ==> Walking(r.value, d, p, m) && r.value.header.number < w.header.number
      ensures old(readsLeft).None? ==> readsLeft.None? && (Stored(db, p, m) ==> r.Success?)
    {
      var header := w.header;
      if header.number == 0 {
        assert false;
        return Failure;
      }
      var ops := w.ops + SaveLookups(header.hash, header.number);
      IndexStep(db, d, w.ops, ops, p, header.number);
      var staleHeads, staleHeadBlock := FlagStale(w.staleHash, w.staleHeads, w.staleHeadBlock, header.number, |p|);
      var step :- StepBack(header, p);
      return Success(Walk(step.0, step.1, staleHeads, staleHeadBlock, ops));
    }

    // ----- putting a block -----

    /** The block has more total difficulty than the head, or proof of stake is in force. */
    ghost predicate Adopts(block: Header, proofOfStake: bool)
      requires Tables() && block.parentHash in known && headHeaderHash in known
      reads this
    {
      || proofOfStake
      || SumOfDifficulties(NewPath(known, genesis, block)) > TotalDifficulty(known, genesis, headHeaderHash)
    }

    /** The stored blocks of a path are stored under their numbers. */
    ghost predicate NumberedPath(p: seq<Header>)
      reads this`db
    {
      forall k :: 0 <= k < |p| && p[k].hash in db.headers ==>
        p[k].hash in db.hashToNumber && db.hashToNumber[p[k].hash] == k
    }

    /** Store a block that becomes the new head. */
    method Adopt(block: Header, td: nat, ghost p: seq<Header>) returns (r: Result<()>, ghost m: nat)
      requires Compare(p) && Numbered(headHeaderHash) && NumberedPath(p) && block == p[|p|-1]
      modifies this`db, this`heads, this`headHeaderHash, this`headBlockHash, this`readsLeft
      ensures r.Failure? ==> db == old(db)
      ensures old(readsLeft).None? ==> readsLeft.None? && (r.Success? <==> Connected(old(db), p))
      ensures r.Success? ==> headHeaderHash == block.hash && headBlockHash == block.hash
      ensures r.Success? ==> Reorganised(old(db), old(heads), db, heads, p, m) && Stored(old(db), p, m)
      ensures r.Success? ==> Records(old(db), db, block, td)
    {
      m := 0;
      var dbOps := [SetTd(block.hash, td), SetHeader(block)];
      StoringOps(db, block, td);
      var commonAncestor :- FindCommonAncestor(block, p);
      m := commonAncestor.number;
      r := RewriteCanonical(block, dbOps, p, m);
    }

    /** Move the heads, drop the index above the block and rebuild it below, and write it all. */
    method RewriteCanonical(block: Header, dbOps0: seq<DbOp>, ghost p: seq<Header>, ghost m: nat)
      returns (r: Result<()>)
      requires Compare(p) && NumberedPath(p) && block == p[|p|-1] && ForkPoint(db, p, m)
      requires Batch(db, dbOps0).hashToNumber == db.hashToNumber && Batch(db, dbOps0).numberToHash == db.numberToHash
      modifies this`db, this`heads, this`headHeaderHash, this`headBlockHash, this`readsLeft
      ensures r.Failure? ==> db == old(db)
      ensures old(readsLeft).None? ==> readsLeft.None? && (Stored(old(db), p, m) ==> r.Success?)
      ensures r.Success? ==> headHeaderHash == block.hash && headBlockHash == block.hash
      ensures r.Success? ==> Reorganised(old(db), old(heads), db, heads, p, m)
      ensures r.Success? ==>
        var d0 := Batch(old(db), dbOps0);
        && db.headers == d0.headers && db.td == d0.td
        && db.hashToNumber == old(db).hashToNumber[block.hash := block.number]
    {
      ghost var top, db0, d0 := headHeaderHash, db, Batch(db, dbOps0);
      headHeaderHash := block.hash;
      headBlockHash := block.hash;
      NewHeadStays(db, p, m, db.headers[top].number + 1);
      var dbOps :- DeleteCanonicalChainReferences(block.number + 1, block.hash, dbOps0, top);
      ghost var d1, heads1 := Batch(db, dbOps), heads;
      dbOps :- RebuildCanonical(block, dbOps, p, m);
      db := Batch(db, dbOps);
      IndexRebuilt(db0, d0, d1, db, genesis, top, p, m);
      HeadsRebuilt(old(heads), heads1, heads, db0, genesis, top, p, m);
      return Success(());
    }

    /** What validation asks of a block: a stored parent one below it, and the other checks. */
    ghost predicate Acceptable(block: Header, otherChecks: bool)
      reads this`db
    {
      otherChecks && block.parentHash in db.headers && db.headers[block.parentHash].number + 1 == block.number
    }

    lemma PathNumbered(block: Header)
      requires Tables() && Fresh(known, genesis, block)
      ensures NumberedPath(NewPath(known, genesis, block))
    {
      var q, p := PathTo(known, genesis, block.parentHash), NewPath(known, genesis, block);
      PathToIsPath(known, genesis, block.parentHash);
      forall k | 0 <= k < |p| && p[k].hash in db.headers
        ensures p[k].hash in db.hashToNumber && db.hashToNumber[p[k].hash] == k
      {
        if k < |q| { assert q[k] in q; }
      }
    }

    /** The total difficulties of the head header, the head block and the new block. */
    method TotalDifficulties(block: Header) returns (r: Result<(nat, nat, nat)>)
      requires Tables() && Fresh(known, genesis, block)
      requires headHeaderHash in db.headers && headBlockHash == headHeaderHash
      modifies this`readsLeft
      ensures r.Success? ==>
        var head := TotalDifficulty(known, genesis, headHeaderHash);
        r.value == (head, head, SumOfDifficulties(NewPath(known, genesis, block)))
      ensures old(readsLeft).None? && block.parentHash in db.headers ==> readsLeft.None? && r.Success?
    {
      var currentTdHeader :- GetTotalDifficulty(headHeaderHash);
      var currentTdBlock :- GetTotalDifficulty(headBlockHash);
      var parentTd :- GetTotalDifficulty(block.parentHash);
      ghost var p := NewPath(known, genesis, block);
      assert p[..|p|-1] == PathTo(known, genesis, block.parentHash);
      return Success((currentTdHeader, currentTdBlock, block.difficulty + parentTd));
    }

    /** Write the block, as the new head when it outweighs the present one. */
    method Place(block: Header, td: nat, currentTdHeader: nat, currentTdBlock: nat, proofOfStake: bool,
                 ghost p: seq<Header>)
      returns (r: Result<()>, ghost m: nat)
      requires Compare(p) && Numbered(headHeaderHash) && NumberedPath(p) && block == p[|p|-1]
      requires td == SumOfDifficulties(p)
      modifies this`db, this`heads, this`headHeaderHash, this`headBlockHash, this`readsLeft
      ensures var adopts := td > currentTdHeader || proofOfStake;
        && (r.Failure? ==> db == old(db))
        && (r.Success? ==> Placed(old(db), old(heads), old(headHeaderHash), db, heads, headHeaderHash, p, adopts, m))
        && (r.Success? ==> headBlockHash == if adopts || td > currentTdBlock then block.hash else old(headBlockHash))
        && (old(readsLeft).None? ==> readsLeft.None? && (r.Success? <==> !adopts || Connected(old(db), p)))
    {
      if td > currentTdHeader || proofOfStake {
        r, m := Adopt(block, td, p);
      } else {
        m := 0;
        if td > currentTdBlock { headBlockHash := block.hash; }
        StoringOps(db, block, td);
        BatchPush(db, [SetTd(block.hash, td), SetHeader(block)], SetHashToNumber(block.hash, block.number));
        db := Batch(db, [SetTd(block.hash, td), SetHeader(block)] + [SetHashToNumber(block.hash, block.number)]);
        r := Success(());
      }
    }

    /** A put without the restoring of the heads around it. */
    method PutBody(block: Header, proofOfStake: bool, otherChecks: bool) returns (r: Result<()>, ghost m: nat)
      requires Valid() && block.number > 0 && (block.hash in known ==> known[block.hash] == block)
      modifies this`db, this`heads, this`headHeaderHash, this`headBlockHash, this`readsLeft
      ensures r.Failure? ==> db == old(db)
      ensures r.Success? ==> old(Acceptable(block, otherChecks))
      ensures r.Success? ==>
        Placed(old(db), old(heads), old(headHeaderHash), db, heads, headHeaderHash,
               old(NewPath(known, genesis, block)), old(Adopts(block, proofOfStake)), m)
      ensures r.Success? ==> headBlockHash == headHeaderHash
      ensures old(readsLeft).None? ==> (r.Success? <==>
        old(Acceptable(block, otherChecks)) &&
        (old(Adopts(block, proofOfStake)) ==> Connected(old(db), old(NewPath(known, genesis, block)))))
    {
      m := 0;
      var parent :- GetHeader(block.parentHash);
      if !otherChecks || block.number != parent.number + 1 { return Failure, m; }
      var tds :- TotalDifficulties(block);
      NewPathIsPath(db, known, genesis, block);
      PathNumbered(block);
      r, m := Place(block, tds.2, tds.0, tds.1, proofOfStake, NewPath(known, genesis, block));
    }

    /**
      Put a block.  Success stores it and, when it outweighs the head, reorganises the chain to
      its path; failure leaves everything as it was, whatever the walks had already changed.
    */
    method PutBlock(block: Header, proofOfStake: bool, otherChecks: bool) returns (r: Result<()>, ghost m: nat)
      requires Valid() && (block.hash in known ==> known[block.hash] == block)
      modifies this
      ensures Valid()
      ensures r.Failure? || block.number == 0 ==>
        && db == old(db) && heads == old(heads) && known == old(known) && seen == old(seen)
        && headHeaderHash == old(headHeaderHash) && headBlockHash == old(headBlockHash)
      ensures block.number == 0 ==> (r.Success? <==> block == genesis)
      ensures r.Success? && block.number > 0 ==>
        && old(Acceptable(block, otherChecks)) && known == old(known)[block.hash := block]
        && Placed(old(db), old(heads), old(headHeaderHash), db, heads, headHeaderHash,
                  old(NewPath(known, genesis, block)), old(Adopts(block, proofOfStake)), m)
      ensures old(readsLeft).None? && block.number > 0 ==> (r.Success? <==>
        old(Acceptable(block, otherChecks)) &&
        (old(Adopts(block, proofOfStake)) ==> Connected(old(db), old(NewPath(known, genesis, block)))))
      ensures !proofOfStake && old(FirstHeaviest(db, seen, headHeaderHash)) ==> FirstHeaviest(db, seen, headHeaderHash)
    {
      if block.number == 0 {
        m := 0;
        r := if block.hash == genesis.hash then Success(()) else Failure;
      } else {
        r, m := PutAboveGenesis(block, proofOfStake, otherChecks);
        if r.Success? && !proofOfStake && old(FirstHeaviest(db, seen, headHeaderHash)) {
          PlacedHeaviest(old(db), old(heads), old(headHeaderHash), db, heads, headHeaderHash,
                         old(known), genesis, block, m, old(seen));
        }
      }
    }

    method PutAboveGenesis(block: Header, proofOfStake: bool, otherChecks: bool) returns (r: Result<()>, ghost m: nat)
      requires Valid() && block.number > 0 && (block.hash in known ==> known[block.hash] == block)
      modifies this
      ensures Valid()
      ensures r.Failure? ==>
        && db == old(db) && heads == old(heads) && known == old(known) && seen == old(seen)
        && headHeaderHash == old(headHeaderHash) && headBlockHash == old(headBlockHash)
      ensures r.Success? ==>
        && old(Acceptable(block, otherChecks)) && known == old(known)[block.hash := block]
        && Placed(old(db), old(heads), old(headHeaderHash), db, heads, headHeaderHash,
                  old(NewPath(known, genesis, block)), old(Adopts(block, proofOfStake)), m)
      ensures old(readsLeft).None? ==> (r.Success? <==>
        old(Acceptable(block, otherChecks)) &&
        (old(Adopts(block, proofOfStake)) ==> Connected(old(db), old(NewPath(known, genesis, block)))))
      ensures r.Success? ==> seen == if block.hash in old(db).headers then old(seen) else old(seen) + [block.hash]
    {
      var oldHeads, oldHeadHeaderHash, oldHeadBlockHash := heads, headHeaderHash, headBlockHash;
      ghost var adopts := block.parentHash in known && Adopts(block, proofOfStake);
      r, m := PutBody(block, proofOfStake, otherChecks);
      if r.Failure? {
        heads, headHeaderHash, headBlockHash := oldHeads, oldHeadHeaderHash, oldHeadBlockHash;
        return;
      }
      PlacedBlock(old(db), oldHeads, oldHeadHeaderHash, db, heads, headHeaderHash, known, genesis, block, adopts, m);
      Record(known[block.hash := block], if block.hash in old(db).headers then seen else seen + [block.hash]);
    }

    /** Account for a stored block in the ghost history. */
    ghost method Record(known': map<Hash, Header>, seen': seq<Hash>)
      requires Lineage(known', genesis) && Truthful(db, known', genesis)
      requires Chain(db, genesis, headHeaderHash) && AllOnChain(db, heads) && headBlockHash == headHeaderHash
      modifies this`known, this`seen
      ensures Valid() && known == known' && seen == seen'
    {
      known, seen := known', seen';
    }

    // ----- resetting the head -----

    /** Everything but the truthfulness of the tables. */
    ghost predicate Headed()
      reads this
    {
      Chain(db, genesis, headHeaderHash) && headBlockHash == headHeaderHash && AllOnChain(db, heads)
    }

    /** Make the canonical block numbered `n` the head. */
    method ResetCanonicalHead(n: nat) returns (r: Result<()>)
      requires Valid()
      modifies this`db, this`heads, this`headHeaderHash, this`headBlockHash, this`readsLeft
      ensures r.Success? || old(readsLeft).None? ==> Valid()
      ensures r.Success? ==>
        && n in old(db).numberToHash && headHeaderHash == old(db).numberToHash[n]
        && DropsFrom(old(db), db, n + 1, old(db).headers[old(headHeaderHash)].number + 1)
        && Retargeted(old(heads), heads, old(db), n + 1, old(db).headers[old(headHeaderHash)].number + 1,
          headHeaderHash)
      ensures r.Failure? ==> db == old(db) && AllOnChain(db, heads)
      ensures old(readsLeft).None? ==> (r.Success? <==> n in old(db).numberToHash)
      ensures old(readsLeft).None? && r.Failure? ==> heads == old(heads) && headHeaderHash == old(headHeaderHash)
    {
      assert Headed();
      r := ResetBody(n);
    }

    method ResetBody(n: nat) returns (r: Result<()>)
      requires Headed()
      modifies this`db, this`heads, this`headHeaderHash, this`headBlockHash, this`readsLeft
      ensures r.Success? || old(readsLeft).None? ==> Headed()
      ensures r.Success? ==>
        && n in old(db).numberToHash && headHeaderHash == old(db).numberToHash[n]
        && DropsFrom(old(db), db, n + 1, old(db).headers[old(headHeaderHash)].number + 1)
        && Retargeted(old(heads), heads, old(db), n + 1, old(db).headers[old(headHeaderHash)].number + 1,
          headHeaderHash)
      ensures r.Failure? ==> db == old(db) && AllOnChain(db, heads)
      ensures old(readsLeft).None? ==> (r.Success? <==> n in old(db).numberToHash)
      ensures old(readsLeft).None? && r.Failure? ==> heads == old(heads) && headHeaderHash == old(headHeaderHash)
    {
      ghost var top, db0 := headHeaderHash, db;
      var canonical :- SafeNumberToHash(n);
      if canonical.None? { return Failure; }
      var hash := canonical.value;
      var header :- GetHeaderAt(hash, n);
      var dbOps :- DeleteCanonicalChainReferences(n + 1, hash, [], top);
      db := Batch(db, dbOps);
      CutChain(db0, db, genesis, top, n, old(heads), heads);
      return Success(());
    }

    // ----- deleting a block -----

    /** Collect the deletion of a block and, when it is canonical, of the canonical blocks above it. */
    method DelChild(blockHash: Hash, blockNumber: nat, headHash: Option<Hash>, ops0: seq<DbOp>, ghost top: Hash)
      returns (r: Result<seq<DbOp>>)
      requires Chain(db, genesis, top)
      requires headHash.Some? ==> blockNumber in db.numberToHash && db.numberToHash[blockNumber] == blockHash
      modifies this`readsLeft, this`headHeaderHash, this`headBlockHash
      ensures headHash.None? ==> headHeaderHash == old(headHeaderHash) && headBlockHash == old(headBlockHash)
      ensures headHash.Some? ==> headHeaderHash == old(headHeaderHash) || headHeaderHash == headHash.value
      ensures headHash.Some? ==> headBlockHash == old(headBlockHash) || headBlockHash == headHash.value
      ensures r.Success? ==>
        Without(Batch(db, ops0), Batch(db, r.value),
                if headHash.None? then {blockHash} else CanonicalFrom(db, blockNumber))
      ensures old(readsLeft).None? ==> readsLeft.None? && r.Success?
      decreases if headHash.None? then 0 else db.headers[top].number + 1 - blockNumber
    {
      var ops := ops0 + [DelHeader(blockHash), DelHashToNumber(blockHash), DelTd(blockHash)];
      WithoutOne(db, ops0, blockHash);
      if headHash.None? {
        return Success(ops);
      }
      if headHeaderHash == blockHash { headHeaderHash := headHash.value; }
      if headBlockHash == blockHash { headBlockHash := headHash.value; }
      var child := GetCanonicalHeader(blockNumber + 1, top);
      if child.Failure? { return Failure; }
      if child.value.None? {
        assert CanonicalFrom(db, blockNumber) == {blockHash};
        return Success(ops);
      }
      r := DelChild(child.value.value.hash, child.value.value.number, headHash, ops, top);
      if r.Success? {
        assert CanonicalFrom(db, blockNumber) == {blockHash} + CanonicalFrom(db, blockNumber + 1);
        WithoutMore(Batch(db, ops0), Batch(db, ops), Batch(db, r.value), {blockHash},
          CanonicalFrom(db, blockNumber + 1));
      }
    }

    /** Delete a block, with the canonical blocks above it when it is canonical itself. */
    method DelBlock(blockHash: Hash) returns (r: Result<()>)
      requires Valid() && blockHash != genesis.hash
      modifies this`db, this`heads, this`headHeaderHash, this`headBlockHash, this`readsLeft
      ensures r.Success? || old(readsLeft).None? ==> Valid()
      ensures r.Success? ==>
        Deleted(old(db), old(heads), old(headHeaderHash), db, heads, headHeaderHash, blockHash)
      ensures r.Failure? ==> db == old(db) && AllOnChain(db, heads)
      ensures old(readsLeft).None? ==> (r.Success? <==> blockHash in old(db).headers)
    {
      StoredBlock(db, known, genesis, blockHash);
      ghost var gone, db0, known0 := {}, db, known;
      r, gone := DelBody(blockHash);
      TruthfulWithout(db0, db, known0, genesis, gone);
    }

    method DelBody(blockHash: Hash) returns (r: Result<()>, ghost gone: set<Hash>)
      requires Headed() && Numbered(blockHash) && blockHash != genesis.hash
      requires blockHash in db.headers ==> db.headers[blockHash].number > 0
      modifies this`db, this`heads, this`headHeaderHash, this`headBlockHash, this`readsLeft
      ensures r.Success? || old(readsLeft).None? ==> Headed()
      ensures db.headers == old(db).headers - gone && db.td == old(db).td - gone
      ensures db.hashToNumber == old(db).hashToNumber - gone
      ensures r.Success? ==>
        Deleted(old(db), old(heads), old(headHeaderHash), db, heads, headHeaderHash, blockHash)
      ensures r.Failure? ==> db == old(db) && AllOnChain(db, heads)
      ensures old(readsLeft).None? ==> (r.Success? <==> blockHash in old(db).headers)
    {
      gone := {};
      var header :- GetHeader(blockHash);
      var canonicalHash :- SafeNumberToHash(header.number);
      if canonicalHash == Some(blockHash) {
        r := DelCanonical(header);
        if r.Success? { gone := CanonicalFrom(old(db), header.number); }
      } else {
        ghost var db0 := db;
        var ops :- DelChild(blockHash, header.number, None, [], headHeaderHash);
        gone := {blockHash};
        db := Batch(db, ops);
        ChainKeptWithout(db0, db, genesis, headHeaderHash, blockHash);
        r := Success(());
      }
    }

    /** Delete a canonical block and those above it; the block below becomes the head. */
    method DelCanonical(header: Header) returns (r: Result<()>)
      requires Headed() && OnChain(db, header.hash) && header == db.headers[header.hash] && header.number > 0
      modifies this`db, this`heads, this`headHeaderHash, this`headBlockHash, this`readsLeft
      ensures r.Success? || old(readsLeft).None? ==> r.Success? && Headed()
      ensures r.Success? ==>
        && Deleted(old(db), old(heads), old(headHeaderHash), db, heads, headHeaderHash, header.hash)
        && db.td == old(db).td - CanonicalFrom(old(db), header.number)
        && db.hashToNumber == old(db).hashToNumber - CanonicalFrom(old(db), header.number)
      ensures r.Failure? ==> db == old(db) && AllOnChain(db, heads)
    {
      ghost var top, db0 := headHeaderHash, db;
      assert ChildAt(db, header.number);
      var ops :- DelChild(header.hash, header.number, Some(header.parentHash), [], top);
      ghost var d := Batch(db, ops);
      HeadCut(db, genesis, top, header.number, header.parentHash, headHeaderHash);
      HeadCut(db, genesis, top, header.number, header.parentHash, headBlockHash);
      ops :- DeleteCanonicalChainReferences(header.number, header.parentHash, ops, top);
      db := Batch(db, ops);
      CutBranch(db0, d, db, genesis, top, header.number, header.parentHash, old(heads), heads);
      CutDeletes(db0, d, db, genesis, top, header, old(heads), heads);
      return Success(());
    }

    // ----- iterating -----

    /** Where an iterator stands: at its head, or at genesis before its first run. */
    ghost function IteratorAt(name: string): Hash
      reads this
    {
      if name in heads then heads[name] else genesis.hash
    }

    /** How many blocks there are to run: those above the head, at most `maxBlocks`. */
    ghost function BlocksToRun(start: nat, maxBlocks: Option<int>): int
      requires headHeaderHash in db.headers
      reads this
    {
      var above := db.headers[headHeaderHash].number - start;
      if maxBlocks.Some? && maxBlocks.value < above then maxBlocks.value else above
    }

    /**
      Run a callback over the canonical blocks above an iterator's head.  The head follows
      each block that was run; where the callback throws it stays before that block, and the
      error passes through unless it says that something was not found.
    */
    method Iterator(name: string, maxBlocks: Option<int>, callback: Callback) returns (r: Result<nat>, ghost ran: nat)
      requires Headed() && Numbered(IteratorAt(name))
      modifies this`heads, this`readsLeft
      ensures Headed()
      ensures var start := db.headers[old(IteratorAt(name))].number;
        && (ran > 0 ==> start + ran <= db.headers[headHeaderHash].number)
        && heads == if ran == 0 then old(heads) else old(heads)[name := db.numberToHash[start + ran]]
      ensures maxBlocks.Some? && maxBlocks.value < 0 ==> r.Failure? && ran == 0
      ensures r.Success? ==>
        r.value == ran == RunBy(callback, BlocksToRun(db.headers[old(IteratorAt(name))].number, maxBlocks))
      ensures old(readsLeft).None? && (maxBlocks.Some? ==> maxBlocks.value >= 0) ==>
        var blocks := BlocksToRun(db.headers[old(IteratorAt(name))].number, maxBlocks);
        && ran == RunBy(callback, blocks)
        && (r.Success? <==> !(callback.ThrowsAt? && callback.block < blocks && !callback.notFound))
    {
      if maxBlocks.Some? && maxBlocks.value < 0 { return Failure, 0; }
      ran := 0;
      assert OnChain(db, IteratorAt(name));
      var number :- HashToNumber(if name in heads then heads[name] else genesis.hash);
      r, ran := RunBlocks(name, number, maxBlocks, callback);
    }

    method RunBlocks(name: string, start: nat, maxBlocks: Option<int>, callback: Callback)
      returns (r: Result<nat>, ghost ran: nat)
      requires Headed() && start <= db.headers[headHeaderHash].number && (maxBlocks.Some? ==> maxBlocks.value >= 0)
      modifies this`heads, this`readsLeft
      ensures Headed() && start + ran <= db.headers[headHeaderHash].number
      ensures heads == if ran == 0 then old(heads) else old(heads)[name := db.numberToHash[start + ran]]
      ensures r.Success? ==> r.value == ran == RunBy(callback, BlocksToRun(start, maxBlocks))
      ensures old(readsLeft).None? ==>
        var blocks := BlocksToRun(start, maxBlocks);
        && ran == RunBy(callback, blocks)
        && (r.Success? <==> !(callback.ThrowsAt? && callback.block < blocks && !callback.notFound))
    {
      ran := 0;
      ghost var top, blocks := headHeaderHash, BlocksToRun(start, maxBlocks);
      var counter := 0;
      while maxBlocks != Some(counter)
        invariant counter == ran <= blocks && (callback.ThrowsAt? ==> ran <= callback.block)
        invariant heads == if ran == 0 then old(heads) else old(heads)[name := db.numberToHash[start + ran]]
        invariant Headed()
        invariant old(readsLeft).None? ==> readsLeft.None?
        decreases blocks - ran
      {
        var next :- GetCanonicalHeader(start + counter + 1, top);
        if next.None? { break; }
        if callback.ThrowsAt? && callback.block == counter {
          if callback.notFound { break; }
          return Failure, ran;
        }
        MoveHead(name, next.value.hash);
        counter := counter + 1;
        ran := counter;
      }
      return Success(counter), ran;
    }

    method MoveHead(name: string, hash: Hash)
      requires Headed() && OnChain(db, hash)
      modifies this`heads
      ensures Headed() && heads == old(heads)[name := hash]
    {
      heads := heads[name := hash];
    }
  }
}
