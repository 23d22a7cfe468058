/**
  Block headers, the tables the blockchain keeps of them, and what a header's ancestry
  says: its ancestor at each height and the difficulty summed along its path.
*/
module ChainModel {
  import opened Wrappers

  type Hash = nat

  datatype Header = Header(hash: Hash, parentHash: Hash, number: nat, difficulty: nat)

  /** The database tables: headers, total difficulties and the two lookup indices. */
  datatype Db = Db(
    headers: map<Hash, Header>,
    td: map<Hash, nat>,
    hashToNumber: map<Hash, nat>,
    numberToHash: map<nat, Hash>)

  datatype DbOp =
    | SetTd(hash: Hash, td: nat)
    | SetHeader(header: Header)
    | SetHashToNumber(hash: Hash, number: nat)
    | SetNumberToHash(number: nat, hash: Hash)
    | DelNumberToHash(number: nat)
    | DelHeader(hash: Hash)
    | DelHashToNumber(hash: Hash)
    | DelTd(hash: Hash)

  function Apply(db: Db, op: DbOp): Db
  {
    match op
    case SetTd(h, td) => db.(td := db.td[h := td])
    case SetHeader(hd) => db.(headers := db.headers[hd.hash := hd])
    case SetHashToNumber(h, n) => db.(hashToNumber := db.hashToNumber[h := n])
    case SetNumberToHash(n, h) => db.(numberToHash := db.numberToHash[n := h])
    case DelNumberToHash(n) => db.(numberToHash := db.numberToHash - {n})
    case DelHeader(h) => db.(headers := db.headers - {h})
    case DelHashToNumber(h) => db.(hashToNumber := db.hashToNumber - {h})
    case DelTd(h) => db.(td := db.td - {h})
  }

  /** All operations of a batch, in order, at once. */
  function Batch(db: Db, ops: seq<DbOp>): Db
  {
    if ops == [] then db else Apply(Batch(db, ops[..|ops|-1]), ops[|ops|-1])
  }

  lemma BatchPush(db: Db, ops: seq<DbOp>, op: DbOp)
    ensures Batch(db, ops + [op]) == Apply(Batch(db, ops), op)
  {
    assert (ops + [op])[..|ops|] == ops;
  }

  lemma BatchThree(db: Db, ops: seq<DbOp>, a: DbOp, b: DbOp, c: DbOp)
    ensures Batch(db, ops + [a, b, c]) == Apply(Apply(Apply(Batch(db, ops), a), b), c)
  {
    BatchPush(db, ops, a);
    BatchPush(db, ops + [a], b);
    BatchPush(db, ops + [a] + [b], c);
    OneByOne(ops, a, b, c);
  }

  lemma OneByOne<T>(s: seq<T>, a: T, b: T, c: T)
    ensures s + [a] + [b] + [c] == s + [a, b, c]
  {
  }

  // ----- ancestry -----

  /** Every header ever seen, by hash: hashes do not collide and parents are one lower. */
  ghost predicate Lineage(known: map<Hash, Header>, genesis: Header)
  {
    && genesis.number == 0 && genesis.hash in known && known[genesis.hash] == genesis
    && (forall h :: h in known ==> known[h].hash == h && (known[h].number == 0 ==> h == genesis.hash))
    && forall h {:trigger ParentSeen(known, h)} :: h in known ==> ParentSeen(known, h)
  }

  ghost predicate ParentSeen(known: map<Hash, Header>, h: Hash)
    requires h in known
  {
    var hd := known[h];
    hd.number > 0 ==> hd.parentHash in known && known[hd.parentHash].number + 1 == hd.number
  }

  /** The path from genesis to `h`: at index `k` the ancestor of `h` (or `h` itself) at height `k`. */
  ghost function PathTo(known: map<Hash, Header>, genesis: Header, h: Hash): (p: seq<Header>)
    requires Lineage(known, genesis) && h in known
    ensures |p| == known[h].number + 1 && p[|p|-1] == known[h]
    decreases known[h].number
  {
    assert ParentSeen(known, h);
    if known[h].number == 0 then [known[h]] else PathTo(known, genesis, known[h].parentHash) + [known[h]]
  }

  /** The difficulties along the path from genesis. */
  ghost function SumOfDifficulties(p: seq<Header>): nat
  {
    if p == [] then 0 else SumOfDifficulties(p[..|p|-1]) + p[|p|-1].difficulty
  }

  ghost predicate LinkedAt(p: seq<Header>, k: nat)
  {
    0 < k < |p| && p[k].parentHash == p[k-1].hash
  }

  /** A gap-free parent-linked sequence of headers from genesis. */
  ghost predicate IsPath(p: seq<Header>, genesis: Header)
  {
    && p != [] && p[0] == genesis
    && (forall k :: 0 <= k < |p| ==> p[k].number == k)
    && (forall k: nat {:trigger LinkedAt(p, k)} :: 0 < k < |p| ==> LinkedAt(p, k))
  }

  lemma {:induction false} PathToIsPath(known: map<Hash, Header>, genesis: Header, h: Hash)
    requires Lineage(known, genesis) && h in known
    ensures IsPath(PathTo(known, genesis, h), genesis)
    ensures forall x :: x in PathTo(known, genesis, h) ==> x.hash in known && known[x.hash] == x
    decreases known[h].number
  {
    assert ParentSeen(known, h);
    if known[h].number > 0 {
      var parent, p := known[h].parentHash, PathTo(known, genesis, h);
      var q := PathTo(known, genesis, parent);
      PathToIsPath(known, genesis, parent);
      forall k: nat | 0 < k < |p| ensures LinkedAt(p, k) {
        if k < |q| { assert LinkedAt(q, k); }
      }
    }
  }

  ghost predicate Extends(known: map<Hash, Header>, known': map<Hash, Header>)
  {
    forall h :: h in known ==> h in known' && known'[h] == known[h]
  }

  lemma {:induction false} PathStable(known: map<Hash, Header>, known': map<Hash, Header>, genesis: Header, h: Hash)
    requires Lineage(known, genesis) && Lineage(known', genesis) && Extends(known, known')
    requires h in known
    ensures PathTo(known', genesis, h) == PathTo(known, genesis, h)
    decreases known[h].number
  {
    if known[h].number > 0 {
      assert ParentSeen(known, h);
      PathStable(known, known', genesis, known[h].parentHash);
    }
  }

  // ----- the tables -----

  /**
    The tables describe stored blocks truthfully: each stored header is one seen before, its
    number can be looked up, and its total difficulty is the sum along its path.
  */
  ghost predicate Truthful(db: Db, known: map<Hash, Header>, genesis: Header)
    requires Lineage(known, genesis)
  {
    Described(db, known) && Totalled(db, known, genesis)
  }

  ghost predicate Described(db: Db, known: map<Hash, Header>)
  {
    && db.hashToNumber.Keys == db.headers.Keys && db.td.Keys == db.headers.Keys
    && forall h :: h in db.headers ==>
         h in known && db.headers[h] == known[h] && db.hashToNumber[h] == known[h].number
  }

  ghost predicate Totalled(db: Db, known: map<Hash, Header>, genesis: Header)
    requires Lineage(known, genesis)
  {
    forall h :: h in db.headers && h in known && h in db.td ==> db.td[h] == TotalDifficulty(known, genesis, h)
  }

  /** What a block's total difficulty should be: the sum along its path. */
  ghost function TotalDifficulty(known: map<Hash, Header>, genesis: Header, h: Hash): nat
    requires Lineage(known, genesis) && h in known
  {
    SumOfDifficulties(PathTo(known, genesis, h))
  }

  /**
    The number index is a gap-free chain of stored blocks, each the parent of the next,
    from genesis to `top` and no further.
  */
  ghost predicate Chain(db: Db, genesis: Header, top: Hash)
  {
    && top in db.headers && genesis.hash in db.headers
    && db.headers[genesis.hash] == genesis
    && (forall n: nat :: n in db.numberToHash <==> n <= db.headers[top].number)
    && db.numberToHash[db.headers[top].number] == top
    && db.numberToHash[0] == genesis.hash
    && IndexSound(db)
    && (forall n: nat {:trigger ChildAt(db, n)} :: 0 < n <= db.headers[top].number ==> ChildAt(db, n))
  }

  /** Each index entry is a stored block of that number. */
  ghost predicate IndexSound(db: Db)
  {
    forall n :: n in db.numberToHash ==>
      && db.numberToHash[n] in db.headers
      && db.headers[db.numberToHash[n]].number == n && db.headers[db.numberToHash[n]].hash == db.numberToHash[n]
  }

  /** The block indexed at `n` is a child of the one indexed below it. */
  ghost predicate ChildAt(db: Db, n: nat)
  {
    && n > 0 && n in db.numberToHash && n - 1 in db.numberToHash && db.numberToHash[n] in db.headers
    && db.headers[db.numberToHash[n]].parentHash == db.numberToHash[n-1]
  }

  ghost predicate OnChain(db: Db, h: Hash)
  {
    h in db.headers && db.headers[h].number in db.numberToHash && db.numberToHash[db.headers[h].number] == h
  }

  // ----- where a path leaves the canonical chain -----

  /** What is stored of a path is stored as it is. */
  ghost predicate StoredAs(db: Db, p: seq<Header>)
  {
    forall k :: 0 <= k < |p| && p[k].hash in db.headers ==> db.headers[p[k].hash] == p[k]
  }

  ghost predicate Agrees(db: Db, p: seq<Header>, k: nat)
  {
    k < |p| && k in db.numberToHash && db.numberToHash[k] == p[k].hash
  }

  /** The block at `m` is canonical and on the path, and no higher block is both. */
  ghost predicate ForkPoint(db: Db, p: seq<Header>, m: nat)
  {
    Agrees(db, p, m) && forall k: nat :: m < k ==> !Agrees(db, p, k)
  }

  /** The blocks of the path from height `m` to just below its end are stored. */
  ghost predicate Stored(db: Db, p: seq<Header>, m: nat)
  {
    forall k :: m <= k < |p| - 1 ==> p[k].hash in db.headers
  }

  /** The ancestors down to the fork point are all stored. */
  ghost predicate Connected(db: Db, p: seq<Header>)
  {
    exists m: nat :: ForkPoint(db, p, m) && Stored(db, p, m)
  }

  /** A path that agrees with the canonical chain at a height agrees at every lower height. */
  lemma {:induction false} AgreeBelow(db: Db, genesis: Header, top: Hash, p: seq<Header>, k: nat, j: nat)
    requires Chain(db, genesis, top) && IsPath(p, genesis) && StoredAs(db, p)
    requires Agrees(db, p, k) && j <= k
    ensures Agrees(db, p, j)
    decreases k
  {
    if j < k {
      assert LinkedAt(p, k) && ChildAt(db, k);
      AgreeBelow(db, genesis, top, p, k - 1, j);
    }
  }

  /** There is one fork point: two walks that each find one find the same. */
  lemma ForkPointUnique(db: Db, p: seq<Header>, m1: nat, m2: nat)
    requires ForkPoint(db, p, m1) && ForkPoint(db, p, m2)
    ensures m1 == m2
  {
  }

  /** Every path has a fork point, since genesis is canonical. */
  lemma ForkPointExists(db: Db, genesis: Header, top: Hash, p: seq<Header>) returns (m: nat)
    requires Chain(db, genesis, top) && IsPath(p, genesis)
    ensures ForkPoint(db, p, m)
  {
    m := |p| - 1;
    while !Agrees(db, p, m)
      invariant m < |p| && forall k: nat :: m < k ==> !Agrees(db, p, k)
      decreases m
    {
      m := m - 1;
    }
  }

  /** Agreement at a height and disagreement just above it make the fork point. */
  lemma ForkPointHere(db: Db, genesis: Header, top: Hash, p: seq<Header>, m: nat)
    requires Chain(db, genesis, top) && IsPath(p, genesis) && StoredAs(db, p)
    requires Agrees(db, p, m) && !Agrees(db, p, m + 1)
    ensures ForkPoint(db, p, m)
  {
    forall k: nat | m < k ensures !Agrees(db, p, k) {
      if Agrees(db, p, k) { AgreeBelow(db, genesis, top, p, k, m + 1); }
    }
  }

  /** The fork point lies below every height where the path is off the chain. */
  lemma ForkBelow(db: Db, genesis: Header, top: Hash, p: seq<Header>, m: nat, k: nat)
    requires Chain(db, genesis, top) && IsPath(p, genesis) && StoredAs(db, p)
    requires ForkPoint(db, p, m) && !Agrees(db, p, k)
    ensures m < k
  {
    if k <= m { AgreeBelow(db, genesis, top, p, m, k); }
  }

  /** The index is the path of its top. */
  lemma {:induction false} ChainIsPath(db: Db, known: map<Hash, Header>, genesis: Header, top: Hash, k: nat)
    requires Lineage(known, genesis) && Truthful(db, known, genesis) && Chain(db, genesis, top)
    requires k <= db.headers[top].number
    ensures Agrees(db, PathTo(known, genesis, top), k)
    ensures IsPath(PathTo(known, genesis, top), genesis) && StoredAs(db, PathTo(known, genesis, top))
  {
    PathToIsPath(known, genesis, top);
    var p := PathTo(known, genesis, top);
    assert forall j :: 0 <= j < |p| ==> p[j] in p;
    AgreeBelow(db, genesis, top, p, db.headers[top].number, k);
  }

  // ----- storing a block -----

  /** The path of a block that is about to be stored on top of a known parent. */
  ghost function NewPath(known: map<Hash, Header>, genesis: Header, block: Header): (p: seq<Header>)
    requires Lineage(known, genesis) && block.parentHash in known
    ensures |p| == known[block.parentHash].number + 2 && p[|p|-1] == block
  {
    PathTo(known, genesis, block.parentHash) + [block]
  }

  /** The block can be stored: its parent is known one below, and its hash collides with nothing. */
  ghost predicate Fresh(known: map<Hash, Header>, genesis: Header, block: Header)
  {
    && block.number > 0 && block.parentHash in known && known[block.parentHash].number + 1 == block.number
    && (block.hash in known ==> known[block.hash] == block)
  }

  lemma NewPathIsPath(db: Db, known: map<Hash, Header>, genesis: Header, block: Header)
    requires Lineage(known, genesis) && Truthful(db, known, genesis) && Fresh(known, genesis, block)
    ensures var p := NewPath(known, genesis, block); IsPath(p, genesis) && StoredAs(db, p)
  {
    var q, p := PathTo(known, genesis, block.parentHash), NewPath(known, genesis, block);
    PathToIsPath(known, genesis, block.parentHash);
    assert forall k :: 0 <= k < |q| ==> q[k] in q;
    forall k: nat | 0 < k < |p| ensures LinkedAt(p, k) {
      if k < |q| { assert LinkedAt(q, k); }
    }
  }

  lemma LineageGrows(known: map<Hash, Header>, genesis: Header, block: Header)
    requires Lineage(known, genesis) && Fresh(known, genesis, block)
    ensures var known' := known[block.hash := block];
            && Lineage(known', genesis) && Extends(known, known')
            && PathTo(known', genesis, block.hash) == NewPath(known, genesis, block)
  {
    var known' := known[block.hash := block];
    forall h | h in known' ensures ParentSeen(known', h) {
      if h in known { assert ParentSeen(known, h); }
    }
    PathStable(known, known', genesis, block.parentHash);
  }

  /** Storing a block with its total difficulty keeps the tables truthful. */
  lemma TruthfulGrows(d: Db, d': Db, known: map<Hash, Header>, genesis: Header, block: Header)
    requires Lineage(known, genesis) && Truthful(d, known, genesis) && Fresh(known, genesis, block)
    requires d'.headers == d.headers[block.hash := block]
    requires d'.td == d.td[block.hash := SumOfDifficulties(NewPath(known, genesis, block))]
    requires d'.hashToNumber == d.hashToNumber[block.hash := block.number]
    ensures var known' := known[block.hash := block];
            Lineage(known', genesis) && Truthful(d', known', genesis)
  {
    TotalledGrows(d, d', known, genesis, block);
    DescribedGrows(d, d', known, block);
  }

  lemma TotalledGrows(d: Db, d': Db, known: map<Hash, Header>, genesis: Header, block: Header)
    requires Lineage(known, genesis) && Described(d, known) && Totalled(d, known, genesis)
    requires Fresh(known, genesis, block)
    requires d'.headers == d.headers[block.hash := block]
    requires d'.td == d.td[block.hash := SumOfDifficulties(NewPath(known, genesis, block))]
    ensures var known' := known[block.hash := block]; Lineage(known', genesis) && Totalled(d', known', genesis)
  {
    var known' := known[block.hash := block];
    LineageGrows(known, genesis, block);
    forall h | h in d'.headers && h in known' && h in d'.td
      ensures d'.td[h] == TotalDifficulty(known', genesis, h)
    {
      if h != block.hash { PathStable(known, known', genesis, h); }
    }
  }

  lemma DescribedGrows(d: Db, d': Db, known: map<Hash, Header>, block: Header)
    requires Described(d, known) && d'.headers == d.headers[block.hash := block] && block.hash in d'.td
    requires d'.td.Keys == d.td.Keys + {block.hash}
    requires d'.hashToNumber == d.hashToNumber[block.hash := block.number]
    requires block.hash in known ==> known[block.hash] == block
    ensures Described(d', known[block.hash := block])
  {
  }

  /** The index after the chain is rebuilt along `p`: exactly the blocks of `p`. */
  ghost predicate IndexIs(d: Db, p: seq<Header>)
  {
    && (forall n: nat :: n in d.numberToHash <==> n < |p|)
    && (forall n: nat :: n < |p| ==> d.numberToHash[n] == p[n].hash)
  }

  lemma IndexedPathIsChain(d: Db, genesis: Header, p: seq<Header>)
    requires IsPath(p, genesis) && IndexIs(d, p)
    requires forall k :: 0 <= k < |p| ==> p[k].hash in d.headers && d.headers[p[k].hash] == p[k]
    ensures Chain(d, genesis, p[|p|-1].hash)
  {
    assert d.headers[p[0].hash] == genesis;
    forall n: nat | 0 < n < |p| ensures ChildAt(d, n) {
      assert LinkedAt(p, n);
    }
  }

  /** The tables with a block's header and total difficulty, and its number recorded. */
  ghost predicate Records(before: Db, after: Db, block: Header, td: nat)
  {
    && after.headers == before.headers[block.hash := block]
    && after.td == before.td[block.hash := td]
    && after.hashToNumber == before.hashToNumber[block.hash := block.number]
  }

  /** Storing a block off the canonical chain leaves the chain as it is. */
  lemma ChainKept(d: Db, d': Db, genesis: Header, top: Hash, block: Header)
    requires Chain(d, genesis, top) && d'.numberToHash == d.numberToHash
    requires d'.headers == d.headers[block.hash := block]
    requires block.hash in d.headers ==> d.headers[block.hash] == block
    ensures Chain(d', genesis, top)
    ensures forall h :: OnChain(d, h) ==> OnChain(d', h)
  {
    forall n: nat | 0 < n <= d.headers[top].number ensures ChildAt(d', n) {
      assert ChildAt(d, n);
    }
  }

  // ----- the heaviest block -----

  /** `seen` lists the stored blocks by first arrival; `head` is the first of the heaviest. */
  ghost predicate FirstHeaviest(d: Db, seen: seq<Hash>, head: Hash)
  {
    && d.td.Keys == d.headers.Keys
    && (forall h :: h in d.headers <==> h in seen)
    && exists i :: 0 <= i < |seen| && FirstAt(d, seen, head, i)
  }

  ghost predicate FirstAt(d: Db, seen: seq<Hash>, head: Hash, i: nat)
    requires i < |seen|
  {
    && seen[i] == head && head in d.td
    && (forall j :: 0 <= j < i && seen[j] in d.td ==> d.td[seen[j]] < d.td[head])
    && (forall j :: 0 <= j < |seen| && seen[j] in d.td ==> d.td[seen[j]] <= d.td[head])
  }

  /** A block that outweighs the head becomes the head, any other does not: the first heaviest stays so. */
  lemma FirstHeaviestKept(d: Db, d': Db, seen: seq<Hash>, head: Hash, block: Header, td: nat)
    requires FirstHeaviest(d, seen, head) && Records(d, d', block, td)
    requires block.hash in d.td ==> d.td[block.hash] == td
    ensures var seen' := if block.hash in d.headers then seen else seen + [block.hash];
            FirstHeaviest(d', seen', if td > d.td[head] then block.hash else head)
  {
    var seen' := if block.hash in d.headers then seen else seen + [block.hash];
    var i :| 0 <= i < |seen| && FirstAt(d, seen, head, i);
    assert d'.td.Keys == d'.headers.Keys;
    if block.hash in d.headers {
      var k :| 0 <= k < |seen| && seen[k] == block.hash;
      assert d'.td == d.td;
      assert FirstAt(d', seen', head, i);
    } else if td > d.td[head] {
      assert FirstAt(d', seen', block.hash, |seen|);
    } else {
      assert FirstAt(d', seen', head, i);
    }
  }

  /** Deleting blocks from every table keeps the tables truthful about the rest. */
  lemma TruthfulWithout(d: Db, d': Db, known: map<Hash, Header>, genesis: Header, gone: set<Hash>)
    requires Lineage(known, genesis) && Truthful(d, known, genesis)
    requires d'.headers == d.headers - gone && d'.td == d.td - gone && d'.hashToNumber == d.hashToNumber - gone
    ensures Truthful(d', known, genesis)
  {
    assert d'.headers.Keys == d.headers.Keys - gone;
    assert d'.td.Keys == d.td.Keys - gone;
    assert d'.hashToNumber.Keys == d.hashToNumber.Keys - gone;
  }

  /** A stored block other than genesis has a number above zero that can be looked up. */
  lemma StoredBlock(d: Db, known: map<Hash, Header>, genesis: Header, h: Hash)
    requires Lineage(known, genesis) && Truthful(d, known, genesis) && h != genesis.hash
    ensures h in d.hashToNumber <==> h in d.headers
    ensures h in d.headers ==> d.hashToNumber[h] == d.headers[h].number && d.headers[h].number > 0
  {
  }
}
