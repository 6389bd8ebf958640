/** The tables of the block database and what a consistent main chain in them looks like. */
module ChainTables {
  import opened Options
  import opened Transactions

  const InitHeight: nat := 60_350_422

  datatype Hash = Hash(id: nat)

  /** The root of a state; equal roots belong to equal states. */
  datatype Root = Root(id: nat)

  datatype Body = Body(miner: Address, timestamp: nat, difficulty: int, globalDifficulty: int, txs: seq<Transaction>)

  datatype Block = Block(height: nat, prev: Hash, hash: Hash, body: Body, snapRoot: Root)

  /** Where a transaction stands. */
  datatype TxIndex = TxIndex(height: nat, index: nat)

  /** The key-value database: current height, height to hash, hash to block, height to root, current root and
      transaction hash to position. */
  datatype Db = Db(height: Option<nat>, hashAt: map<nat, Hash>, blocks: map<Hash, Block>, snapAt: map<nat, Root>,
                   snapRoot: Option<Root>, txIndex: map<Digest, TxIndex>)
  {
    function MaxHeight(): nat { if height.None? then 0 else height.value }

    function CurrentRoot(): Root { if snapRoot.None? then Root(0) else snapRoot.value }

    function BlockByHash(h: Hash): Option<Block> { if h in blocks then Some(blocks[h]) else None }

    function BlockByHeight(k: nat): Option<Block> {
      if k < 1 || k !in hashAt then None else BlockByHash(hashAt[k])
    }

    function Tip(): Option<Block> {
      if MaxHeight() !in hashAt then None else BlockByHash(hashAt[MaxHeight()])
    }
  }

  // ----- the index of transactions by hash -----

  /** Records the first n transactions of a block; a later one with the same hash wins. */
  function TxsIndexed(m: map<Digest, TxIndex>, height: nat, txs: seq<Transaction>, n: nat): (m': map<Digest, TxIndex>)
    requires n <= |txs|
  {
    if n == 0 then m
    else TxsIndexed(m, height, txs, n - 1)[txs[n - 1].Hash() := TxIndex(height, n - 1)]
  }

  function TxHashes(txs: seq<Transaction>): set<Digest> {
    set i | 0 <= i < |txs| :: txs[i].Hash()
  }

  lemma {:induction false} TxsIndexedEntries(m: map<Digest, TxIndex>, height: nat, txs: seq<Transaction>, n: nat)
    requires n <= |txs|
    ensures var m' := TxsIndexed(m, height, txs, n);
            forall d :: d in m' ==>
              (d in m && m'[d] == m[d]) || (m'[d].height == height && m'[d].index < n && txs[m'[d].index].Hash() == d)
  {
    hide Transaction.Hash;
    if n > 0 {
      TxsIndexedEntries(m, height, txs, n - 1);
    }
  }

  /** An entry of the index points to a transaction with that hash on the main chain. */
  predicate EntrySound(db: Db, d: Digest)
    requires d in db.txIndex
  {
    var e := db.txIndex[d];
    && e.height in db.hashAt && db.hashAt[e.height] in db.blocks
    && e.index < |db.blocks[db.hashAt[e.height]].body.txs|
    && db.blocks[db.hashAt[e.height]].body.txs[e.index].Hash() == d
  }

  ghost predicate IndexSound(db: Db) {
    forall d :: d in db.txIndex ==> EntrySound(db, d)
  }

  // ----- consistent heights -----

  /** A block's height belongs to its hash, and its parent's hash belongs to the height below. */
  ghost predicate Consistent(H: Hash -> nat, b: Block) {
    H(b.hash) == b.height && H(b.prev) + 1 == b.height
  }

  ghost predicate BlocksConsistent(H: Hash -> nat, db: Db) {
    && (forall h :: h in db.blocks ==> db.blocks[h].hash == h && Consistent(H, db.blocks[h]))
    && (forall k :: k in db.hashAt ==> H(db.hashAt[k]) == k)
  }

  // ----- the main chain -----

  /** The first height of the chain; below it there are at most imported entries. */
  const Low: nat := InitHeight + 1

  type Exec = (Root, nat, Body) -> (bool, Root)

  /** Height k of the main chain: a stored block linked to the one below, whose root is the recorded one and
      comes from executing the block on the root below. */
  ghost predicate Linked(exec: Exec, db: Db, k: nat) {
    && k in db.hashAt && db.hashAt[k] in db.blocks && k in db.snapAt
    && var b := db.blocks[db.hashAt[k]];
       && b.height == k && db.snapAt[k] == b.snapRoot
       && (k > Low ==>
             && k - 1 in db.hashAt && b.prev == db.hashAt[k - 1]
             && k - 1 in db.snapAt && exec(db.snapAt[k - 1], k, b.body) == (true, db.snapAt[k]))
  }

  ghost predicate MainChain(exec: Exec, db: Db) {
    && (forall k :: Low <= k <= db.MaxHeight() ==> Linked(exec, db, k))
    && (forall k :: k in db.hashAt ==> k <= db.MaxHeight())
    && (forall k :: k in db.snapAt ==> k <= db.MaxHeight())
    && (db.MaxHeight() >= Low ==> db.MaxHeight() in db.snapAt && db.snapRoot == Some(db.snapAt[db.MaxHeight()]))
  }

  ghost predicate Sound(H: Hash -> nat, exec: Exec, db: Db) {
    BlocksConsistent(H, db) && MainChain(exec, db) && IndexSound(db)
  }

  /** Every stored block above the first height has its parent stored. */
  ghost predicate Rooted(db: Db) {
    forall h :: h in db.blocks && db.blocks[h].height > Low ==> db.blocks[h].prev in db.blocks
  }

  // ----- one step up and down -----

  /** The database after a block has been put on top, with the root its execution led to. */
  function Extended(db: Db, b: Block, root: Root): Db {
    Db(Some(b.height), db.hashAt[b.height := b.hash], db.blocks[b.hash := b.(snapRoot := root)],
       db.snapAt[b.height := root], Some(root), TxsIndexed(db.txIndex, b.height, b.body.txs, |b.body.txs|))
  }

  /** The database after the top block has been taken off; the block itself stays stored. */
  function Lowered(db: Db, b: Block, root: Root): Db {
    db.(height := Some(if b.height == 0 then 0 else b.height - 1), hashAt := db.hashAt - {b.height},
        snapAt := db.snapAt - {b.height}, snapRoot := Some(root), txIndex := db.txIndex - TxHashes(b.body.txs))
  }

  lemma ExtendedConsistent(H: Hash -> nat, db: Db, b: Block, root: Root)
    requires BlocksConsistent(H, db) && Consistent(H, b)
    ensures BlocksConsistent(H, Extended(db, b, root))
  {
  }

  lemma ExtendedIndex(H: Hash -> nat, db: Db, b: Block, root: Root)
    requires BlocksConsistent(H, db) && Consistent(H, b) && IndexSound(db)
    requires b.hash in db.blocks ==> db.blocks[b.hash].body == b.body
    requires forall k :: k in db.hashAt ==> k < b.height
    ensures IndexSound(Extended(db, b, root))
  {
    var db' := Extended(db, b, root);
    TxsIndexedEntries(db.txIndex, b.height, b.body.txs, |b.body.txs|);
    forall d | d in db'.txIndex ensures EntrySound(db', d) {
      if d in db.txIndex && db'.txIndex[d] == db.txIndex[d] {
        assert EntrySound(db, d);
      }
    }
  }

  /** The block continues the main chain, if that is not empty. */
  predicate Continues(db: Db, b: Block) {
    && b.height == db.MaxHeight() + 1
    && (db.MaxHeight() >= Low ==> db.MaxHeight() in db.hashAt && b.prev == db.hashAt[db.MaxHeight()])
  }

  lemma ExtendedChain(H: Hash -> nat, exec: Exec, db: Db, b: Block, root: Root)
    requires BlocksConsistent(H, db) && Consistent(H, b) && MainChain(exec, db) && Continues(db, b)
    requires exec(db.CurrentRoot(), b.height, b.body) == (true, root)
    ensures MainChain(exec, Extended(db, b, root))
  {
    var db' := Extended(db, b, root);
    forall k: nat | Low <= k <= b.height ensures Linked(exec, db', k) {
      if k < b.height {
        assert Linked(exec, db, k);
        assert H(db.hashAt[k]) == k;
      } else if k > Low {
        assert Linked(exec, db, db.MaxHeight());
      }
    }
  }

  lemma ExtendedSound(H: Hash -> nat, exec: Exec, db: Db, b: Block, root: Root)
    requires Sound(H, exec, db) && Consistent(H, b) && Continues(db, b)
    requires b.hash in db.blocks ==> db.blocks[b.hash].body == b.body
    requires exec(db.CurrentRoot(), b.height, b.body) == (true, root)
    ensures Sound(H, exec, Extended(db, b, root))
  {
    hide EntrySound, Linked, TxsIndexed;
    ExtendedConsistent(H, db, b, root);
    ExtendedChain(H, exec, db, b, root);
    ExtendedIndex(H, db, b, root);
  }

  lemma TipHeight(H: Hash -> nat, exec: Exec, db: Db, b: Block)
    requires Sound(H, exec, db) && db.Tip() == Some(b)
    ensures b.height == db.MaxHeight()
  {
  }

  lemma LoweredMain(H: Hash -> nat, exec: Exec, db: Db, b: Block, root: Root)
    requires Sound(H, exec, db) && b.height == db.MaxHeight() > 0
    requires b.height - 1 in db.snapAt && root == db.snapAt[b.height - 1]
    ensures var db' := Lowered(db, b, root); BlocksConsistent(H, db') && MainChain(exec, db')
  {
    hide IndexSound, TxHashes;
    var db' := Lowered(db, b, root);
    forall k: nat | Low <= k <= db'.MaxHeight() ensures Linked(exec, db', k) {
      assert Linked(exec, db, k);
    }
  }

  lemma LoweredIndex(H: Hash -> nat, exec: Exec, db: Db, b: Block, root: Root)
    requires Sound(H, exec, db) && db.Tip() == Some(b) && b.height == db.MaxHeight()
    ensures IndexSound(Lowered(db, b, root))
  {
    hide MainChain;
    var db' := Lowered(db, b, root);
    forall d | d in db'.txIndex ensures EntrySound(db', d) {
      assert EntrySound(db, d);
    }
  }

  lemma LoweredSound(H: Hash -> nat, exec: Exec, db: Db, b: Block, root: Root)
    requires Sound(H, exec, db) && db.Tip() == Some(b) && db.MaxHeight() > 0
    requires b.height - 1 in db.snapAt && root == db.snapAt[b.height - 1]
    ensures b.height == db.MaxHeight() && Sound(H, exec, Lowered(db, b, root))
  {
    hide MainChain, IndexSound, BlocksConsistent, Lowered;
    TipHeight(H, exec, db, b);
    LoweredMain(H, exec, db, b, root);
    LoweredIndex(H, exec, db, b, root);
  }

  // ----- rolling back and replaying -----

  /** Taking one block off inside the transaction tx of a reorganisation; blocks are read from the database db. */
  function OneOff(db: Db, tx: Db): Option<Db> {
    var k := tx.MaxHeight();
    var b := db.BlockByHeight(k);
    if b.None? || b.value.height < 1 || b.value.height - 1 !in tx.snapAt then None
    else if db.BlockByHeight(k - 1).None? then None
    else Some(Lowered(tx, b.value, tx.snapAt[b.value.height - 1]).(height := Some(k - 1)))
  }

  /** Taking off every block from the given height up. */
  function RollBack(db: Db, tx: Db, height: nat): Option<Db>
    decreases tx.MaxHeight()
  {
    if tx.MaxHeight() < height then Some(tx)
    else
      var tx' := OneOff(db, tx);
      if tx'.None? then None else RollBack(db, tx'.value, height)
  }

  /** The root a block carries is that of its parent's state, as miners leave it, or that of its own. */
  predicate RootFits(b: Block, before: Root, after: Root) {
    b.snapRoot == before || b.snapRoot == after
  }

  /** Putting one block on top inside the transaction. */
  function OneOn(exec: Exec, tx: Db, b: Block): Option<Db> {
    var r := exec(tx.CurrentRoot(), b.height, b.body);
    if b.height != tx.MaxHeight() + 1 || !r.0 || (b.height != 1 && !RootFits(b, tx.CurrentRoot(), r.1)) then None
    else Some(Extended(tx, b, r.1))
  }

  type Regular = (Db, Db, Block) -> bool

  /** Putting the listed blocks on top, the last one first. */
  function Replay(exec: Exec, regular: Regular, db: Db, tx: Db, hashes: seq<Hash>): Option<Db>
    decreases |hashes|
  {
    if hashes == [] then Some(tx)
    else
      var n := |hashes| - 1;
      var b := db.BlockByHash(hashes[n]);
      if b.None? || !regular(db, tx, b.value) then None
      else
        var tx' := OneOn(exec, tx, b.value);
        if tx'.None? then None else Replay(exec, regular, db, tx'.value, hashes[..n])
  }

  function Reorganized(exec: Exec, regular: Regular, db: Db, hashes: seq<Hash>, height: nat): Option<Db> {
    if height > db.MaxHeight() then None
    else
      var tx := RollBack(db, db, height);
      if tx.None? then None else Replay(exec, regular, db, tx.value, hashes)
  }

  // ----- what they do to the tables -----

  function Below<T>(m: map<nat, T>, k: nat): map<nat, T> {
    map i | i in m && i < k :: m[i]
  }

  /** tx is the database db cut off below a height. */
  ghost predicate CutAt(db: Db, tx: Db, height: nat) {
    && height > 0 && tx.MaxHeight() == height - 1
    && tx.hashAt == Below(db.hashAt, height) && tx.snapAt == Below(db.snapAt, height) && tx.blocks == db.blocks
    && (height <= db.MaxHeight() ==> height - 1 in db.snapAt && tx.snapRoot == Some(db.snapAt[height - 1]))
  }

  lemma OneOffCut(H: Hash -> nat, exec: Exec, db: Db, tx: Db)
    requires Sound(H, exec, db) && Sound(H, exec, tx) && tx.MaxHeight() <= db.MaxHeight()
    requires CutAt(db, tx, tx.MaxHeight() + 1) && OneOff(db, tx).Some?
    ensures var tx' := OneOff(db, tx).value;
            tx.MaxHeight() > 0 && tx'.MaxHeight() == tx.MaxHeight() - 1 && Sound(H, exec, tx') && CutAt(db, tx', tx.MaxHeight())
  {
    hide Sound;
    var k := tx.MaxHeight();
    var b := db.BlockByHeight(k).value;
    assert tx.Tip() == Some(b);
    LoweredSound(H, exec, tx, b, tx.snapAt[b.height - 1]);
  }

  /** What taking the block at height k off needs: it and the block below are stored, with the root below. */
  predicate RemovableAt(db: Db, k: nat) {
    k >= 1 && db.BlockByHeight(k).Some? && db.BlockByHeight(k - 1).Some? && k - 1 in db.snapAt
  }

  lemma OneOffExactly(H: Hash -> nat, exec: Exec, db: Db, tx: Db)
    requires Sound(H, exec, db) && CutAt(db, tx, tx.MaxHeight() + 1) && tx.MaxHeight() <= db.MaxHeight()
    ensures OneOff(db, tx).Some? <==> RemovableAt(db, tx.MaxHeight())
  {
    hide MainChain, IndexSound;
  }

  /** Within the chain, and above its first height, a block can always be taken off. */
  lemma OneOffGoes(H: Hash -> nat, exec: Exec, db: Db, tx: Db)
    requires Sound(H, exec, db) && CutAt(db, tx, tx.MaxHeight() + 1) && Low < tx.MaxHeight() <= db.MaxHeight()
    ensures OneOff(db, tx).Some?
  {
    assert Linked(exec, db, tx.MaxHeight());
    assert Linked(exec, db, tx.MaxHeight() - 1);
  }

  lemma {:induction false} RollBackCut(H: Hash -> nat, exec: Exec, db: Db, tx: Db, height: nat)
    requires Sound(H, exec, db) && Sound(H, exec, tx) && height <= tx.MaxHeight() + 1 && tx.MaxHeight() <= db.MaxHeight()
    requires CutAt(db, tx, tx.MaxHeight() + 1)
    ensures RollBack(db, tx, height).Some? ==>
              Sound(H, exec, RollBack(db, tx, height).value) && CutAt(db, RollBack(db, tx, height).value, height)
    ensures RollBack(db, tx, height).Some? <==> forall k :: height <= k <= tx.MaxHeight() ==> RemovableAt(db, k)
    ensures Low < height ==> RollBack(db, tx, height).Some?
    decreases tx.MaxHeight()
  {
    hide Sound, CutAt, OneOff, RemovableAt;
    if tx.MaxHeight() >= height {
      OneOffExactly(H, exec, db, tx);
      if Low < height {
        OneOffGoes(H, exec, db, tx);
      }
      if OneOff(db, tx).Some? {
        OneOffCut(H, exec, db, tx);
        RollBackCut(H, exec, db, OneOff(db, tx).value, height);
      }
    } else {
      CutAtZero(db, tx, height);
    }
  }

  lemma CutAtZero(db: Db, tx: Db, height: nat)
    requires height == tx.MaxHeight() + 1 && CutAt(db, tx, tx.MaxHeight() + 1)
    ensures CutAt(db, tx, height)
  {
  }

  /** The same blocks, apart from the roots recorded in those listed. */
  ghost predicate SameBlocks(db: Db, db': Db, hashes: seq<Hash>) {
    && db'.blocks.Keys == db.blocks.Keys
    && (forall h :: h in db.blocks ==> db'.blocks[h] == db.blocks[h].(snapRoot := db'.blocks[h].snapRoot))
    && (forall h :: h in db.blocks && h !in hashes ==> db'.blocks[h] == db.blocks[h])
  }

  /** Each hash in the list is that of the parent of the block before it. */
  ghost predicate Chained(db: Db, hashes: seq<Hash>) {
    forall i, j :: 0 <= i && j == i + 1 && j < |hashes| && hashes[i] in db.blocks ==> db.blocks[hashes[i]].prev == hashes[j]
  }

  /** The last block of the list continues the main chain of tx. */
  ghost predicate Attached(db: Db, tx: Db, hashes: seq<Hash>) {
    hashes != [] && tx.MaxHeight() >= Low && hashes[|hashes| - 1] in db.blocks ==>
      tx.MaxHeight() in tx.hashAt && db.blocks[hashes[|hashes| - 1]].prev == tx.hashAt[tx.MaxHeight()]
  }

  /** tx' is tx with the listed blocks on top. */
  ghost predicate Grown(tx: Db, tx': Db, hashes: seq<Hash>) {
    && tx'.MaxHeight() == tx.MaxHeight() + |hashes|
    && Below(tx'.hashAt, tx.MaxHeight() + 1) == tx.hashAt && Below(tx'.snapAt, tx.MaxHeight() + 1) == tx.snapAt
    && (forall k :: tx.MaxHeight() < k <= tx'.MaxHeight() ==>
          k in tx'.hashAt && tx'.hashAt[k] == hashes[tx'.MaxHeight() - k])
  }

  lemma ExtendedGrown(tx: Db, b: Block, root: Root)
    requires b.height == tx.MaxHeight() + 1
    requires forall k :: k in tx.hashAt ==> k <= tx.MaxHeight()
    requires forall k :: k in tx.snapAt ==> k <= tx.MaxHeight()
    ensures Grown(tx, Extended(tx, b, root), [b.hash])
  {
    hide TxsIndexed;
    var tx' := Extended(tx, b, root);
    assert Below(tx'.hashAt, tx.MaxHeight() + 1) == tx.hashAt;
    assert Below(tx'.snapAt, tx.MaxHeight() + 1) == tx.snapAt;
  }

  lemma ExtendedBlocks(db: Db, tx: Db, all: seq<Hash>, b: Block, root: Root)
    requires SameBlocks(db, tx, all) && b.hash in db.blocks && db.blocks[b.hash] == b && b.hash in all
    ensures SameBlocks(db, Extended(tx, b, root), all)
  {
    hide TxsIndexed;
  }

  lemma ShorterBranch(db: Db, tx: Db, hashes: seq<Hash>, b: Block, root: Root)
    requires hashes != [] && b.hash == hashes[|hashes| - 1] && Chained(db, hashes)
    ensures Chained(db, hashes[..|hashes| - 1]) && Attached(db, Extended(tx, b, root), hashes[..|hashes| - 1])
  {
    hide TxsIndexed;
  }

  /** The effect of putting the last listed block on top. */
  lemma OneOnGrown(H: Hash -> nat, exec: Exec, db: Db, tx: Db, all: seq<Hash>, hashes: seq<Hash>)
    requires hashes != [] && hashes[|hashes| - 1] in db.blocks && hashes[|hashes| - 1] in all
    requires BlocksConsistent(H, db) && Sound(H, exec, tx) && SameBlocks(db, tx, all)
    requires Chained(db, hashes) && Attached(db, tx, hashes)
    requires OneOn(exec, tx, db.blocks[hashes[|hashes| - 1]]).Some?
    ensures var n := |hashes| - 1;
            var tx' := OneOn(exec, tx, db.blocks[hashes[n]]).value;
            && Sound(H, exec, tx') && SameBlocks(db, tx', all) && Grown(tx, tx', [hashes[n]])
            && Chained(db, hashes[..n]) && Attached(db, tx', hashes[..n])
  {
    hide Sound, Extended, Grown, Chained;
    var n := |hashes| - 1;
    var b := db.blocks[hashes[n]];
    var r := exec(tx.CurrentRoot(), b.height, b.body);
    SoundBounds(H, exec, tx);
    ExtendedSound(H, exec, tx, b, r.1);
    ExtendedBlocks(db, tx, all, b, r.1);
    ExtendedGrown(tx, b, r.1);
    ShorterBranch(db, tx, hashes, b, r.1);
  }

  lemma GrownTwice(tx: Db, tx1: Db, tx2: Db, hashes: seq<Hash>)
    requires hashes != []
    requires Grown(tx, tx1, [hashes[|hashes| - 1]]) && Grown(tx1, tx2, hashes[..|hashes| - 1])
    ensures Grown(tx, tx2, hashes)
  {
    var n := |hashes| - 1;
    assert tx1.MaxHeight() == tx.MaxHeight() + 1;
    assert Below(Below(tx2.hashAt, tx.MaxHeight() + 2), tx.MaxHeight() + 1) == Below(tx2.hashAt, tx.MaxHeight() + 1);
    assert Below(Below(tx2.snapAt, tx.MaxHeight() + 2), tx.MaxHeight() + 1) == Below(tx2.snapAt, tx.MaxHeight() + 1);
    forall k | tx.MaxHeight() < k <= tx2.MaxHeight()
      ensures k in tx2.hashAt && tx2.hashAt[k] == hashes[tx2.MaxHeight() - k]
    {
      if k == tx.MaxHeight() + 1 {
        assert k in tx1.hashAt && k in Below(tx2.hashAt, tx1.MaxHeight() + 1);
      }
    }
  }

  lemma GrownByNone(tx: Db)
    requires forall k :: k in tx.hashAt ==> k <= tx.MaxHeight()
    requires forall k :: k in tx.snapAt ==> k <= tx.MaxHeight()
    ensures Grown(tx, tx, [])
  {
    assert Below(tx.hashAt, tx.MaxHeight() + 1) == tx.hashAt;
    assert Below(tx.snapAt, tx.MaxHeight() + 1) == tx.snapAt;
  }

  lemma {:induction false} ReplayGrown(H: Hash -> nat, exec: Exec, regular: Regular, db: Db, tx: Db,
                                       all: seq<Hash>, hashes: seq<Hash>)
    requires BlocksConsistent(H, db) && Sound(H, exec, tx) && SameBlocks(db, tx, all)
    requires Chained(db, hashes) && Attached(db, tx, hashes) && (forall h :: h in hashes ==> h in all)
    requires Replay(exec, regular, db, tx, hashes).Some?
    ensures var tx' := Replay(exec, regular, db, tx, hashes).value;
            Sound(H, exec, tx') && SameBlocks(db, tx', all) && Grown(tx, tx', hashes)
    decreases |hashes|
  {
    hide SameBlocks, Grown, Chained, Attached, OneOn, BlocksConsistent;
    if hashes == [] {
      GrownByNone(tx) by { SoundBounds(H, exec, tx); }
    } else {
      hide Sound;
      var n := |hashes| - 1;
      OneOnGrown(H, exec, db, tx, all, hashes);
      var tx1 := OneOn(exec, tx, db.blocks[hashes[n]]).value;
      ReplayGrown(H, exec, regular, db, tx1, all, hashes[..n]);
      GrownTwice(tx, tx1, Replay(exec, regular, db, tx, hashes).value, hashes);
    }
  }

  lemma SoundBounds(H: Hash -> nat, exec: Exec, tx: Db)
    requires Sound(H, exec, tx)
    ensures forall k :: k in tx.hashAt ==> k <= tx.MaxHeight()
    ensures forall k :: k in tx.snapAt ==> k <= tx.MaxHeight()
  {
  }

  /** A branch to reorganise to: linked blocks, the last of which sits on the main chain just below the height. */
  ghost predicate Branch(db: Db, hashes: seq<Hash>, height: nat) {
    && hashes != [] && 0 < height <= db.MaxHeight() && Chained(db, hashes)
    && (height > Low && hashes[|hashes| - 1] in db.blocks ==>
          height - 1 in db.hashAt && db.blocks[hashes[|hashes| - 1]].prev == db.hashAt[height - 1])
  }

  lemma BranchHeight(db: Db, hashes: seq<Hash>, height: nat)
    requires Branch(db, hashes, height)
    ensures 0 < height <= db.MaxHeight()
  {
  }

  /** A successful reorganisation leaves the main chain below the height as it was and puts exactly the branch
      above it, in ascending order; the tables are sound again, so the current root is that of its last block. */
  lemma ReorganizedChain(H: Hash -> nat, exec: Exec, regular: Regular, db: Db, hashes: seq<Hash>, height: nat)
    requires Sound(H, exec, db) && Branch(db, hashes, height)
    requires Reorganized(exec, regular, db, hashes, height).Some?
    ensures var db' := Reorganized(exec, regular, db, hashes, height).value;
            && Sound(H, exec, db') && SameBlocks(db, db', hashes)
            && db'.MaxHeight() == height - 1 + |hashes|
            && Below(db'.hashAt, height) == Below(db.hashAt, height)
            && Below(db'.snapAt, height) == Below(db.snapAt, height)
            && forall k :: height <= k <= db'.MaxHeight() ==>
                 k in db'.hashAt && db'.hashAt[k] == hashes[db'.MaxHeight() - k]
  {
    hide Sound, Chained, BlocksConsistent, RollBack, Replay, CutAt, Branch, SameBlocks, Grown;
    WholeCut(H, exec, db);
    RollBackCut(H, exec, db, db, height);
    var tx := RollBack(db, db, height).value;
    CutAttached(db, tx, hashes, height);
    SoundConsistent(H, exec, db);
    ReplayGrown(H, exec, regular, db, tx, hashes, hashes);
    GrownFromCut(db, tx, Replay(exec, regular, db, tx, hashes).value, hashes, height);
  }

  // ----- a reorganisation as a run of databases -----

  /** t' is t with b on top: the block passes CheckBlockRegular on t, has the next height, executes on t's state, and
      records the root before or after its execution. */
  ghost predicate Put(exec: Exec, regular: Regular, db: Db, t: Db, t': Db, b: Block) {
    var r := exec(t.CurrentRoot(), b.height, b.body);
    && regular(db, t, b) && b.height == t.MaxHeight() + 1 && r.0
    && (b.height != 1 ==> b.snapRoot == t.CurrentRoot() || b.snapRoot == r.1)
    && t'.height == Some(b.height) && t'.snapRoot == Some(r.1)
    && t'.hashAt == t.hashAt[b.height := b.hash] && t'.snapAt == t.snapAt[b.height := r.1]
    && t'.blocks == t.blocks[b.hash := b.(snapRoot := r.1)]
    && t'.txIndex == TxsIndexed(t.txIndex, b.height, b.body.txs, |b.body.txs|)
  }

  /** Each database of the run is the one before it with the next listed block on top, the last one first. */
  ghost predicate Steps(exec: Exec, regular: Regular, db: Db, ts: seq<Db>, hashes: seq<Hash>) {
    |ts| == |hashes| + 1 && forall i :: 0 <= i < |hashes| ==> StepAt(exec, regular, db, ts, hashes, i)
  }

  ghost predicate StepAt(exec: Exec, regular: Regular, db: Db, ts: seq<Db>, hashes: seq<Hash>, i: int)
    requires 0 <= i < |hashes| && |ts| == |hashes| + 1
  {
    var h := hashes[|hashes| - 1 - i];
    h in db.blocks && Put(exec, regular, db, ts[i], ts[i + 1], db.blocks[h])
  }

  /** A run that starts from the database cut at the height. */
  ghost predicate Trace(exec: Exec, regular: Regular, db: Db, hashes: seq<Hash>, height: nat, ts: seq<Db>) {
    && |ts| == |hashes| + 1 && Steps(exec, regular, db, ts, hashes) && height <= db.MaxHeight()
    && RollBack(db, db, height) == Some(ts[0]) && CutAt(db, ts[0], height)
  }

  lemma PutExactly(exec: Exec, regular: Regular, db: Db, t: Db, t': Db, b: Block)
    ensures Put(exec, regular, db, t, t', b) <==> regular(db, t, b) && OneOn(exec, t, b) == Some(t')
  {
    hide TxsIndexed;
  }

  lemma NoSteps(exec: Exec, regular: Regular, db: Db, ts: seq<Db>)
    requires |ts| == 1
    ensures Steps(exec, regular, db, ts, []) && Replay(exec, regular, db, ts[0], []) == Some(ts[0])
  {
  }

  lemma FirstStep(exec: Exec, regular: Regular, db: Db, ts: seq<Db>, hashes: seq<Hash>)
    requires hashes != [] && |ts| == |hashes| + 1
    ensures var n := |hashes| - 1;
            Steps(exec, regular, db, ts, hashes) <==>
              && hashes[n] in db.blocks && Put(exec, regular, db, ts[0], ts[1], db.blocks[hashes[n]])
              && Steps(exec, regular, db, ts[1..], hashes[..n])
  {
    hide Put;
    var n := |hashes| - 1;
    forall i | 0 <= i < n
      ensures StepAt(exec, regular, db, ts[1..], hashes[..n], i) == StepAt(exec, regular, db, ts, hashes, i + 1)
    {
      assert hashes[..n][n - 1 - i] == hashes[n - (i + 1)];
    }
    if Steps(exec, regular, db, ts, hashes) {
      assert StepAt(exec, regular, db, ts, hashes, 0);
    }
    if hashes[n] in db.blocks && Put(exec, regular, db, ts[0], ts[1], db.blocks[hashes[n]])
       && Steps(exec, regular, db, ts[1..], hashes[..n]) {
      forall i | 0 <= i < |hashes| ensures StepAt(exec, regular, db, ts, hashes, i) {
        if i > 0 {
          assert StepAt(exec, regular, db, ts[1..], hashes[..n], i - 1);
        }
      }
    }
  }

  /** Replaying succeeds with db' exactly along a run that ends there. */
  lemma {:induction false} StepsReplay(exec: Exec, regular: Regular, db: Db, ts: seq<Db>, hashes: seq<Hash>)
    requires Steps(exec, regular, db, ts, hashes)
    ensures Replay(exec, regular, db, ts[0], hashes) == Some(ts[|hashes|])
    decreases |hashes|
  {
    if hashes == [] {
      NoSteps(exec, regular, db, ts);
    } else {
      hide Put, Steps, OneOn;
      FirstStep(exec, regular, db, ts, hashes);
      PutExactly(exec, regular, db, ts[0], ts[1], db.blocks[hashes[|hashes| - 1]]);
      StepsReplay(exec, regular, db, ts[1..], hashes[..|hashes| - 1]);
    }
  }

  lemma {:induction false} ReplaySteps(exec: Exec, regular: Regular, db: Db, tx: Db, hashes: seq<Hash>)
    returns (ts: seq<Db>)
    requires Replay(exec, regular, db, tx, hashes).Some?
    ensures Steps(exec, regular, db, ts, hashes) && ts[0] == tx
    ensures Some(ts[|hashes|]) == Replay(exec, regular, db, tx, hashes)
    decreases |hashes|
  {
    if hashes == [] {
      NoSteps(exec, regular, db, [tx]);
      return [tx];
    }
    hide Put, Steps, OneOn;
    var n := |hashes| - 1;
    var b := db.blocks[hashes[n]];
    var tx' := OneOn(exec, tx, b).value;
    var rest := ReplaySteps(exec, regular, db, tx', hashes[..n]);
    ts := [tx] + rest;
    StepsLength(exec, regular, db, rest, hashes[..n]);
    assert ts[1..] == rest && ts[1] == tx';
    PutExactly(exec, regular, db, tx, tx', b);
    FirstStep(exec, regular, db, ts, hashes);
  }

  lemma StepsLength(exec: Exec, regular: Regular, db: Db, ts: seq<Db>, hashes: seq<Hash>)
    requires Steps(exec, regular, db, ts, hashes)
    ensures |ts| == |hashes| + 1
  {
  }

  /** The main result on regularity: a reorganisation leads to db' exactly when there is a run of databases from the
      one cut at the height to db', in each step of which the next block passes its check, executes and goes on top. */
  lemma ReorganizedTrace(H: Hash -> nat, exec: Exec, regular: Regular, db: Db, hashes: seq<Hash>, height: nat, db': Db)
    requires Sound(H, exec, db) && 0 < height
    ensures Reorganized(exec, regular, db, hashes, height) == Some(db') <==>
              exists ts :: Trace(exec, regular, db, hashes, height, ts) && ts[|hashes|] == db'
  {
    hide Sound, Steps, RollBack, Replay, CutAt;
    if Reorganized(exec, regular, db, hashes, height) == Some(db') {
      WholeCut(H, exec, db);
      RollBackCut(H, exec, db, db, height);
      var tx := RollBack(db, db, height).value;
      var ts := ReplaySteps(exec, regular, db, tx, hashes);
      StepsLength(exec, regular, db, ts, hashes);
      assert Trace(exec, regular, db, hashes, height, ts);
    }
    if ts :| Trace(exec, regular, db, hashes, height, ts) && ts[|hashes|] == db' {
      StepsReplay(exec, regular, db, ts, hashes);
    }
  }

  lemma TraceExists(H: Hash -> nat, exec: Exec, regular: Regular, db: Db, hashes: seq<Hash>, height: nat)
    requires Sound(H, exec, db) && 0 < height
    ensures Reorganized(exec, regular, db, hashes, height).Some? <==>
              exists ts :: Trace(exec, regular, db, hashes, height, ts)
    ensures Reorganized(exec, regular, db, hashes, height).Some? ==>
              exists ts :: Trace(exec, regular, db, hashes, height, ts)
                           && Reorganized(exec, regular, db, hashes, height).value == ts[|hashes|]
  {
    hide Sound, Reorganized, Steps, RollBack, CutAt;
    if Reorganized(exec, regular, db, hashes, height).Some? {
      ReorganizedTrace(H, exec, regular, db, hashes, height, Reorganized(exec, regular, db, hashes, height).value);
    }
    if ts :| Trace(exec, regular, db, hashes, height, ts) {
      ReorganizedTrace(H, exec, regular, db, hashes, height, ts[|hashes|]);
    }
  }

  lemma CutAttached(db: Db, tx: Db, hashes: seq<Hash>, height: nat)
    requires CutAt(db, tx, height) && Branch(db, hashes, height)
    ensures Chained(db, hashes) && Attached(db, tx, hashes) && SameBlocks(db, tx, hashes)
  {
    hide Chained;
  }

  lemma GrownFromCut(db: Db, tx: Db, db': Db, hashes: seq<Hash>, height: nat)
    requires CutAt(db, tx, height) && Grown(tx, db', hashes)
    ensures db'.MaxHeight() == height - 1 + |hashes|
    ensures Below(db'.hashAt, height) == Below(db.hashAt, height) && Below(db'.snapAt, height) == Below(db.snapAt, height)
    ensures forall k :: height <= k <= db'.MaxHeight() ==>
              k in db'.hashAt && db'.hashAt[k] == hashes[db'.MaxHeight() - k]
  {
  }

  lemma WholeCut(H: Hash -> nat, exec: Exec, db: Db)
    requires Sound(H, exec, db)
    ensures CutAt(db, db, db.MaxHeight() + 1)
  {
    assert Below(db.hashAt, db.MaxHeight() + 1) == db.hashAt;
    assert Below(db.snapAt, db.MaxHeight() + 1) == db.snapAt;
  }

  lemma SoundConsistent(H: Hash -> nat, exec: Exec, db: Db)
    requires Sound(H, exec, db)
    ensures BlocksConsistent(H, db)
  {
  }
}
