/** The index of transactions by hash is complete: while the main chain's transactions have distinct hashes, each of
    them is found at its position, whatever is added, rolled back and replayed. */
module ChainIndex {
  import opened Options
  import opened Transactions
  import opened ChainTables

  function MainTxs(db: Db, k: nat): seq<Transaction> {
    if db.BlockByHeight(k).None? then [] else db.BlockByHeight(k).value.body.txs
  }

  predicate Position(db: Db, k: nat, i: nat) {
    Low <= k <= db.MaxHeight() && i < |MainTxs(db, k)|
  }

  function HashAt(db: Db, k: nat, i: nat): Digest
    requires Position(db, k, i)
  {
    MainTxs(db, k)[i].Hash()
  }

  ghost predicate DistinctTxs(db: Db) {
    forall k: nat, i: nat, l: nat, j: nat :: Position(db, k, i) && Position(db, l, j) && HashAt(db, k, i) == HashAt(db, l, j)
      ==> k == l && i == j
  }

  ghost predicate IndexComplete(db: Db) {
    forall k: nat, i: nat :: Position(db, k, i) ==>
      HashAt(db, k, i) in db.txIndex && db.txIndex[HashAt(db, k, i)] == TxIndex(k, i)
  }

  // ----- one block -----

  lemma {:induction false} OthersKeepEntries(m: map<Digest, TxIndex>, height: nat, txs: seq<Transaction>, n: nat, d: Digest)
    requires n <= |txs| && forall i :: 0 <= i < n ==> txs[i].Hash() != d
    ensures (d in TxsIndexed(m, height, txs, n)) == (d in m)
    ensures d in m ==> TxsIndexed(m, height, txs, n)[d] == m[d]
  {
    hide Transaction.Hash;
    if n > 0 {
      OthersKeepEntries(m, height, txs, n - 1, d);
    }
  }

  lemma {:induction false} OwnEntry(m: map<Digest, TxIndex>, height: nat, txs: seq<Transaction>, n: nat, i: nat)
    requires i < n <= |txs| && forall j :: i < j < n ==> txs[j].Hash() != txs[i].Hash()
    ensures txs[i].Hash() in TxsIndexed(m, height, txs, n)
    ensures TxsIndexed(m, height, txs, n)[txs[i].Hash()] == TxIndex(height, i)
    decreases n
  {
    hide Transaction.Hash;
    if i < n - 1 {
      OwnEntry(m, height, txs, n - 1, i);
    }
  }

  /** The blocks below are the same after one has been put on top. */
  lemma ExtendedTxs(H: Hash -> nat, db: Db, b: Block, root: Root, k: nat)
    requires BlocksConsistent(H, db) && Consistent(H, b) && b.height == db.MaxHeight() + 1
    ensures MainTxs(Extended(db, b, root), k) == if k == b.height then b.body.txs else MainTxs(db, k)
  {
    hide TxsIndexed;
    if k != b.height && k in db.hashAt {
      assert H(db.hashAt[k]) == k;
    }
  }

  lemma ExtendedComplete(H: Hash -> nat, db: Db, b: Block, root: Root)
    requires BlocksConsistent(H, db) && Consistent(H, b) && b.height == db.MaxHeight() + 1
    requires IndexComplete(db) && DistinctTxs(Extended(db, b, root))
    ensures IndexComplete(Extended(db, b, root))
  {
    var db' := Extended(db, b, root);
    forall k: nat, i: nat | Position(db', k, i)
      ensures HashAt(db', k, i) in db'.txIndex && db'.txIndex[HashAt(db', k, i)] == TxIndex(k, i)
    {
      ExtendedEntry(H, db, b, root, k, i);
    }
  }

  lemma ExtendedEntry(H: Hash -> nat, db: Db, b: Block, root: Root, k: nat, i: nat)
    requires BlocksConsistent(H, db) && Consistent(H, b) && b.height == db.MaxHeight() + 1
    requires IndexComplete(db) && DistinctTxs(Extended(db, b, root)) && Position(Extended(db, b, root), k, i)
    ensures var db' := Extended(db, b, root);
            HashAt(db', k, i) in db'.txIndex && db'.txIndex[HashAt(db', k, i)] == TxIndex(k, i)
  {
    hide TxsIndexed, BlocksConsistent, Transaction.Hash;
    var db' := Extended(db, b, root);
    var txs := b.body.txs;
    ExtendedTxs(H, db, b, root, k);
    ExtendedTxs(H, db, b, root, b.height);
    forall j: nat | j < |txs| && (k != b.height || i != j) ensures txs[j].Hash() != HashAt(db', k, i) {
      assert Position(db', b.height, j) && HashAt(db', b.height, j) == txs[j].Hash();
    }
    if k == b.height {
      OwnEntry(db.txIndex, b.height, txs, |txs|, i);
    } else {
      assert Position(db, k, i) && HashAt(db, k, i) == HashAt(db', k, i);
      OthersKeepEntries(db.txIndex, b.height, txs, |txs|, HashAt(db', k, i));
    }
  }

  lemma NotInTop(db: Db, b: Block, k: nat, i: nat)
    requires DistinctTxs(db) && db.BlockByHeight(db.MaxHeight()) == Some(b)
    requires Position(db, k, i) && k < db.MaxHeight()
    ensures HashAt(db, k, i) !in TxHashes(b.body.txs)
  {
    hide Transaction.Hash;
    var top := db.MaxHeight();
    forall j: nat | j < |b.body.txs| ensures b.body.txs[j].Hash() != HashAt(db, k, i) {
      assert Position(db, top, j) && HashAt(db, top, j) == b.body.txs[j].Hash();
    }
  }

  /** Taking the top block off keeps the entries of the others. */
  lemma LoweredComplete(db: Db, db': Db, b: Block)
    requires IndexComplete(db) && DistinctTxs(db) && db.BlockByHeight(db.MaxHeight()) == Some(b)
    requires db'.MaxHeight() < db.MaxHeight() && db'.txIndex == db.txIndex - TxHashes(b.body.txs)
    requires forall k: nat :: k <= db'.MaxHeight() ==> MainTxs(db', k) == MainTxs(db, k)
    ensures IndexComplete(db') && DistinctTxs(db')
  {
    hide Transaction.Hash;
    forall k: nat, i: nat | Position(db', k, i)
      ensures HashAt(db', k, i) in db'.txIndex && db'.txIndex[HashAt(db', k, i)] == TxIndex(k, i)
    {
      var d := HashAt(db', k, i);
      assert Position(db, k, i) && HashAt(db, k, i) == d;
      NotInTop(db, b, k, i);
    }
    SameChainDistinct(db, db');
  }

  /** A shorter chain with the same blocks has distinct transactions as well. */
  lemma SameChainDistinct(db: Db, db': Db)
    requires DistinctTxs(db) && db'.MaxHeight() <= db.MaxHeight()
    requires forall k: nat :: k <= db'.MaxHeight() ==> MainTxs(db', k) == MainTxs(db, k)
    ensures DistinctTxs(db')
  {
    hide Transaction.Hash;
    forall k: nat, i: nat, l: nat, j: nat | Position(db', k, i) && Position(db', l, j) && HashAt(db', k, i) == HashAt(db', l, j)
      ensures k == l && i == j
    {
      assert Position(db, k, i) && HashAt(db, k, i) == HashAt(db', k, i);
      assert Position(db, l, j) && HashAt(db, l, j) == HashAt(db', l, j);
    }
  }

  // ----- rolling back and replaying -----

  lemma CutTxs(db: Db, tx: Db, height: nat, k: nat)
    requires CutAt(db, tx, height) && k < height
    ensures MainTxs(tx, k) == MainTxs(db, k)
  {
  }

  lemma OneOffComplete(H: Hash -> nat, exec: Exec, db: Db, tx: Db)
    requires Sound(H, exec, db) && Sound(H, exec, tx) && tx.MaxHeight() <= db.MaxHeight()
    requires CutAt(db, tx, tx.MaxHeight() + 1) && OneOff(db, tx).Some?
    requires IndexComplete(tx) && DistinctTxs(tx)
    ensures IndexComplete(OneOff(db, tx).value) && DistinctTxs(OneOff(db, tx).value)
  {
    hide Sound, IndexComplete, DistinctTxs;
    OneOffCut(H, exec, db, tx);
    var tx' := OneOff(db, tx).value;
    var b := db.BlockByHeight(tx.MaxHeight()).value;
    assert tx.BlockByHeight(tx.MaxHeight()) == Some(b);
    forall k: nat | k <= tx'.MaxHeight() ensures MainTxs(tx', k) == MainTxs(tx, k) {
      CutTxs(db, tx', tx.MaxHeight(), k);
      CutTxs(db, tx, tx.MaxHeight() + 1, k);
    }
    LoweredComplete(tx, tx', b);
  }

  lemma {:induction false} RollBackComplete(H: Hash -> nat, exec: Exec, db: Db, tx: Db, height: nat)
    requires Sound(H, exec, db) && Sound(H, exec, tx) && tx.MaxHeight() <= db.MaxHeight()
    requires CutAt(db, tx, tx.MaxHeight() + 1) && RollBack(db, tx, height).Some?
    requires IndexComplete(tx) && DistinctTxs(tx)
    ensures IndexComplete(RollBack(db, tx, height).value)
    decreases tx.MaxHeight()
  {
    hide Sound, CutAt, OneOff, IndexComplete, DistinctTxs;
    if tx.MaxHeight() >= height {
      OneOffCut(H, exec, db, tx);
      OneOffComplete(H, exec, db, tx);
      RollBackComplete(H, exec, db, OneOff(db, tx).value, height);
    }
  }

  lemma GrownTxs(db: Db, tx: Db, tx': Db, all: seq<Hash>, hashes: seq<Hash>, k: nat)
    requires Grown(tx, tx', hashes) && SameBlocks(db, tx, all) && SameBlocks(db, tx', all) && k <= tx.MaxHeight()
    ensures MainTxs(tx', k) == MainTxs(tx, k)
  {
    assert k in Below(tx'.hashAt, tx.MaxHeight() + 1) <==> k in tx'.hashAt;
  }

  lemma {:induction false} ReplayComplete(H: Hash -> nat, exec: Exec, regular: Regular, db: Db, tx: Db, all: seq<Hash>,
                                          hashes: seq<Hash>)
    requires BlocksConsistent(H, db) && Sound(H, exec, tx) && SameBlocks(db, tx, all)
    requires Chained(db, hashes) && Attached(db, tx, hashes) && (forall h :: h in hashes ==> h in all)
    requires Replay(exec, regular, db, tx, hashes).Some? && IndexComplete(tx)
    requires DistinctTxs(Replay(exec, regular, db, tx, hashes).value)
    ensures IndexComplete(Replay(exec, regular, db, tx, hashes).value)
    decreases |hashes|
  {
    hide SameBlocks, Grown, Chained, Attached, OneOn, Sound, IndexComplete, DistinctTxs, MainTxs;
    if hashes != [] {
      var n := |hashes| - 1;
      OneOnGrown(H, exec, db, tx, all, hashes);
      var tx1 := OneOn(exec, tx, db.blocks[hashes[n]]).value;
      ReplayGrown(H, exec, regular, db, tx1, all, hashes[..n]);
      var tx2 := Replay(exec, regular, db, tx, hashes).value;
      GrownHigher(tx1, tx2, hashes[..n]);
      forall k: nat | k <= tx1.MaxHeight() ensures MainTxs(tx1, k) == MainTxs(tx2, k) {
        GrownTxs(db, tx1, tx2, all, hashes[..n], k);
      }
      SameChainDistinct(tx2, tx1);
      OneOnComplete(H, exec, db, tx, hashes[n]);
      ReplayComplete(H, exec, regular, db, tx1, all, hashes[..n]);
    }
  }

  lemma GrownHigher(tx: Db, tx': Db, hashes: seq<Hash>)
    requires Grown(tx, tx', hashes)
    ensures tx.MaxHeight() <= tx'.MaxHeight()
  {
  }

  lemma OneOnComplete(H: Hash -> nat, exec: Exec, db: Db, tx: Db, h: Hash)
    requires BlocksConsistent(H, db) && Sound(H, exec, tx) && h in db.blocks && IndexComplete(tx)
    requires OneOn(exec, tx, db.blocks[h]).Some? && DistinctTxs(OneOn(exec, tx, db.blocks[h]).value)
    ensures IndexComplete(OneOn(exec, tx, db.blocks[h]).value)
  {
    hide Sound, IndexComplete, DistinctTxs, Extended;
    SoundConsistent(H, exec, tx);
    var b := db.blocks[h];
    ExtendedComplete(H, tx, b, exec(tx.CurrentRoot(), b.height, b.body).1);
  }

  /** A reorganisation keeps the index complete, if the transactions of the old and of the new main chain have
      distinct hashes. */
  lemma ReorganizedComplete(H: Hash -> nat, exec: Exec, regular: Regular, db: Db, hashes: seq<Hash>, height: nat)
    requires Sound(H, exec, db) && Branch(db, hashes, height)
    requires Reorganized(exec, regular, db, hashes, height).Some?
    requires IndexComplete(db) && DistinctTxs(db)
    requires DistinctTxs(Reorganized(exec, regular, db, hashes, height).value)
    ensures IndexComplete(Reorganized(exec, regular, db, hashes, height).value)
  {
    hide Sound, Chained, BlocksConsistent, RollBack, Replay, CutAt, Branch, SameBlocks, IndexComplete, DistinctTxs, Attached;
    WholeCut(H, exec, db);
    BranchHeight(db, hashes, height);
    RollBackCut(H, exec, db, db, height);
    RollBackComplete(H, exec, db, db, height);
    var tx := RollBack(db, db, height).value;
    CutAttached(db, tx, hashes, height);
    SoundConsistent(H, exec, db);
    ReplayComplete(H, exec, regular, db, tx, hashes, hashes);
  }

  lemma BranchHeight(db: Db, hashes: seq<Hash>, height: nat)
    requires Branch(db, hashes, height)
    ensures height <= db.MaxHeight() + 1
  {
  }
}
