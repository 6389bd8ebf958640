/** The block chain on its database: adding, storing aside, rolling back and reorganising. */
module Chain {
  import opened Options
  import opened Transactions
  import opened ChainTables

  class Blockchain {
    /** The height that a hash stands for; every block offered is consistent with it. */
    ghost const H: Hash -> nat
    /** What executing a block does to the state with a given root; on failure the state is left half changed. */
    const exec: Exec
    /** CheckBlockRegular, seeing the database and the transaction. */
    const regular: Regular
    /** Whether the database accepts its n-th commit. */
    const disk: nat -> bool

    var db: Db
    /** The root of the state held in memory. */
    var sdb: Root
    var writes: nat

    ghost predicate Valid()
      reads this
    {
      Sound(H, exec, db) && db.MaxHeight() >= InitHeight && sdb == db.CurrentRoot()
    }

    /** Opens an existing database and the state that its current root stands for. */
    constructor (ghost H: Hash -> nat, exec: Exec, regular: Regular, disk: nat -> bool, db: Db)
      requires Sound(H, exec, db) && db.MaxHeight() >= InitHeight
      ensures Valid() && this.db == db && this.exec == exec && this.regular == regular && this.H == H
    {
      this.H, this.exec, this.regular, this.disk := H, exec, regular, disk;
      this.db := db;
      sdb := db.CurrentRoot();
      writes := 0;
    }

    method Commit(tx: Db) returns (ok: bool)
      modifies this`db, this`writes
      ensures ok == disk(old(writes)) && writes == old(writes) + 1 && db == if ok then tx else old(db)
    {
      ok := disk(writes);
      writes := writes + 1;
      if ok {
        db := tx;
      }
    }

    /** A block with the hash of a stored one is that block. */
    predicate Genuine(b: Block)
      reads this`db
    {
      b.hash in db.blocks ==> db.blocks[b.hash].body == b.body
    }

    /** The block names the tip of the main chain, if there is one, as its parent. */
    predicate OnTip(b: Block)
      reads this
    {
      db.MaxHeight() >= Low ==> db.MaxHeight() in db.hashAt && b.prev == db.hashAt[db.MaxHeight()]
    }

    /** AddBlock: it does not look at the previous hash, so the chain stays linked when its callers have. */
    method AddBlock(b: Block) returns (ok: bool)
      requires Valid() && Consistent(H, b) && Genuine(b)
      modifies this
      ensures !ok || old(OnTip(b)) ==> Valid()
      ensures sdb == db.CurrentRoot()
      ensures var r := exec(old(sdb), b.height, b.body);
              ok <==> && b.height == old(db.MaxHeight()) + 1 && b.height >= Low && r.0
                      && (b.height > Low ==> b.snapRoot == old(db.CurrentRoot()) || b.snapRoot == r.1)
                      && disk(old(writes))
      ensures db == if ok then Extended(old(db), b, exec(old(sdb), b.height, b.body).1) else old(db)
      ensures writes >= old(writes)
    {
      hide MainChain, IndexSound, BlocksConsistent, TxsIndexed;
      var rollRoot := db.CurrentRoot();
      var tx := db;
      if b.height > InitHeight + 1 {
        RootRecorded(H, exec, db);
        if tx.snapRoot.None? {
          sdb := rollRoot;
          return false;
        }
        if tx.snapRoot.value != sdb {
          assert false;
        }
      }
      var height := db.MaxHeight() + 1;
      if b.height != height {
        return false;
      }
      tx := tx.(hashAt := tx.hashAt[height := b.hash], height := Some(height));
      var r := exec(sdb, b.height, b.body);
      sdb := r.1;
      if !r.0 {
        sdb := rollRoot;
        return false;
      }
      var stored := b;
      if b.height > InitHeight + 1 {
        if rollRoot == b.snapRoot {
          stored := b.(snapRoot := r.1);
        } else if r.1 != b.snapRoot {
          sdb := rollRoot;
          return false;
        }
      } else if b.height == InitHeight + 1 {
        stored := b.(snapRoot := r.1);
      } else {
        assert false;
      }
      tx := tx.(txIndex := TxsIndexed(tx.txIndex, height, b.body.txs, |b.body.txs|));
      tx := tx.(blocks := tx.blocks[b.hash := stored], snapAt := tx.snapAt[height := r.1], snapRoot := Some(r.1));
      assert tx == Extended(db, b, r.1);
      if OnTip(b) {
        ExtendedSound(H, exec, db, b, r.1);
      }
      ok := Commit(tx);
      if !ok {
        sdb := rollRoot;
      }
    }

    /** AddUncleBlock: a failing commit is only logged. It would overwrite a stored block; the chain stays sound unless
        that is a different block of the main chain. */
    method AddUncleBlock(b: Block)
      requires Valid() && Consistent(H, b)
      modifies this`db, this`writes
      ensures old(OnMain(db, b.hash) && b.hash in db.blocks ==> db.blocks[b.hash] == b) ==> Valid()
      ensures writes == old(writes) + 1
      ensures db == if disk(old(writes)) then old(db).(blocks := old(db).blocks[b.hash := b]) else old(db)
    {
      if OnMain(db, b.hash) && b.hash in db.blocks ==> db.blocks[b.hash] == b {
        UncleSound(H, exec, db, b);
      }
      hide Sound;
      var ok := Commit(db.(blocks := db.blocks[b.hash := b]));
    }

    /** DeleteUncleBlock: the chain stays sound for a block off the main chain, and for no block above the initial
        height on it. */
    method DeleteUncleBlock(b: Block)
      requires Valid()
      modifies this`db, this`writes
      ensures !old(OnMain(db, b.hash)) ==> Valid()
      ensures old(disk(writes) && exists k :: k >= Low && k in db.hashAt && db.hashAt[k] == b.hash) ==> !Valid()
      ensures writes == old(writes) + 1
      ensures db == if disk(old(writes)) then old(db).(blocks := old(db).blocks - {b.hash}) else old(db)
    {
      if !OnMain(db, b.hash) {
        UncleDeleted(H, exec, db, b);
      } else {
        MainDeleted(H, exec, db, b);
      }
      hide Sound;
      var ok := Commit(db.(blocks := db.blocks - {b.hash}));
    }

    /** GetTransactionByHash: it finds exactly the indexed hashes, and never an absent or a different transaction. */
    method GetTransactionByHash(d: Digest) returns (res: Option<Transaction>)
      requires Valid()
      ensures res.Some? <==> d in db.txIndex
      ensures res.Some? ==>
                && res.value.Hash() == d && db.txIndex[d].height in db.hashAt
                && db.BlockByHeight(db.txIndex[d].height).Some?
                && res.value in db.BlockByHeight(db.txIndex[d].height).value.body.txs
    {
      hide MainChain;
      if d !in db.txIndex {
        return None;
      }
      var e := db.txIndex[d];
      assert EntrySound(db, d);
      var b := db.BlockByHeight(e.height);
      return Some(b.value.body.txs[e.index]);
    }

    /** The n commits from the given one on all go through. */
    predicate Accepted(from: nat, n: nat) {
      forall i :: from <= i < from + n ==> disk(i)
    }

    /** One turn of the loop of DeleteBlock, for the top block. */
    method DeleteTop() returns (ok: bool)
      requires Sound(H, exec, db)
      modifies this`db, this`writes
      ensures OneDeleted(old(db)).None? ==> !ok && db == old(db) && writes == old(writes)
      ensures OneDeleted(old(db)).Some? ==>
                && ok == disk(old(writes)) && writes == old(writes) + 1
                && db == if ok then OneDeleted(old(db)).value else old(db)
    {
      hide Sound, TxHashes;
      var k := db.MaxHeight();
      var tx := db;
      var b := db.BlockByHeight(k);
      if b.None? {
        return false;
      }
      BlockAtHeight(H, exec, db);
      if k - 1 !in tx.snapAt {
        return false;
      }
      tx := tx.(txIndex := tx.txIndex - TxHashes(b.value.body.txs));
      var root := tx.snapAt[b.value.height - 1];
      tx := tx.(snapAt := tx.snapAt - {b.value.height});
      tx := tx.(hashAt := tx.hashAt - {b.value.height});
      tx := tx.(blocks := tx.blocks - {b.value.hash});
      if db.BlockByHeight(k - 1).None? {
        return false;
      }
      tx := tx.(snapRoot := Some(root), height := Some(k - 1));
      ok := Commit(tx);
    }

    /** DeleteBlock: one commit per height. Within the main chain it succeeds exactly when every one of them goes
        through; otherwise the chain ends below the height whose commit was the first to be refused, and the state in
        memory is the old one, which is that of the shorter chain only if their roots are the same. */
    method DeleteBlock(height: nat) returns (ok: bool)
      requires Valid()
      modifies this
      ensures Sound(H, exec, db)
      ensures height > old(db.MaxHeight()) ==> ok && db == old(db) && sdb == old(sdb)
      ensures height <= old(db.MaxHeight()) && ok ==> TruncatedAt(old(db), db, height) && sdb == db.CurrentRoot()
      ensures !ok ==> height <= db.MaxHeight() <= old(db.MaxHeight())
      ensures !ok ==> TruncatedAt(old(db), db, db.MaxHeight() + 1) && sdb == old(sdb)
      ensures height <= old(db.MaxHeight()) ==>
                (ok <==> && Accepted(old(writes), old(db.MaxHeight()) + 1 - height)
                         && forall k :: height <= k <= old(db.MaxHeight()) ==> RemovableAt(old(db), k))
      ensures forall k :: Low < k <= old(db.MaxHeight()) ==> RemovableAt(old(db), k)
      ensures Low < height && !ok ==>
                var done := old(db.MaxHeight()) - db.MaxHeight();
                Accepted(old(writes), done) && !disk(old(writes) + done)
      ensures height <= old(db.MaxHeight()) ==>
                (Valid() <==> db.MaxHeight() >= InitHeight && (ok || db.CurrentRoot() == old(db.CurrentRoot())))
      ensures old(Rooted(db)) ==> (Rooted(db) <==> !Hanging(old(db), db.MaxHeight() + 1))
    {
      hide Sound, TruncatedAt, OneDeleted, Rooted, Hanging, RemovableAt;
      AboveRemovable(H, exec, db);
      var top := db.MaxHeight();
      TruncatedNone(H, exec, db);
      if height > top {
        if Rooted(db) {
          TruncatedRooted(db, db, top + 1);
        }
        return true;
      }
      var k: int := top;
      while k >= height
        invariant height - 1 <= k <= top && (k >= 0 ==> db.MaxHeight() == k) && sdb == old(sdb)
        invariant Sound(H, exec, db) && TruncatedAt(old(db), db, k + 1)
        invariant writes == old(writes) + (top - k) && Accepted(old(writes), top - k)
        invariant forall j :: k < j <= top ==> RemovableAt(old(db), j)
      {
        DeletedExactly(H, exec, old(db), db, k);
        if OneDeleted(db).Some? {
          OneDeletedSound(H, exec, db);
          TopDeleted(H, exec, db);
          TruncatedTwice(old(db), db, OneDeleted(db).value, k + 1, k);
        }
        ok := DeleteTop();
        if !ok {
          if old(Rooted(db)) {
            TruncatedRooted(old(db), db, db.MaxHeight() + 1);
          }
          return;
        }
        k := k - 1;
      }
      TruncatedHeight(old(db), db, height);
      if old(Rooted(db)) {
        TruncatedRooted(old(db), db, height);
      }
      sdb := db.CurrentRoot();
      return true;
    }

    /** DeleteTempBlockTest: the first half of a reorganisation, inside the transaction tx. */
    method DeleteTempBlockTest(height: nat, tx0: Db) returns (ok: bool, tx: Db)
      requires Valid() && tx0 == db
      modifies this`sdb
      ensures ok == (height <= db.MaxHeight() && RollBack(db, db, height).Some?)
      ensures ok <==> height <= db.MaxHeight() && forall k :: height <= k <= db.MaxHeight() ==> RemovableAt(db, k)
      ensures ok ==> tx == RollBack(db, db, height).value && sdb == tx.CurrentRoot()
      ensures !ok ==> sdb == old(sdb)
    {
      hide Sound, CutAt, RollBack, TxHashes, RemovableAt;
      tx := tx0;
      var top := db.MaxHeight();
      if height > top {
        return false, tx;
      }
      WholeCut(H, exec, db);
      RollBackCut(H, exec, db, db, height);
      var k: int := top;
      while k >= height
        invariant height - 1 <= k <= top && (k >= 0 ==> tx.MaxHeight() == k) && sdb == old(sdb)
        invariant Sound(H, exec, tx) && CutAt(db, tx, k + 1)
        invariant RollBack(db, tx, height) == RollBack(db, db, height)
      {
        RollBackStep(db, tx, height);
        var b := db.BlockByHeight(k);
        if b.None? {
          return false, tx;
        }
        CutTip(H, exec, db, tx);
        if k - 1 !in tx.snapAt || db.BlockByHeight(k - 1).None? {
          return false, tx;
        }
        OneOffCut(H, exec, db, tx);
        tx := tx.(txIndex := tx.txIndex - TxHashes(b.value.body.txs));
        var root := tx.snapAt[b.value.height - 1];
        tx := tx.(snapAt := tx.snapAt - {b.value.height});
        tx := tx.(hashAt := tx.hashAt - {b.value.height});
        tx := tx.(snapRoot := Some(root), height := Some(k - 1));
        k := k - 1;
      }
      CutHasRoot(db, tx, height);
      RollBackStep(db, tx, height);
      sdb := tx.snapRoot.value;
      return true, tx;
    }

    /** AddTempBlock: the second half. When the recorded root is not that of the state in memory it reports
        success without adding anything. */
    method AddTempBlock(b: Block, tx0: Db) returns (ok: bool, tx: Db)
      modifies this`sdb
      ensures b.height != 1 && tx0.snapRoot.Some? && tx0.snapRoot.value != old(sdb) ==> ok && tx == tx0
      ensures tx0.snapRoot == Some(old(sdb)) ==>
                && ok == OneOn(exec, tx0, b).Some?
                && (ok ==> tx == OneOn(exec, tx0, b).value && tx.snapRoot == Some(sdb))
    {
      tx := tx0;
      if b.height != 1 {
        if tx.snapRoot.None? {
          return false, tx;
        }
        if tx.snapRoot.value != sdb {
          return true, tx;
        }
      }
      var height := tx.MaxHeight() + 1;
      if b.height != height {
        return false, tx;
      }
      tx := tx.(hashAt := tx.hashAt[height := b.hash], height := Some(height));
      var r := exec(sdb, b.height, b.body);
      sdb := r.1;
      if !r.0 {
        return false, tx;
      }
      var stored := b;
      if b.height != 1 {
        if tx.snapRoot == Some(b.snapRoot) {
          stored := b.(snapRoot := r.1);
        } else if r.1 != b.snapRoot {
          return false, tx;
        }
      } else {
        stored := b.(snapRoot := r.1);
      }
      tx := tx.(txIndex := TxsIndexed(tx.txIndex, height, b.body.txs, |b.body.txs|));
      tx := tx.(blocks := tx.blocks[b.hash := stored], snapAt := tx.snapAt[height := r.1], snapRoot := Some(r.1));
      return true, tx;
    }

    /** ReorganizeChain: either the reorganised database is committed, or everything is as it was. */
    method ReorganizeChain(hashes: seq<Hash>, height: nat) returns (ok: bool)
      requires Valid() && Branch(db, hashes, height) && height - 1 + |hashes| >= InitHeight
      modifies this
      ensures Valid()
      ensures ok == (Reorganized(exec, regular, old(db), hashes, height).Some? && disk(old(writes)))
      ensures db == if ok then Reorganized(exec, regular, old(db), hashes, height).value else old(db)
      ensures ok <==> disk(old(writes)) && exists ts :: Trace(exec, regular, old(db), hashes, height, ts)
      ensures ok ==> exists ts :: Trace(exec, regular, old(db), hashes, height, ts) && db == ts[|hashes|]
      ensures writes == old(writes) + if Reorganized(exec, regular, old(db), hashes, height).Some? then 1 else 0
    {
      hide Sound, Branch, SameBlocks, RollBack, OneOn, CutAt, Trace;
      BranchHeight(db, hashes, height);
      TraceExists(H, exec, regular, db, hashes, height);
      var root := db.CurrentRoot();
      var tx;
      ok, tx := DeleteTempBlockTest(height, db);
      if !ok {
        sdb := root;
        return;
      }
      RolledBackRoot(H, exec, db, height);
      ghost var tx1 := tx;
      var num := |hashes|;
      assert hashes[..num] == hashes;
      while num > 0
        invariant 0 <= num <= |hashes| && db == old(db) && writes == old(writes)
        invariant tx.snapRoot == Some(sdb)
        invariant Replay(exec, regular, db, tx, hashes[..num]) == Replay(exec, regular, db, tx1, hashes)
      {
        assert hashes[..num][..num - 1] == hashes[..num - 1];
        num := num - 1;
        var b := db.BlockByHash(hashes[num]);
        if b.None? || !regular(db, tx, b.value) {
          sdb := root;
          return false;
        }
        ok, tx := AddTempBlock(b.value, tx);
        if !ok {
          sdb := root;
          return;
        }
      }
      ReorganizedChain(H, exec, regular, db, hashes, height);
      ok := Commit(tx);
      if !ok {
        sdb := root;
      }
    }
  }

  // ----- deleting blocks for good -----

  /** Deleting the top block, the stored block included. */
  function OneDeleted(db: Db): Option<Db> {
    var b := db.BlockByHeight(db.MaxHeight());
    var r := OneOff(db, db);
    if b.None? || r.None? then None else Some(r.value.(blocks := r.value.blocks - {b.value.hash}))
  }

  /** The main chain's blocks from the height on. */
  ghost predicate FromHeight(db: Db, height: nat, h: Hash) {
    exists k :: k in db.hashAt && k >= height && db.hashAt[k] == h
  }

  /** db' is db without the main chain's blocks from the height on. */
  ghost predicate TruncatedAt(db: Db, db': Db, height: nat) {
    && db'.MaxHeight() == height - 1 && db'.hashAt == Below(db.hashAt, height) && db'.snapAt == Below(db.snapAt, height)
    && (forall h :: h in db'.blocks ==> h in db.blocks && db'.blocks[h] == db.blocks[h])
    && (forall h :: h in db.blocks ==> (h in db'.blocks <==> !FromHeight(db, height, h)))
  }

  lemma OneDeletedSound(H: Hash -> nat, exec: Exec, db: Db)
    requires Sound(H, exec, db) && OneDeleted(db).Some?
    ensures var db' := OneDeleted(db).value;
            Sound(H, exec, db') && db'.MaxHeight() < db.MaxHeight() && TruncatedAt(db, db', db.MaxHeight())
  {
    hide MainChain, IndexSound;
    var b := db.BlockByHeight(db.MaxHeight()).value;
    WholeCut(H, exec, db);
    OneOffCut(H, exec, db, db);
    var db1 := OneOff(db, db).value;
    forall k | k in db1.hashAt ensures db1.hashAt[k] != b.hash {
      assert H(db1.hashAt[k]) == k;
      assert k < db.MaxHeight();
    }
    UncleDeleted(H, exec, db1, b);
    assert db.hashAt[db.MaxHeight()] == b.hash;
  }

  lemma TopDeleted(H: Hash -> nat, exec: Exec, db: Db)
    requires Sound(H, exec, db) && OneDeleted(db).Some?
    ensures db.MaxHeight() > 0 && OneDeleted(db).value.MaxHeight() == db.MaxHeight() - 1
  {
    OneDeletedSound(H, exec, db);
  }

  lemma TruncatedHeight(db: Db, db': Db, height: nat)
    requires TruncatedAt(db, db', height)
    ensures db'.MaxHeight() == height - 1
  {
  }

  lemma FromLower(db: Db, db1: Db, k: nat, height: nat, h: Hash)
    requires db1.hashAt == Below(db.hashAt, k) && height <= k
    ensures FromHeight(db, height, h) <==> FromHeight(db, k, h) || FromHeight(db1, height, h)
  {
    if FromHeight(db, height, h) {
      var i :| i in db.hashAt && i >= height && db.hashAt[i] == h;
      assert i < k ==> i in db1.hashAt && db1.hashAt[i] == h;
    }
    if FromHeight(db1, height, h) {
      var i :| i in db1.hashAt && i >= height && db1.hashAt[i] == h;
      assert i in db.hashAt && db.hashAt[i] == h;
    }
    if FromHeight(db, k, h) {
      var i :| i in db.hashAt && i >= k && db.hashAt[i] == h;
      assert i in db.hashAt && i >= height && db.hashAt[i] == h;
    }
  }

  lemma TruncatedTwice(db: Db, db1: Db, db2: Db, k: nat, height: nat)
    requires TruncatedAt(db, db1, k) && TruncatedAt(db1, db2, height) && height <= k
    ensures TruncatedAt(db, db2, height)
  {
    assert Below(db1.hashAt, height) == Below(db.hashAt, height);
    assert Below(db1.snapAt, height) == Below(db.snapAt, height);
    forall h | h in db.blocks ensures h in db2.blocks <==> !FromHeight(db, height, h) {
      FromLower(db, db1, k, height, h);
    }
  }

  /** A block that is not deleted hangs on one that is. */
  ghost predicate Hanging(db: Db, height: nat) {
    exists h :: h in db.blocks && db.blocks[h].height > Low && !FromHeight(db, height, h)
                && FromHeight(db, height, db.blocks[h].prev)
  }

  /** Deleting keeps every parent stored if and only if no other block hangs on a deleted one. */
  lemma TruncatedRooted(db: Db, db': Db, height: nat)
    requires TruncatedAt(db, db', height) && Rooted(db)
    ensures Rooted(db') <==> !Hanging(db, height)
  {
    hide FromHeight;
  }

  lemma TruncatedNone(H: Hash -> nat, exec: Exec, db: Db)
    requires Sound(H, exec, db)
    ensures TruncatedAt(db, db, db.MaxHeight() + 1)
  {
    WholeCut(H, exec, db);
  }

  lemma AboveRemovable(H: Hash -> nat, exec: Exec, db: Db)
    requires Sound(H, exec, db)
    ensures forall k :: Low < k <= db.MaxHeight() ==> RemovableAt(db, k)
  {
    forall k | Low < k <= db.MaxHeight() ensures RemovableAt(db, k) {
      assert Linked(exec, db, k) && Linked(exec, db, k - 1);
    }
  }

  /** The top block can be deleted exactly when the tables had what it takes before those above it were deleted. */
  lemma DeletedExactly(H: Hash -> nat, exec: Exec, db: Db, db': Db, k: nat)
    requires Sound(H, exec, db) && Sound(H, exec, db') && TruncatedAt(db, db', k + 1) && db'.MaxHeight() == k
    ensures OneDeleted(db').Some? <==> RemovableAt(db, k)
  {
    hide Sound, CutAt, RemovableAt, TruncatedAt;
    WholeCut(H, exec, db');
    OneOffExactly(H, exec, db', db');
    SoundConsistent(H, exec, db);
    TruncatedRemovable(H, db, db', k);
    assert OneDeleted(db').Some? <==> OneOff(db', db').Some?;
  }

  lemma TruncatedRemovable(H: Hash -> nat, db: Db, db': Db, k: nat)
    requires BlocksConsistent(H, db) && TruncatedAt(db, db', k + 1)
    ensures RemovableAt(db', k) <==> RemovableAt(db, k)
  {
    assert forall i :: i in db'.hashAt <==> i in db.hashAt && i <= k;
    forall i | i in db'.hashAt && i <= k ensures db'.hashAt[i] in db'.blocks <==> db.hashAt[i] in db.blocks {
      assert H(db.hashAt[i]) == i;
      assert !FromHeight(db, k + 1, db.hashAt[i]);
    }
  }

  lemma RootRecorded(H: Hash -> nat, exec: Exec, db: Db)
    requires Sound(H, exec, db)
    ensures db.MaxHeight() >= Low ==> db.snapRoot.Some?
  {
  }

  ghost predicate OnMain(db: Db, h: Hash) {
    exists k :: k in db.hashAt && db.hashAt[k] == h
  }

  /** Storing a block aside, or deleting it again, does not touch the main chain. */
  lemma UncleSound(H: Hash -> nat, exec: Exec, db: Db, b: Block)
    requires Sound(H, exec, db) && Consistent(H, b)
    requires OnMain(db, b.hash) && b.hash in db.blocks ==> db.blocks[b.hash] == b
    ensures Sound(H, exec, db.(blocks := db.blocks[b.hash := b]))
  {
    var db' := db.(blocks := db.blocks[b.hash := b]);
    forall k: nat | Low <= k <= db'.MaxHeight() ensures Linked(exec, db', k) {
      assert Linked(exec, db, k);
    }
    forall d | d in db'.txIndex ensures EntrySound(db', d) {
      assert EntrySound(db, d);
    }
  }

  lemma UncleDeleted(H: Hash -> nat, exec: Exec, db: Db, b: Block)
    requires Sound(H, exec, db) && forall k :: k in db.hashAt ==> db.hashAt[k] != b.hash
    ensures Sound(H, exec, db.(blocks := db.blocks - {b.hash}))
  {
    var db' := db.(blocks := db.blocks - {b.hash});
    forall k: nat | Low <= k <= db'.MaxHeight() ensures Linked(exec, db', k) {
      assert Linked(exec, db, k);
    }
    forall d | d in db'.txIndex ensures EntrySound(db', d) {
      assert EntrySound(db, d);
    }
  }

  lemma MainDeleted(H: Hash -> nat, exec: Exec, db: Db, b: Block)
    requires Sound(H, exec, db)
    ensures (exists k :: k >= Low && k in db.hashAt && db.hashAt[k] == b.hash) ==>
              !Sound(H, exec, db.(blocks := db.blocks - {b.hash}))
  {
    var db' := db.(blocks := db.blocks - {b.hash});
    if exists k :: k >= Low && k in db.hashAt && db.hashAt[k] == b.hash {
      var k :| k >= Low && k in db.hashAt && db.hashAt[k] == b.hash;
      assert !Linked(exec, db', k);
    }
  }

  lemma BlockAtHeight(H: Hash -> nat, exec: Exec, db: Db)
    requires Sound(H, exec, db) && db.BlockByHeight(db.MaxHeight()).Some?
    ensures db.BlockByHeight(db.MaxHeight()).value.height == db.MaxHeight() > 0
  {
  }

  lemma CutTip(H: Hash -> nat, exec: Exec, db: Db, tx: Db)
    requires Sound(H, exec, tx) && CutAt(db, tx, tx.MaxHeight() + 1) && db.BlockByHeight(tx.MaxHeight()).Some?
    ensures db.BlockByHeight(tx.MaxHeight()).value.height == tx.MaxHeight() > 0
  {
    assert tx.MaxHeight() in Below(db.hashAt, tx.MaxHeight() + 1);
  }

  lemma CutHasRoot(db: Db, tx: Db, height: nat)
    requires CutAt(db, tx, height) && height <= db.MaxHeight()
    ensures tx.snapRoot.Some? && tx.MaxHeight() == height - 1
  {
  }

  lemma RollBackStep(db: Db, tx: Db, height: nat)
    ensures RollBack(db, tx, height) ==
              if tx.MaxHeight() < height then Some(tx)
              else if OneOff(db, tx).None? then None else RollBack(db, OneOff(db, tx).value, height)
  {
    hide OneOff;
  }

  lemma RolledBackRoot(H: Hash -> nat, exec: Exec, db: Db, height: nat)
    requires Sound(H, exec, db) && height <= db.MaxHeight() && RollBack(db, db, height).Some?
    ensures RollBack(db, db, height).value.snapRoot.Some?
  {
    hide Sound, CutAt, RollBack;
    WholeCut(H, exec, db);
    RollBackCut(H, exec, db, db, height);
    CutHasRoot(db, RollBack(db, db, height).value, height);
  }
}