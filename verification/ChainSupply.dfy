/** The supply on the main chain: whatever was added, rolled back and replayed, the current balances are those of
    the first block plus what the main chain's blocks have minted since. */
module ChainSupply {
  import opened Options
  import opened Transactions
  import opened Ledger
  import opened ChainTables

  /** The chain's execution is that of the ledger, on the states that roots stand for. */
  ghost predicate RunsLedger(exec: Exec, state: Root -> State) {
    forall r: Root, h: nat, body: Body :: exec(r, h, body).0 ==>
      AllPlain(body.txs) && ExecutedAll(state(r), body.miner, body.txs) == Some(state(exec(r, h, body).1))
  }

  /** What a block has to satisfy for the supply to change by what it mints: gas in bounds, locks paid for. */
  ghost predicate BlockRegular(state: Root -> State, before: Root, body: Body) {
    AllPlain(body.txs) && AllGasChecked(body.txs) && AllPaid(state(before), body.miner, body.txs)
  }

  ghost predicate ChainRegular(state: Root -> State, db: Db) {
    forall k :: Low < k <= db.MaxHeight() && k - 1 in db.snapAt && db.BlockByHeight(k).Some? ==>
      BlockRegular(state, db.snapAt[k - 1], db.BlockByHeight(k).value.body)
  }

  /** What the main chain's blocks from Low + 1 to k have minted. */
  ghost function ChainMinted(db: Db, k: nat): nat {
    if k <= Low then 0
    else ChainMinted(db, k - 1) +
         if db.BlockByHeight(k).Some? then MintedAll(db.BlockByHeight(k).value.body.txs) else 0
  }

  lemma BlockStep(exec: Exec, state: Root -> State, before: Root, after: Root, k: nat, body: Body)
    requires RunsLedger(exec, state) && exec(before, k, body) == (true, after) && BlockRegular(state, before, body)
    requires Total(state(before)) + MintedAll(body.txs) < Supply && FrozenConsistent(state(before))
    ensures Total(state(after)) == Total(state(before)) + MintedAll(body.txs) && FrozenConsistent(state(after))
  {
    hide Total, FrozenConsistent, ExecutedAll, AllPaid, AllGasChecked;
    assert exec(before, k, body).0;
    BlockConserves(state(before), body.miner, body.txs);
    BlockConsistent(state(before), body.miner, body.txs);
  }

  /** In a sound database the balances at height k sum up to those at the first height plus everything minted by
      the main chain in between, and the frozen totals agree with their parts. */
  lemma {:induction false} ChainConserves(H: Hash -> nat, exec: Exec, state: Root -> State, db: Db, k: nat)
    requires Sound(H, exec, db) && RunsLedger(exec, state) && ChainRegular(state, db) && Low <= k <= db.MaxHeight()
    requires Low in db.snapAt && FrozenConsistent(state(db.snapAt[Low]))
    requires Total(state(db.snapAt[Low])) + ChainMinted(db, k) < Supply
    ensures k in db.snapAt
    ensures Total(state(db.snapAt[k])) == Total(state(db.snapAt[Low])) + ChainMinted(db, k)
    ensures FrozenConsistent(state(db.snapAt[k]))
    decreases k
  {
    hide Total, FrozenConsistent, BlockRegular, RunsLedger, BlocksConsistent, IndexSound, MintedAll;
    if k > Low {
      ChainConserves(H, exec, state, db, k - 1);
      assert Linked(exec, db, k);
      BlockStep(exec, state, db.snapAt[k - 1], db.snapAt[k], k, db.BlockByHeight(k).value.body);
    }
  }

  lemma {:induction false} BlockConsistent(s: State, miner: Address, txs: seq<Transaction>)
    requires AllPlain(txs) && ExecutedAll(s, miner, txs).Some? && FrozenConsistent(s)
    ensures FrozenConsistent(ExecutedAll(s, miner, txs).value)
    decreases |txs|
  {
    hide FrozenConsistent, Executed;
    if txs != [] {
      BlockConsistent(s, miner, txs[..|txs| - 1]);
      ExecutedConsistent(ExecutedAll(s, miner, txs[..|txs| - 1]).value, miner, txs[|txs| - 1]);
    }
  }
}
