/** The transaction pool: which queued transactions are put into the next block, and why the chain accepts them. */
module Pool {
  import opened Options
  import opened Transactions
  import opened QueueOrder
  import opened TxQueue
  import opened Ledger

  const PendingLimit: int := 100
  const PoolCapacity: int := 10_000

  /** What the pool expects of an account after the transactions picked so far. */
  datatype Trader = Trader(available: U64, locked: U64, nextNonce: U64, single: U64, singleExists: bool)

  type Traders = map<Address, Trader>

  // ----- the simulation -----

  function Fetched(s: State, a: Address): Option<Trader> {
    if s.Available(a).None? then None
    else Some(Trader(s.Available(a).value, s.Frozen(a), s.Nonce(a), 0, false))
  }

  function View(s: State, buf: Traders, a: Address): Option<Trader> {
    if a in buf then Some(buf[a]) else Fetched(s, a)
  }

  /** getTraderInfo: the buffered or the chain's data, buffered on the way; with a notary, the amount frozen for
      the first notary asked for. */
  function TraderInfo(s: State, buf: Traders, a: Address, notary: Option<Address>): (Option<Trader>, Traders) {
    var t := View(s, buf, a);
    if t.None? then (None, buf)
    else
      var t' := if notary.Some? && !t.value.singleExists
                then t.value.(single := At(s.frozenFor, Hold(a, notary.value)), singleExists := true)
                else t.value;
      (Some(t'), buf[a := t'])
  }

  function TransferSimulated(s: State, buf: Traders, tx: Transaction): (bool, Traders) {
    var (caller, b1) := TraderInfo(s, buf, tx.from, None);
    if caller.None? then (false, b1) else
    var (receiver, b2) := TraderInfo(s, b1, tx.to, None);
    if receiver.None? then (false, b2) else
    var cost := CheckedAdd(tx.amount, tx.GasCap());
    if cost.None? then (false, b2) else
    var left := CheckedSub(caller.value.available, cost.value);
    if left.None? then (false, b2) else
    var received := CheckedAdd(receiver.value.available, tx.amount);
    if received.None? then (false, b2) else
    (true, b2[tx.from := caller.value.(nextNonce := Wrap(caller.value.nextNonce + 1), available := left.value)]
             [tx.to := receiver.value.(available := received.value)])
  }

  function LockSimulated(s: State, buf: Traders, tx: Transaction): (bool, Traders) {
    var (caller, b1) := TraderInfo(s, buf, tx.from, None);
    if caller.None? || caller.value.available < tx.amount then (false, b1) else
    var locked := CheckedAdd(caller.value.locked, tx.amount);
    if locked.None? then (false, b1) else
    var left := CheckedSub(caller.value.available - tx.amount, tx.GasCap());
    if left.None? then (false, b1) else
    (true, b1[tx.from := caller.value.(nextNonce := Wrap(caller.value.nextNonce + 1), locked := locked.value,
                                       available := left.value)])
  }

  function UnlockSimulated(s: State, buf: Traders, tx: Transaction): (bool, Traders) {
    var (caller, b1) := TraderInfo(s, buf, tx.from, Some(tx.to));
    if caller.None? || caller.value.single < tx.amount then (false, b1) else
    var locked := CheckedSub(caller.value.locked, tx.amount);
    if locked.None? then (false, b1) else
    var single := CheckedSub(caller.value.single, tx.amount);
    if single.None? then (false, b1) else
    var left := CheckedSub(caller.value.available, tx.GasCap());
    if left.None? then (false, b1) else
    var available := CheckedAdd(left.value, tx.amount);
    if available.None? then (false, b1) else
    (true, b1[tx.from := caller.value.(nextNonce := Wrap(caller.value.nextNonce + 1), locked := locked.value,
                                       single := single.value, available := available.value)])
  }

  /** Pledges, and the two kinds that run the virtual machine. */
  function PledgeSimulated(s: State, buf: Traders, tx: Transaction): (bool, Traders) {
    var (caller, b1) := TraderInfo(s, buf, tx.from, None);
    if caller.None? || caller.value.available < tx.amount then (false, b1) else
    var left := CheckedSub(caller.value.available - tx.amount, tx.GasCap());
    if left.None? then (false, b1) else
    (true, b1[tx.from := caller.value.(nextNonce := Wrap(caller.value.nextNonce + 1), available := left.value)])
  }

  function RedeemSimulated(s: State, buf: Traders, tx: Transaction): (bool, Traders) {
    if tx.amount != 0 then (false, buf) else
    var (caller, b1) := TraderInfo(s, buf, tx.from, None);
    if caller.None? || caller.value.available < tx.amount then (false, b1) else
    var left := CheckedSub(caller.value.available, tx.GasCap());
    if left.None? then (false, b1) else
    (true, b1[tx.from := caller.value.(nextNonce := Wrap(caller.value.nextNonce + 1), available := left.value)])
  }

  function Simulated(s: State, buf: Traders, tx: Transaction): (bool, Traders) {
    match tx.kind
    case Transfer => TransferSimulated(s, buf, tx)
    case Lock => LockSimulated(s, buf, tx)
    case Unlock => UnlockSimulated(s, buf, tx)
    case Pledge => PledgeSimulated(s, buf, tx)
    case EvmContract => PledgeSimulated(s, buf, tx)
    case EvmKto => PledgeSimulated(s, buf, tx)
    case PledgeBreak => RedeemSimulated(s, buf, tx)
    case _ => (false, buf)
  }

  /** The progress of Pending: the simulated accounts, the transactions picked and the indexes to remove. */
  datatype Selection = Selection(buf: Traders, taken: seq<SignedTransaction>, bad: seq<int>)

  /** One turn of the loop. When the chain cannot report the caller, the expected nonce counts as zero. */
  function Considered(s: State, sel: Selection, st: SignedTransaction, idx: int): Selection {
    var (info, b1) := TraderInfo(s, sel.buf, st.Caller(), None);
    var next: U64 := if info.None? then 0 else info.value.nextNonce;
    if st.Nonce() < next then sel.(buf := b1, bad := sel.bad + [idx])
    else if st.Nonce() > next then sel.(buf := b1)
    else
      var (ok, b2) := Simulated(s, b1, st.tx);
      if ok then sel.(buf := b2, taken := sel.taken + [st]) else sel.(buf := b2, bad := sel.bad + [idx])
  }

  /** The first i transactions from the end of the queue have been considered, or the limit is reached. */
  function Selected(s: State, L: seq<SignedTransaction>, i: int): (sel: Selection)
    requires 0 <= i <= |L|
    ensures |sel.taken| <= PendingLimit
  {
    if i == 0 then Selection(map[], [], [])
    else
      var sel := Selected(s, L, i - 1);
      if |sel.taken| >= PendingLimit then sel else Considered(s, sel, L[|L| - i], |L| - i)
  }

  lemma SelectedStart(s: State, L: seq<SignedTransaction>)
    ensures Selected(s, L, 0) == Selection(map[], [], [])
  {
  }

  lemma SelectedStep(s: State, L: seq<SignedTransaction>, i: int)
    requires 0 <= i < |L|
    ensures var sel := Selected(s, L, i);
            Selected(s, L, i + 1) ==
              if |sel.taken| >= PendingLimit then sel else Considered(s, sel, L[|L| - 1 - i], |L| - 1 - i)
  {
    hide Considered;
  }

  lemma {:induction false} SelectedFull(s: State, L: seq<SignedTransaction>, i: int, j: int)
    requires 0 <= i <= j <= |L| && |Selected(s, L, i).taken| >= PendingLimit
    ensures Selected(s, L, j) == Selected(s, L, i)
    decreases j
  {
    hide Considered;
    if i < j {
      SelectedFull(s, L, i, j - 1);
    }
  }

  ghost function RemovedAll(L: seq<SignedTransaction>, idxs: seq<int>): seq<SignedTransaction> {
    if idxs == [] then L else Removed(RemovedAll(L, idxs[..|idxs| - 1]), idxs[|idxs| - 1])
  }

  class TransactionPool {
    const bc: Database
    const q: OrderlyQueue

    constructor (bc: Database)
      ensures this.bc == bc && fresh(q) && q.Valid() && q.stList == []
    {
      this.bc := bc;
      q := new OrderlyQueue();
    }

    /** The source's Add; whether the signature is right, and the current second, are parameters. */
    method Add(st: SignedTransaction, signatureOk: bool, second: int) returns (ok: bool)
      requires q.Valid()
      modifies q
      ensures q.Valid()
      ensures ok == (!(st.tx.kind == Transfer && |st.tx.input| > 0) && MinGas <= st.GasCap() <= MaxGas && signatureOk
                     && |old(q.stList)| < PoolCapacity && st.Nonce() >= bc.St().Nonce(st.Caller()))
      ensures q.stList == if ok then Pushed(old(q.stList), st) else old(q.stList)
    {
      hide Wrap;
      if st.tx.kind == Transfer && |st.tx.input| > 0 {
        return false;
      }
      if st.GasCap() < MinGas || st.GasCap() > MaxGas {
        return false;
      }
      if !signatureOk || |q.stList| >= PoolCapacity {
        return false;
      }
      var last := bc.GetNonce(st.Caller());
      if st.Nonce() < last {
        return false;
      }
      q.Push(st, second);
      return true;
    }

    /** The source's Pending. */
    method Pending() returns (pending: seq<SignedTransaction>)
      requires q.Valid()
      modifies q
      ensures q.Valid()
      ensures var sel := Selected(bc.St(), old(q.stList), |old(q.stList)|);
              pending == sel.taken && q.stList == RemovedAll(old(q.stList), sel.bad)
    {
      hide Considered, Selected, Removed, OrderlyQueue.Valid;
      SelectedStart(bc.St(), q.stList);
      ghost var s, L := bc.St(), q.stList;
      var sel := Selection(map[], [], []);
      var i := 0;
      while |sel.taken| < PendingLimit && i < |q.stList|
        invariant 0 <= i <= |L| && q.stList == L && q.Valid() && bc.St() == s
        invariant sel == Selected(s, L, i)
        decreases |L| - i
      {
        var idx := |q.stList| - 1 - i;
        SelectedStep(s, L, i);
        sel := Considered(State(bc.balance, bc.nonce, bc.frozen, bc.frozenFor), sel, q.stList[idx], idx);
        i := i + 1;
      }
      if i < |L| {
        SelectedFull(s, L, i, |L|);
      }
      var k := 0;
      while k < |sel.bad|
        invariant 0 <= k <= |sel.bad| && q.Valid() && bc.St() == s
        invariant q.stList == RemovedAll(L, sel.bad[..k])
      {
        q.Remove(sel.bad[k]);
        assert sel.bad[..k + 1][..k] == sel.bad[..k];
        k := k + 1;
      }
      assert sel.bad[..k] == sel.bad;
      return sel.taken;
    }
  }
}
