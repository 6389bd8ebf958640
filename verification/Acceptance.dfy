/** Why the chain accepts what the pool picks: the pool's simulation never promises more than execution gives. */
module Acceptance {
  import opened Options
  import opened Transactions
  import opened QueueOrder
  import opened Ledger
  import opened Pool

  // ----- what an executed transaction does to each account -----

  /** The kinds that are both simulated and executed without the virtual machine. */
  predicate Simulable(tx: Transaction) {
    tx.kind == Transfer || tx.kind == Lock || tx.kind == Unlock || tx.kind == Pledge || tx.kind == EvmKto
  }

  /** The change of the sender's frozen total, and the most that leaves the sender's available balance. */
  function FrozenChange(tx: Transaction): int {
    if tx.kind == Lock then tx.amount else if tx.kind == Unlock then 0 - tx.amount else 0
  }

  function Spent(tx: Transaction): int {
    if tx.kind == Unlock then tx.GasCap() - tx.amount else tx.amount + tx.GasCap()
  }

  /** The sender has what the transaction needs. */
  predicate Payable(st: State, tx: Transaction) {
    && st.Available(tx.from).Some?
    && if tx.kind == Unlock then
         && tx.GasCap() <= st.Available(tx.from).value
         && tx.amount <= At(st.frozenFor, Hold(tx.from, tx.to)) && tx.amount <= st.Frozen(tx.from)
       else tx.amount + tx.GasCap() <= st.Available(tx.from).value
  }

  /** An account other than the sender: its available balance grows by at least x and nothing else changes. */
  ghost predicate Grows(st: State, st': State, a: Address, x: int) {
    && (st.Available(a).Some? ==> st'.Available(a).Some? && st'.Available(a).value >= st.Available(a).value + x)
    && st'.Frozen(a) == st.Frozen(a) && st'.Nonce(a) == st.Nonce(a)
    && forall n: Address :: At(st'.frozenFor, Hold(a, n)) == At(st.frozenFor, Hold(a, n))
  }

  ghost predicate SenderPays(st: State, st': State, tx: Transaction) {
    && st'.Nonce(tx.from) == (if tx.nonce == MaxUint64 then 1 else tx.nonce + 1)
    && st.Available(tx.from).Some? && st'.Available(tx.from).Some?
    && st'.Available(tx.from).value >= st.Available(tx.from).value - Spent(tx)
    && st'.Frozen(tx.from) == st.Frozen(tx.from) + FrozenChange(tx)
    && forall n: Address :: At(st'.frozenFor, Hold(tx.from, n)) ==
         At(st.frozenFor, Hold(tx.from, n)) + if n == tx.to then FrozenChange(tx) else 0
  }

  function Received(tx: Transaction, a: Address): int {
    if tx.kind == Transfer && a == tx.to then tx.amount else 0
  }

  ghost predicate Effects(st: State, st': State, tx: Transaction) {
    SenderPays(st, st', tx) && forall a: Address :: a != tx.from ==> Grows(st, st', a, Received(tx, a))
  }

  lemma TwoAtMostSum(m: Book<Address>, j: Address, k: Address)
    requires j != k
    ensures At(m, j) + At(m, k) <= Sum(m)
  {
    if j in m {
      SumRemove(m, j);
      AtMostSum(m - {j}, k);
    } else {
      AtMostSum(m, k);
    }
  }

  /** The state between the fee and the account step. */
  function Prepared(st: State, miner: Address, tx: Transaction): State {
    var s1 := st.(nonce := st.nonce[tx.from := Wrap(tx.nonce + 1)]);
    if s1.Balance(miner) + tx.GasCap() > MaxUint64 then s1
    else WithBalance(s1, miner, s1.Balance(miner) + tx.GasCap())
  }

  lemma PreparedState(st: State, miner: Address, tx: Transaction)
    requires st.Nonce(tx.from) == tx.nonce && tx.GasCap() <= MaxGas && Total(st) < Supply
    ensures var s2 := Prepared(st, miner, tx);
            && NonceSet(st, tx.from, Wrap(tx.nonce + 1)) == Some(st.(nonce := s2.nonce))
            && Credited(st.(nonce := s2.nonce), miner, tx.GasCap()) == Some(s2)
            && s2.frozen == st.frozen && s2.frozenFor == st.frozenFor
            && Total(s2) == Total(st) + tx.GasCap()
            && s2.Nonce(tx.from) == (if tx.nonce == MaxUint64 then 1 else tx.nonce + 1)
            && (forall a: Address :: a != tx.from ==> s2.Nonce(a) == st.Nonce(a))
            && (forall a: Address :: s2.Balance(a) == st.Balance(a) + if a == miner then tx.GasCap() else 0)
  {
    hide Total, Sum;
    AtMost(st, miner);
    NextNonce(tx.nonce);
    hide Wrap;
    TotalWith(st.(nonce := st.nonce[tx.from := Wrap(tx.nonce + 1)]), miner, st.Balance(miner) + tx.GasCap());
    SameTotal(st, st.(nonce := st.nonce[tx.from := Wrap(tx.nonce + 1)]));
  }

  lemma AtMost(st: State, a: Address)
    ensures st.Balance(a) <= Total(st)
  {
    AtMostSum(st.balance, a);
  }

  lemma SameTotal(s: State, s': State)
    requires s.balance == s'.balance
    ensures Total(s) == Total(s')
  {
  }

  lemma NextNonce(n: U64)
    ensures Wrap(n + 1) == if n == MaxUint64 then 0 else n + 1
  {
  }

  /** setAccount goes through, and takes amount and gas at most. */
  lemma TransferGoes(s2: State, kind: TransactionType, from: Address, to: Address, amount: U64, gas: U64)
    requires Settled(kind) && kind != EvmContract
    requires s2.Available(from).Some? && amount + gas <= s2.Available(from).value
    requires from != to ==> s2.Balance(to) + amount + gas <= MaxUint64
    requires s2.Balance(from) + gas <= MaxUint64
    ensures Transferred(s2, kind, from, to, amount, gas).Some?
    ensures var s' := Transferred(s2, kind, from, to, amount, gas).value;
            && s'.frozen == s2.frozen && s'.frozenFor == s2.frozenFor && s'.nonce == s2.nonce
            && s'.Balance(from) >= s2.Balance(from) - amount - gas
            && (forall a: Address :: a != from ==>
                  s'.Balance(a) >= s2.Balance(a) + if a == to && kind == Transfer then amount else 0)
  {
    hide Wrap;
    WrapExact(amount + gas);
    if from != to {
      WrapExact(MaxUint64 - s2.Balance(to) - gas);
      WrapExact(s2.Balance(to) + amount);
    }
  }

  /** A lock goes through when the amount and the gas are available. */
  lemma LockGoes(s2: State, p: Hold, amount: U64, gas: U64)
    requires s2.Available(p.from).Some? && amount + gas <= s2.Available(p.from).value
    requires At(s2.frozenFor, p) <= s2.Frozen(p.from) && s2.Balance(p.from) + gas <= MaxUint64
    ensures FreezeSet(s2, p, amount, gas, true).Some?
    ensures FreezeSet(s2, p, amount, gas, true).value ==
              WithBalance(WithFrozen(s2, p, At(s2.frozenFor, p) + amount, s2.Frozen(p.from) + amount),
                          p.from, s2.Balance(p.from) - gas)
  {
    hide Wrap;
    WrapExact(s2.Available(p.from).value + gas);
    WrapExact(MaxUint64 - At(s2.frozenFor, p) - gas);
    WrapExact(MaxUint64 - s2.Frozen(p.from) - gas);
    WrapExact(At(s2.frozenFor, p) + amount);
    WrapExact(s2.Frozen(p.from) + amount);
    WrapExact(s2.Balance(p.from) - gas);
  }

  lemma UnlockGoes(s2: State, p: Hold, amount: U64, gas: U64)
    requires s2.Available(p.from).Some? && gas <= s2.Available(p.from).value
    requires amount <= At(s2.frozenFor, p) && amount <= s2.Frozen(p.from) && s2.Balance(p.from) + gas <= MaxUint64
    ensures FreezeSet(s2, p, amount, gas, false).Some?
    ensures FreezeSet(s2, p, amount, gas, false).value ==
              WithBalance(WithFrozen(s2, p, At(s2.frozenFor, p) - amount, s2.Frozen(p.from) - amount),
                          p.from, s2.Balance(p.from) - gas)
  {
    hide Wrap;
    WrapExact(At(s2.frozenFor, p) - amount);
    WrapExact(s2.Frozen(p.from) - amount);
    WrapExact(s2.Balance(p.from) - gas);
  }

  /** A payable transaction with the right nonce executes, with the stated effects. */
  lemma ExecutesWell(st: State, miner: Address, tx: Transaction)
    requires Simulable(tx) && tx.GasCap() <= MaxGas && Total(st) < Supply && FrozenConsistent(st)
    requires st.Nonce(tx.from) == tx.nonce && Payable(st, tx)
    ensures Executed(st, miner, tx).Some?
    ensures var st' := Executed(st, miner, tx).value;
            Effects(st, st', tx) && Total(st') == Total(st) && FrozenConsistent(st')
  {
    hide Wrap, Transferred, FreezeSet, FrozenConsistent, Total, Prepared, Credited, NonceSet, Effects;
    PreparedState(st, miner, tx);
    var s2 := Prepared(st, miner, tx);
    AtMost(st, tx.from);
    if tx.kind == Lock || tx.kind == Unlock {
      FreezeWell(st, s2, miner, tx);
    } else {
      TransferWell(st, s2, miner, tx);
    }
    var st' := Executed(st, miner, tx).value;
    ExecutedConsistent(st, miner, tx);
  }

  ghost predicate Ready(st: State, s2: State, miner: Address, tx: Transaction) {
    && s2.frozen == st.frozen && s2.frozenFor == st.frozenFor
    && s2.Nonce(tx.from) == (if tx.nonce == MaxUint64 then 1 else tx.nonce + 1)
    && (forall a: Address :: a != tx.from ==> s2.Nonce(a) == st.Nonce(a))
    && (forall a: Address :: s2.Balance(a) == st.Balance(a) + if a == miner then tx.GasCap() else 0)
  }

  lemma TransferEffects(st: State, s2: State, s': State, miner: Address, tx: Transaction)
    requires tx.kind == Transfer || tx.kind == Pledge || tx.kind == EvmKto
    requires Payable(st, tx) && Ready(st, s2, miner, tx)
    requires s'.frozen == s2.frozen && s'.frozenFor == s2.frozenFor && s'.nonce == s2.nonce
    requires s'.Balance(tx.from) >= s2.Balance(tx.from) - tx.amount - tx.GasCap()
    requires forall a: Address :: a != tx.from ==>
               s'.Balance(a) >= s2.Balance(a) + if a == tx.to && tx.kind == Transfer then tx.amount else 0
    ensures Effects(st, s', tx)
  {
    hide Wrap;
  }

  lemma TransferWell(st: State, s2: State, miner: Address, tx: Transaction)
    requires tx.kind == Transfer || tx.kind == Pledge || tx.kind == EvmKto
    requires tx.GasCap() <= MaxGas && Total(st) < Supply && Payable(st, tx) && Ready(st, s2, miner, tx)
    ensures Transferred(s2, tx.kind, tx.from, tx.to, tx.amount, tx.GasCap()).Some?
    ensures var s' := Transferred(s2, tx.kind, tx.from, tx.to, tx.amount, tx.GasCap()).value;
            Effects(st, s', tx) && Total(s') == Total(s2) - tx.GasCap()
  {
    hide Wrap, Total, Transferred, Effects;
    AtMost(st, tx.from);
    if tx.from != tx.to {
      TwoAtMost(st, tx.from, tx.to);
    }
    TransferGoes(s2, tx.kind, tx.from, tx.to, tx.amount, tx.GasCap());
    TransferredTotal(s2, tx.kind, tx.from, tx.to, tx.amount, tx.GasCap());
    TransferBalanced(s2, tx.kind, tx.from, tx.to, tx.amount, tx.GasCap());
    TransferEffects(st, s2, Transferred(s2, tx.kind, tx.from, tx.to, tx.amount, tx.GasCap()).value, miner, tx);
  }

  lemma TwoAtMost(st: State, a: Address, b: Address)
    requires a != b
    ensures st.Balance(a) + st.Balance(b) <= Total(st)
  {
    TwoAtMostSum(st.balance, a, b);
  }

  /** The effects of moving a frozen amount by d and taking the gas. */
  lemma FreezeEffects(st: State, s2: State, s': State, miner: Address, tx: Transaction)
    requires tx.kind == Lock || tx.kind == Unlock
    requires Payable(st, tx) && Ready(st, s2, miner, tx)
    requires var p, d := Hold(tx.from, tx.to), FrozenChange(tx);
             && 0 <= At(s2.frozenFor, p) + d <= MaxUint64 && 0 <= s2.Frozen(p.from) + d <= MaxUint64
             && tx.GasCap() <= s2.Balance(p.from)
             && s' == WithBalance(WithFrozen(s2, p, At(s2.frozenFor, p) + d, s2.Frozen(p.from) + d),
                                  p.from, s2.Balance(p.from) - tx.GasCap())
    ensures Effects(st, s', tx)
  {
    hide Wrap;
    forall a: Address | a != tx.from ensures Grows(st, s', a, Received(tx, a)) {
      assert s'.Frozen(a) == s2.Frozen(a) && s'.Balance(a) == s2.Balance(a);
    }
    assert s'.Frozen(tx.from) == st.Frozen(tx.from) + FrozenChange(tx);
    assert s'.Balance(tx.from) == s2.Balance(tx.from) - tx.GasCap();
  }

  lemma FreezeGoes(st: State, s2: State, miner: Address, tx: Transaction)
    requires tx.kind == Lock || tx.kind == Unlock
    requires tx.GasCap() <= MaxGas && Total(st) < Supply && Payable(st, tx) && Ready(st, s2, miner, tx)
    requires FrozenConsistent(st)
    ensures var p, d := Hold(tx.from, tx.to), FrozenChange(tx);
            var r := FreezeSet(s2, p, tx.amount, tx.GasCap(), tx.kind == Lock);
            && 0 <= At(s2.frozenFor, p) + d <= MaxUint64 && 0 <= s2.Frozen(p.from) + d <= MaxUint64
            && tx.GasCap() <= s2.Balance(p.from)
            && r == Some(WithBalance(WithFrozen(s2, p, At(s2.frozenFor, p) + d, s2.Frozen(p.from) + d),
                                     p.from, s2.Balance(p.from) - tx.GasCap()))
  {
    hide Wrap, Total, FreezeSet, FrozenConsistent, WithBalance, WithFrozen;
    var p := Hold(tx.from, tx.to);
    AtMost(st, tx.from);
    HoldAtMost(st, p);
    if tx.kind == Lock {
      LockGoes(s2, p, tx.amount, tx.GasCap());
    } else {
      UnlockGoes(s2, p, tx.amount, tx.GasCap());
    }
  }

  lemma FreezeWell(st: State, s2: State, miner: Address, tx: Transaction)
    requires tx.kind == Lock || tx.kind == Unlock
    requires tx.GasCap() <= MaxGas && Total(st) < Supply && Payable(st, tx) && Ready(st, s2, miner, tx)
    requires FrozenConsistent(st)
    ensures var r := FreezeSet(s2, Hold(tx.from, tx.to), tx.amount, tx.GasCap(), tx.kind == Lock);
            r.Some? && Effects(st, r.value, tx) && Total(r.value) == Total(s2) - tx.GasCap()
  {
    hide Wrap, Total, FreezeSet, FrozenConsistent, Effects, Payable, Ready, WithBalance, WithFrozen, FrozenChange;
    var p := Hold(tx.from, tx.to);
    FreezeGoes(st, s2, miner, tx);
    FreezeEffects(st, s2, FreezeSet(s2, p, tx.amount, tx.GasCap(), tx.kind == Lock).value, miner, tx);
    FreezeSetTotal(s2, p, tx.amount, tx.GasCap(), tx.kind == Lock);
  }

  // ----- what the simulation promises -----

  /** The caller as the simulation sees it; an unlock looks up the notary's amount once. */
  function CallerSeen(s: State, t: Trader, tx: Transaction): Trader {
    if tx.kind == Unlock && !t.singleExists
    then t.(single := At(s.frozenFor, Hold(tx.from, tx.to)), singleExists := true)
    else t
  }

  predicate Affordable(c: Trader, tx: Transaction) {
    if tx.kind == Unlock then tx.GasCap() <= c.available && tx.amount <= c.single && tx.amount <= c.locked
    else tx.amount + tx.GasCap() <= c.available
  }

  ghost predicate OthersSeen(s: State, buf: Traders, buf': Traders, tx: Transaction) {
    forall a: Address :: a != tx.from && View(s, buf', a).Some? ==>
      && View(s, buf, a).Some?
      && var t, t' := View(s, buf, a).value, View(s, buf', a).value;
         && t'.available == t.available + Received(tx, a) && t'.nextNonce == t.nextNonce && t'.locked == t.locked
         && t'.single == t.single && t'.singleExists == t.singleExists
  }

  /** An accepted transaction is affordable; it moves the caller on, except that a transfer to oneself ends with
      the receiver's entry, in which the nonce has not moved. */
  ghost predicate Promised(s: State, buf: Traders, buf': Traders, tx: Transaction) {
    && View(s, buf, tx.from).Some? && View(s, buf', tx.from).Some?
    && var c, c' := CallerSeen(s, View(s, buf, tx.from).value, tx), View(s, buf', tx.from).value;
       && Affordable(c, tx)
       && if tx.kind == Transfer && tx.from == tx.to then c'.nextNonce == c.nextNonce
          else
            && c'.nextNonce == Wrap(c.nextNonce + 1) && c'.available == c.available - Spent(tx)
            && c'.locked == c.locked + FrozenChange(tx) && c'.singleExists == c.singleExists
            && c'.single == if tx.kind == Unlock then c.single - tx.amount else c.single
  }

  ghost predicate OthersKept(s: State, buf: Traders, buf': Traders, tx: Transaction) {
    forall a: Address :: a != tx.from ==> View(s, buf', a) == View(s, buf, a)
  }

  /** A rejected transaction leaves the caller's nonce where it was. */
  ghost predicate Rejected(s: State, buf: Traders, buf': Traders, tx: Transaction) {
    && View(s, buf', tx.from).Some? == View(s, buf, tx.from).Some?
    && (View(s, buf, tx.from).Some? ==>
          View(s, buf', tx.from).value.nextNonce == View(s, buf, tx.from).value.nextNonce)
  }

  lemma TransferSeen(s: State, buf: Traders, tx: Transaction)
    requires tx.kind == Transfer
    ensures var (ok, buf') := TransferSimulated(s, buf, tx);
            if ok then OthersSeen(s, buf, buf', tx) && Promised(s, buf, buf', tx)
            else (forall a: Address :: View(s, buf', a) == View(s, buf, a))
    ensures TransferSimulated(s, buf, tx).0 <==>
              var c, r := View(s, buf, tx.from), View(s, buf, tx.to);
              && c.Some? && r.Some? && tx.amount + tx.GasCap() <= c.value.available
              && r.value.available + tx.amount <= MaxUint64
  {
    hide Wrap, State.Available, State.Frozen, State.Nonce;
  }

  lemma LockSeen(s: State, buf: Traders, tx: Transaction)
    requires tx.kind == Lock
    ensures var (ok, buf') := LockSimulated(s, buf, tx);
            if ok then OthersSeen(s, buf, buf', tx) && Promised(s, buf, buf', tx)
            else (forall a: Address :: View(s, buf', a) == View(s, buf, a))
    ensures LockSimulated(s, buf, tx).0 <==>
              var c := View(s, buf, tx.from);
              && c.Some? && tx.amount + tx.GasCap() <= c.value.available && c.value.locked + tx.amount <= MaxUint64
  {
    hide Wrap, State.Available, State.Frozen, State.Nonce;
  }

  lemma UnlockSeen(s: State, buf: Traders, tx: Transaction)
    requires tx.kind == Unlock
    ensures var (ok, buf') := UnlockSimulated(s, buf, tx);
            && OthersKept(s, buf, buf', tx)
            && if ok then Promised(s, buf, buf', tx) else Rejected(s, buf, buf', tx)
    ensures UnlockSimulated(s, buf, tx).0 <==>
              View(s, buf, tx.from).Some? &&
              var c := CallerSeen(s, View(s, buf, tx.from).value, tx);
              && tx.amount <= c.single && tx.amount <= c.locked && tx.GasCap() <= c.available
              && c.available - tx.GasCap() + tx.amount <= MaxUint64
  {
    hide Wrap, State.Available, State.Frozen, State.Nonce;
  }

  lemma PledgeSeen(s: State, buf: Traders, tx: Transaction)
    requires tx.kind != Transfer && tx.kind != Lock && tx.kind != Unlock
    ensures var (ok, buf') := PledgeSimulated(s, buf, tx);
            if ok then OthersSeen(s, buf, buf', tx) && Promised(s, buf, buf', tx)
            else (forall a: Address :: View(s, buf', a) == View(s, buf, a))
    ensures PledgeSimulated(s, buf, tx).0 <==>
              View(s, buf, tx.from).Some? && tx.amount + tx.GasCap() <= View(s, buf, tx.from).value.available
  {
    hide Wrap, State.Available, State.Frozen, State.Nonce;
  }

  lemma RedeemSeen(s: State, buf: Traders, tx: Transaction)
    ensures var (ok, buf') := RedeemSimulated(s, buf, tx);
            !ok ==> forall a: Address :: View(s, buf', a) == View(s, buf, a)
  {
    hide Wrap, State.Available, State.Frozen, State.Nonce;
  }

  lemma SimulatedSeen(s: State, buf: Traders, tx: Transaction)
    ensures var (ok, buf') := Simulated(s, buf, tx);
            && (ok && Simulable(tx) ==> OthersSeen(s, buf, buf', tx) && Promised(s, buf, buf', tx))
            && (!ok ==> OthersKept(s, buf, buf', tx) && Rejected(s, buf, buf', tx))
  {
    hide Wrap, View, TransferSimulated, LockSimulated, UnlockSimulated, PledgeSimulated, RedeemSimulated, Promised;
    if tx.kind == Transfer {
      TransferSeen(s, buf, tx);
    } else if tx.kind == Lock {
      LockSeen(s, buf, tx);
    } else if tx.kind == Unlock {
      UnlockSeen(s, buf, tx);
    } else {
      PledgeSeen(s, buf, tx);
      RedeemSeen(s, buf, tx);
    }
  }

  // ----- the simulation never promises more than the state holds -----

  /** The notary of a caller's last unlock. */
  function LastNotary(txs: seq<Transaction>, a: Address): (r: Option<Address>)
    ensures r.Some? ==> exists i :: 0 <= i < |txs| && txs[i].kind == Unlock && txs[i].from == a && txs[i].to == r.value
  {
    if txs == [] then None
    else
      var n := |txs| - 1;
      if txs[n].kind == Unlock && txs[n].from == a then Some(txs[n].to) else LastNotary(txs[..n], a)
  }

  /** No caller unlocks from two different notaries. */
  predicate OneNotary(txs: seq<Transaction>) {
    forall i, j :: (0 <= i < |txs| && 0 <= j < |txs| && txs[i].kind == Unlock && txs[j].kind == Unlock
                    && txs[i].from == txs[j].from) ==> txs[i].to == txs[j].to
  }

  /** What a transaction adds to the amount frozen for a hold. */
  function HoldChange(tx: Transaction, p: Hold): int {
    if p == Hold(tx.from, tx.to) then FrozenChange(tx) else 0
  }

  /** What is frozen for a hold after the listed transactions: its locks added, its unlocks taken off. */
  function HeldAfter(s: State, txs: seq<Transaction>, p: Hold): int {
    if txs == [] then At(s.frozenFor, p) else HeldAfter(s, txs[..|txs| - 1], p) + HoldChange(txs[|txs| - 1], p)
  }

  /** Every unlock finds its amount frozen for its notary. */
  predicate EnoughHeld(s: State, txs: seq<Transaction>) {
    forall i :: 0 <= i < |txs| && txs[i].kind == Unlock ==>
      txs[i].amount <= HeldAfter(s, txs[..i], Hold(txs[i].from, txs[i].to))
  }

  lemma EnoughHeldStep(s: State, txs: seq<Transaction>, tx: Transaction)
    ensures EnoughHeld(s, txs + [tx]) <==>
              EnoughHeld(s, txs) && (tx.kind == Unlock ==> tx.amount <= HeldAfter(s, txs, Hold(tx.from, tx.to)))
  {
    hide Wrap, HeldAfter;
    var all := txs + [tx];
    assert all[..|txs|] == txs && all[|txs|] == tx;
    assert forall i :: 0 <= i < |txs| ==> all[i] == txs[i] && all[..i] == txs[..i];
  }

  /** Executing the transactions leaves exactly that much frozen. */
  ghost predicate HeldAgrees(s: State, st: State, txs: seq<Transaction>) {
    forall p: Hold :: At(st.frozenFor, p) == HeldAfter(s, txs, p)
  }

  lemma HeldAgreesStep(s: State, st: State, st': State, txs: seq<Transaction>, tx: Transaction)
    requires HeldAgrees(s, st, txs) && Effects(st, st', tx)
    ensures HeldAgrees(s, st', txs + [tx])
  {
    hide Wrap;
    assert (txs + [tx])[..|txs|] == txs;
    forall p: Hold ensures At(st'.frozenFor, p) == HeldAfter(s, txs + [tx], p) {
      assert p == Hold(p.from, p.notary);
      if p.from != tx.from {
        assert Grows(st, st', p.from, Received(tx, p.from));
      }
    }
  }

  lemma OneNotaryFront(txs: seq<Transaction>, tx: Transaction)
    requires OneNotary(txs + [tx])
    ensures OneNotary(txs)
  {
    hide Wrap;
    assert forall i :: 0 <= i < |txs| ==> (txs + [tx])[i] == txs[i];
  }

  /** The chain's state s has become st by executing txs; while no caller unlocks from two notaries, the single
      amount a trader's entry holds is there. */
  ghost predicate SingleFits(s: State, st: State, txs: seq<Transaction>, t: Trader, a: Address) {
    OneNotary(txs) ==>
    var last := LastNotary(txs, a);
    if t.singleExists then last.Some? && t.single <= At(st.frozenFor, Hold(a, last.value))
    else last.None? && forall n: Address :: At(s.frozenFor, Hold(a, n)) <= At(st.frozenFor, Hold(a, n))
  }

  ghost predicate Fits(s: State, st: State, txs: seq<Transaction>, t: Trader, a: Address) {
    && st.Available(a).Some? && t.available <= st.Available(a).value && t.locked <= st.Frozen(a)
    && st.Nonce(a) == t.nextNonce && SingleFits(s, st, txs, t, a)
  }

  /** None of the first k transactions of the queue is the caller's with this nonce. */
  ghost predicate Finished(L: seq<SignedTransaction>, k: int, a: Address, nonce: U64)
    requires k <= |L|
  {
    forall p :: 0 <= p < k && L[p].Caller() == a ==> L[p].Nonce() != nonce
  }

  ghost predicate FitsOrFinished(s: State, st: State, txs: seq<Transaction>, buf: Traders,
                                 L: seq<SignedTransaction>, k: int, a: Address)
    requires k <= |L|
  {
    View(s, buf, a).Some? ==>
      Fits(s, st, txs, View(s, buf, a).value, a) || Finished(L, k, a, View(s, buf, a).value.nextNonce)
  }

  ghost predicate Faithful(s: State, st: State, txs: seq<Transaction>, buf: Traders, L: seq<SignedTransaction>, k: int)
    requires k <= |L|
  {
    forall a: Address :: FitsOrFinished(s, st, txs, buf, L, k, a)
  }

  lemma FaithfulAtStart(s: State, L: seq<SignedTransaction>)
    ensures Faithful(s, s, [], map[], L, |L|)
  {
    hide Wrap;
    forall a: Address ensures FitsOrFinished(s, s, [], map[], L, |L|, a) {
      if View(s, map[], a).Some? {
        assert Fits(s, s, [], View(s, map[], a).value, a);
      }
    }
  }

  lemma FinishedLater(L: seq<SignedTransaction>, k: int, k': int, a: Address, nonce: U64)
    requires k' <= k <= |L| && Finished(L, k, a, nonce)
    ensures Finished(L, k', a, nonce)
  {
  }

  /** In an ordered queue the caller of transaction k has no other one with its nonce or a smaller one in front. */
  lemma FinishedInFront(L: seq<SignedTransaction>, k: int, nonce: U64)
    requires Ordered(L) && 0 <= k < |L| && nonce <= L[k].Nonce()
    ensures Finished(L, k, L[k].Caller(), nonce)
  {
    hide Wrap;
    forall p | 0 <= p < k && L[p].Caller() == L[k].Caller() ensures L[p].Nonce() != nonce {
      assert L[p].Nonce() > L[k].Nonce();
    }
  }

  /** Nothing was picked: the same state still fits. */
  lemma FaithfulSkip(s: State, st: State, txs: seq<Transaction>, buf: Traders, buf': Traders,
                     L: seq<SignedTransaction>, k: int)
    requires 0 <= k < |L| && Ordered(L) && Faithful(s, st, txs, buf, L, k + 1)
    requires forall a: Address :: a != L[k].Caller() ==> View(s, buf', a) == View(s, buf, a)
    requires var a := L[k].Caller();
             View(s, buf', a) == View(s, buf, a)
             || (View(s, buf', a).Some? && View(s, buf', a).value.nextNonce <= L[k].Nonce())
    ensures Faithful(s, st, txs, buf', L, k)
  {
    hide Wrap, View, Fits, Finished, Ordered;
    forall a: Address ensures FitsOrFinished(s, st, txs, buf', L, k, a) {
      assert FitsOrFinished(s, st, txs, buf, L, k + 1, a);
      if View(s, buf', a).Some? {
        var n := View(s, buf', a).value.nextNonce;
        if View(s, buf', a) == View(s, buf, a) {
          if Finished(L, k + 1, a, n) {
            FinishedLater(L, k + 1, k, a, n);
          }
        } else {
          FinishedInFront(L, k, n);
        }
      }
    }
  }

  /** The entry of an account other than the caller still fits after the transaction. */
  lemma OtherFits(s: State, st: State, st': State, txs: seq<Transaction>, tx: Transaction, t: Trader, t': Trader,
                  a: Address)
    requires a != tx.from && Grows(st, st', a, Received(tx, a)) && Fits(s, st, txs, t, a)
    requires t'.available == t.available + Received(tx, a) && t'.nextNonce == t.nextNonce && t'.locked == t.locked
    requires t'.single == t.single && t'.singleExists == t.singleExists
    ensures Fits(s, st', txs + [tx], t', a)
  {
    hide Wrap;
    assert (txs + [tx])[..|txs|] == txs;
    if OneNotary(txs + [tx]) {
      OneNotaryFront(txs, tx);
    }
  }

  /** A caller whose entry fits can pay, if an unlock finds its amount. */
  lemma CallerPayable(s: State, st: State, txs: seq<Transaction>, tx: Transaction, t: Trader)
    requires Fits(s, st, txs, t, tx.from) && Affordable(CallerSeen(s, t, tx), tx)
    requires tx.kind == Unlock ==> tx.amount <= At(st.frozenFor, Hold(tx.from, tx.to))
    ensures Payable(st, tx)
  {
    hide Wrap, OneNotary, SingleFits;
  }

  /** With one notary per caller an unlock that is affordable finds its amount. */
  lemma OneNotaryHolds(s: State, st: State, txs: seq<Transaction>, tx: Transaction, t: Trader)
    requires Fits(s, st, txs, t, tx.from) && Affordable(CallerSeen(s, t, tx), tx) && OneNotary(txs + [tx])
    ensures tx.kind == Unlock ==> tx.amount <= At(st.frozenFor, Hold(tx.from, tx.to))
  {
    hide Wrap;
    OneNotaryFront(txs, tx);
    if tx.kind == Unlock && t.singleExists {
      SameNotary(txs, tx);
    }
  }

  lemma SameNotary(txs: seq<Transaction>, tx: Transaction)
    requires OneNotary(txs + [tx]) && tx.kind == Unlock && LastNotary(txs, tx.from).Some?
    ensures LastNotary(txs, tx.from).value == tx.to
  {
    hide Wrap;
    var i :| 0 <= i < |txs| && txs[i].kind == Unlock && txs[i].from == tx.from && txs[i].to == LastNotary(txs, tx.from).value;
    assert (txs + [tx])[i] == txs[i] && (txs + [tx])[|txs|] == tx;
  }

  /** The caller's entry fits again once it has moved on. */
  lemma CallerFits(s: State, st: State, st': State, txs: seq<Transaction>, tx: Transaction, t: Trader, t': Trader)
    requires Fits(s, st, txs, t, tx.from) && SenderPays(st, st', tx)
    requires tx.nonce == t.nextNonce && tx.nonce < MaxUint64
    requires var c := CallerSeen(s, t, tx);
             && t'.nextNonce == tx.nonce + 1 && t'.available == c.available - Spent(tx)
             && t'.locked == c.locked + FrozenChange(tx) && t'.singleExists == c.singleExists
             && t'.single == if tx.kind == Unlock then c.single - tx.amount else c.single
    ensures Fits(s, st', txs + [tx], t', tx.from)
  {
    hide Wrap;
    assert (txs + [tx])[..|txs|] == txs;
    if OneNotary(txs + [tx]) {
      OneNotaryFront(txs, tx);
      if tx.kind == Unlock && t.singleExists {
        SameNotary(txs, tx);
      }
    }
  }

  /** A transaction was picked and executed. */
  lemma FaithfulTake(s: State, st: State, st': State, txs: seq<Transaction>, buf: Traders, buf': Traders,
                     L: seq<SignedTransaction>, k: int)
    requires 0 <= k < |L| && Ordered(L) && Faithful(s, st, txs, buf, L, k + 1)
    requires var tx := L[k].tx;
             && OthersSeen(s, buf, buf', tx) && Promised(s, buf, buf', tx)
             && View(s, buf, tx.from).value.nextNonce == tx.nonce && Effects(st, st', tx)
             && Fits(s, st, txs, View(s, buf, tx.from).value, tx.from)
    ensures Faithful(s, st', txs + [L[k].tx], buf', L, k)
  {
    hide Wrap, View, Fits, Finished, Ordered, OneNotary, Grows, SenderPays, Affordable;
    var tx := L[k].tx;
    forall a: Address ensures FitsOrFinished(s, st', txs + [tx], buf', L, k, a) {
      if View(s, buf', a).Some? {
        var t' := View(s, buf', a).value;
        if a == tx.from {
          CallerMovesOn(s, st, st', txs, View(s, buf, a).value, t', L, k);
        } else {
          assert FitsOrFinished(s, st, txs, buf, L, k + 1, a);
          if Finished(L, k + 1, a, t'.nextNonce) {
            FinishedLater(L, k + 1, k, a, t'.nextNonce);
          } else {
            OtherFits(s, st, st', txs, tx, View(s, buf, a).value, t', a);
          }
        }
      }
    }
  }

  lemma CallerMovesOn(s: State, st: State, st': State, txs: seq<Transaction>, t: Trader, t': Trader,
                      L: seq<SignedTransaction>, k: int)
    requires 0 <= k < |L| && Ordered(L)
    requires var tx := L[k].tx; var c := CallerSeen(s, t, tx);
             && Fits(s, st, txs, t, tx.from) && SenderPays(st, st', tx)
             && t.nextNonce == tx.nonce
             && if tx.kind == Transfer && tx.from == tx.to then t'.nextNonce == c.nextNonce
                else
                  && t'.nextNonce == Wrap(c.nextNonce + 1) && t'.available == c.available - Spent(tx)
                  && t'.locked == c.locked + FrozenChange(tx) && t'.singleExists == c.singleExists
                  && t'.single == if tx.kind == Unlock then c.single - tx.amount else c.single
    ensures Fits(s, st', txs + [L[k].tx], t', L[k].Caller()) || Finished(L, k, L[k].Caller(), t'.nextNonce)
  {
    hide Fits, Finished, Ordered, SenderPays;
    var tx := L[k].tx;
    NextNonce(tx.nonce);
    hide Wrap;
    if (tx.kind == Transfer && tx.from == tx.to) || tx.nonce == MaxUint64 {
      FinishedInFront(L, k, t'.nextNonce);
    } else {
      CallerFits(s, st, st', txs, tx, t, t');
    }
  }

  // ----- the main result -----

  function Txs(T: seq<SignedTransaction>): (r: seq<Transaction>)
    ensures |r| == |T| && forall i :: 0 <= i < |T| ==> r[i] == T[i].tx
  {
    seq(|T|, i requires 0 <= i < |T| => T[i].tx)
  }

  /** Transactions that the theorem covers: simulable, with a checked gas. */
  predicate Regular(txs: seq<Transaction>) {
    forall i :: 0 <= i < |txs| ==> Simulable(txs[i]) && txs[i].GasCap() <= MaxGas
  }

  lemma RegularPlain(txs: seq<Transaction>)
    requires Regular(txs)
    ensures AllPlain(txs)
  {
    hide Wrap;
  }

  lemma RegularFront(txs: seq<Transaction>, tx: Transaction)
    requires Regular(txs + [tx])
    ensures Regular(txs) && Simulable(tx) && tx.GasCap() <= MaxGas
  {
    hide Wrap;
    var all := txs + [tx];
    assert forall i :: 0 <= i < |txs| ==> all[i] == txs[i];
    assert all[|txs|] == tx;
  }

  /** The picked transactions execute exactly when every unlock finds its amount, which it does with one notary per
      caller; then the state they lead to fits the simulation. */
  ghost predicate Accepted(s: State, miner: Address, txs: seq<Transaction>, buf: Traders, L: seq<SignedTransaction>, k: int)
    requires k <= |L|
  {
    && AllPlain(txs) && (ExecutedAll(s, miner, txs).Some? <==> EnoughHeld(s, txs))
    && (OneNotary(txs) ==> EnoughHeld(s, txs))
    && (EnoughHeld(s, txs) ==> Agrees(s, ExecutedAll(s, miner, txs).value, txs, buf, L, k))
  }

  ghost predicate Agrees(s: State, st: State, txs: seq<Transaction>, buf: Traders, L: seq<SignedTransaction>, k: int)
    requires k <= |L|
  {
    && Total(st) == Total(s) && FrozenConsistent(st) && HeldAgrees(s, st, txs)
    && Faithful(s, st, txs, buf, L, k)
  }

  lemma ConsideredAccepted(s: State, miner: Address, sel: Selection, L: seq<SignedTransaction>, k: int)
    requires 0 <= k < |L| && Ordered(L) && Total(s) < Supply
    requires Accepted(s, miner, Txs(sel.taken), sel.buf, L, k + 1)
    requires Regular(Txs(Considered(s, sel, L[k], k).taken))
    ensures var sel' := Considered(s, sel, L[k], k);
            Accepted(s, miner, Txs(sel'.taken), sel'.buf, L, k)
  {
    hide Wrap, View, Simulated, Ordered, Total, FrozenConsistent, Regular, ExecutedAll, Promised, Rejected, Agrees;
    hide OthersKept, OthersSeen, Accepted;
    var sel' := Considered(s, sel, L[k], k);
    var tx := L[k].tx;
    var (info, b1) := TraderInfo(s, sel.buf, L[k].Caller(), None);
    LookupKeepsViews(s, sel.buf, L[k].Caller());
    var next: U64 := if info.None? then 0 else info.value.nextNonce;
    if L[k].Nonce() != next {
      SkippedAccepted(s, miner, Txs(sel.taken), sel.buf, sel'.buf, L, k);
    } else {
      SimulatedSeen(s, b1, tx);
      if Simulated(s, b1, tx).0 {
        assert Txs(sel.taken + [L[k]]) == Txs(sel.taken) + [tx];
        RegularFront(Txs(sel.taken), tx);
        PromisedCaller(s, b1, sel'.buf, tx);
        TakenAccepted(s, miner, Txs(sel.taken), sel.buf, L, k, b1, sel'.buf);
      } else {
        RejectedSkips(s, sel.buf, b1, sel'.buf, tx);
        SkippedAccepted(s, miner, Txs(sel.taken), sel.buf, sel'.buf, L, k);
      }
    }
  }

  /** A turn that picks nothing. */
  lemma SkippedAccepted(s: State, miner: Address, txs: seq<Transaction>, buf: Traders, buf': Traders,
                        L: seq<SignedTransaction>, k: int)
    requires 0 <= k < |L| && Ordered(L) && Accepted(s, miner, txs, buf, L, k + 1)
    requires forall a: Address :: a != L[k].Caller() ==> View(s, buf', a) == View(s, buf, a)
    requires var a := L[k].Caller();
             View(s, buf', a) == View(s, buf, a)
             || (View(s, buf', a).Some? && View(s, buf', a).value.nextNonce <= L[k].Nonce())
    ensures Accepted(s, miner, txs, buf', L, k)
  {
    hide Wrap, View, Ordered, Total, FrozenConsistent, HeldAgrees, Faithful, ExecutedAll, EnoughHeld, OneNotary;
    if EnoughHeld(s, txs) {
      FaithfulSkip(s, ExecutedAll(s, miner, txs).value, txs, buf, buf', L, k);
    }
  }

  lemma LookupKeepsViews(s: State, buf: Traders, a: Address)
    ensures var (info, b1) := TraderInfo(s, buf, a, None);
            info == View(s, buf, a) && forall b: Address :: View(s, b1, b) == View(s, buf, b)
  {
    hide Wrap;
  }

  lemma PromisedCaller(s: State, buf: Traders, buf': Traders, tx: Transaction)
    requires Promised(s, buf, buf', tx)
    ensures View(s, buf, tx.from).Some?
  {
  }

  lemma RejectedSkips(s: State, buf: Traders, b1: Traders, buf': Traders, tx: Transaction)
    requires forall a: Address :: View(s, b1, a) == View(s, buf, a)
    requires OthersKept(s, b1, buf', tx) && Rejected(s, b1, buf', tx)
    requires View(s, buf, tx.from).Some? ==> View(s, buf, tx.from).value.nextNonce <= tx.nonce
    ensures forall a: Address :: a != tx.from ==> View(s, buf', a) == View(s, buf, a)
    ensures View(s, buf', tx.from) == View(s, buf, tx.from)
         || (View(s, buf', tx.from).Some? && View(s, buf', tx.from).value.nextNonce <= tx.nonce)
  {
    hide Wrap, View;
  }

  /** A turn that picks a transaction. */
  lemma TakenAccepted(s: State, miner: Address, txs: seq<Transaction>, buf: Traders, L: seq<SignedTransaction>, k: int,
                      b1: Traders, buf': Traders)
    requires 0 <= k < |L| && Ordered(L) && Total(s) < Supply && Accepted(s, miner, txs, buf, L, k + 1)
    requires forall a: Address :: View(s, b1, a) == View(s, buf, a)
    requires var tx := L[k].tx;
             && OthersSeen(s, b1, buf', tx) && Promised(s, b1, buf', tx) && Simulable(tx)
             && View(s, b1, tx.from).Some? && View(s, b1, tx.from).value.nextNonce == tx.nonce
    requires Regular(txs + [L[k].tx])
    ensures Accepted(s, miner, txs + [L[k].tx], buf', L, k)
  {
    hide Wrap, View, Ordered, Agrees, OthersSeen, Promised, EnoughHeld, OneNotary, ExecutedAll, Executed, Simulable;
    var tx := L[k].tx;
    RegularFront(txs, tx);
    RegularPlain(txs + [tx]);
    EnoughHeldStep(s, txs, tx);
    ExecutedLast(s, miner, txs, tx);
    if OneNotary(txs + [tx]) {
      OneNotaryFront(txs, tx);
    }
    if EnoughHeld(s, txs) {
      TakenAgrees(s, ExecutedAll(s, miner, txs).value, miner, txs, buf, L, k, b1, buf');
    }
  }

  lemma ExecutedLast(s: State, miner: Address, txs: seq<Transaction>, tx: Transaction)
    requires AllPlain(txs + [tx])
    ensures AllPlain(txs) && Plain(tx)
    ensures ExecutedAll(s, miner, txs + [tx]) ==
              if ExecutedAll(s, miner, txs).None? then None else Executed(ExecutedAll(s, miner, txs).value, miner, tx)
  {
    hide Wrap, Executed;
    var all := txs + [tx];
    assert all[..|txs|] == txs && all[|txs|] == tx;
    assert forall i :: 0 <= i < |txs| ==> all[i] == txs[i];
  }

  lemma TakenAgrees(s: State, st: State, miner: Address, txs: seq<Transaction>, buf: Traders,
                    L: seq<SignedTransaction>, k: int, b1: Traders, buf': Traders)
    requires 0 <= k < |L| && Ordered(L) && Total(s) < Supply && Agrees(s, st, txs, buf, L, k + 1)
    requires forall a: Address :: View(s, b1, a) == View(s, buf, a)
    requires var tx := L[k].tx;
             && OthersSeen(s, b1, buf', tx) && Promised(s, b1, buf', tx)
             && View(s, b1, tx.from).Some? && View(s, b1, tx.from).value.nextNonce == tx.nonce
             && Simulable(tx) && tx.GasCap() <= MaxGas
    ensures var tx := L[k].tx; var p := Hold(tx.from, tx.to);
            && (OneNotary(txs + [tx]) ==> tx.kind == Unlock ==> tx.amount <= HeldAfter(s, txs, p))
            && (Executed(st, miner, tx).Some? <==> (tx.kind == Unlock ==> tx.amount <= HeldAfter(s, txs, p)))
            && (Executed(st, miner, tx).Some? ==> Agrees(s, Executed(st, miner, tx).value, txs + [tx], buf', L, k))
  {
    hide Wrap, View, Ordered, Total, FrozenConsistent, OthersSeen, Effects, Fits, OneNotary, Executed, Faithful;
    hide HeldAgrees, HeldAfter, Affordable;
    var tx := L[k].tx;
    var t := View(s, b1, tx.from).value;
    SameFaithful(s, st, txs, buf, b1, L, k + 1);
    NotFinished(s, st, txs, b1, L, k);
    HeldNow(s, st, txs, Hold(tx.from, tx.to));
    if OneNotary(txs + [tx]) {
      OneNotaryHolds(s, st, txs, tx, t);
    }
    if tx.kind == Unlock && Executed(st, miner, tx).Some? {
      UnlockNeedsHeld(st, miner, tx);
    }
    if tx.kind == Unlock ==> tx.amount <= HeldAfter(s, txs, Hold(tx.from, tx.to)) {
      CallerPayable(s, st, txs, tx, t);
      FitsNonce(s, st, txs, t, tx.from);
      ExecutesWell(st, miner, tx);
      var st' := Executed(st, miner, tx).value;
      HeldAgreesStep(s, st, st', txs, tx);
      FaithfulTake(s, st, st', txs, b1, buf', L, k);
    }
  }

  lemma HeldNow(s: State, st: State, txs: seq<Transaction>, p: Hold)
    requires HeldAgrees(s, st, txs)
    ensures At(st.frozenFor, p) == HeldAfter(s, txs, p)
  {
    hide HeldAfter;
  }

  /** An unlock beyond what is frozen for its notary fails. */
  lemma UnlockNeedsHeld(st: State, miner: Address, tx: Transaction)
    requires Plain(tx) && tx.kind == Unlock && Executed(st, miner, tx).Some?
    ensures tx.amount <= At(st.frozenFor, Hold(tx.from, tx.to))
  {
    hide Wrap;
  }

  lemma FitsNonce(s: State, st: State, txs: seq<Transaction>, t: Trader, a: Address)
    requires Fits(s, st, txs, t, a)
    ensures st.Nonce(a) == t.nextNonce
  {
  }

  lemma SameFaithful(s: State, st: State, txs: seq<Transaction>, buf: Traders, buf': Traders,
                     L: seq<SignedTransaction>, k: int)
    requires k <= |L| && Faithful(s, st, txs, buf, L, k)
    requires forall a: Address :: View(s, buf', a) == View(s, buf, a)
    ensures Faithful(s, st, txs, buf', L, k)
  {
    hide Wrap, View, Fits, Finished;
    forall a: Address ensures FitsOrFinished(s, st, txs, buf', L, k, a) {
      assert FitsOrFinished(s, st, txs, buf, L, k, a);
    }
  }

  lemma NotFinished(s: State, st: State, txs: seq<Transaction>, buf: Traders, L: seq<SignedTransaction>, k: int)
    requires 0 <= k < |L| && Faithful(s, st, txs, buf, L, k + 1)
    requires View(s, buf, L[k].Caller()).Some? && View(s, buf, L[k].Caller()).value.nextNonce == L[k].Nonce()
    ensures Fits(s, st, txs, View(s, buf, L[k].Caller()).value, L[k].Caller())
  {
    hide Wrap, View, Fits;
    assert FitsOrFinished(s, st, txs, buf, L, k + 1, L[k].Caller());
  }

  lemma AcceptedAtStart(s: State, miner: Address, L: seq<SignedTransaction>)
    requires FrozenConsistent(s)
    ensures Accepted(s, miner, Txs([]), map[], L, |L|)
  {
    hide Wrap, Total, FrozenConsistent, Faithful, OneNotary;
    FaithfulAtStart(s, L);
    assert Txs([]) == [];
    assert HeldAgrees(s, s, []);
  }

  lemma {:induction false} SelectedAccepted(s: State, miner: Address, L: seq<SignedTransaction>, i: int)
    requires 0 <= i <= |L| && Ordered(L) && Total(s) < Supply && FrozenConsistent(s)
    requires Regular(Txs(Selected(s, L, i).taken))
    ensures Accepted(s, miner, Txs(Selected(s, L, i).taken), Selected(s, L, i).buf, L, |L| - i)
    decreases i
  {
    hide Wrap, Ordered, Total, FrozenConsistent, Regular, Considered, Selected, Accepted, Txs;
    if i == 0 {
      SelectedStart(s, L);
      AcceptedAtStart(s, miner, L);
    } else {
      var sel := Selected(s, L, i - 1);
      SelectedStep(s, L, i - 1);
      ConsideredFront(s, sel, L[|L| - i], |L| - i);
      SelectedAccepted(s, miner, L, i - 1);
      if |sel.taken| >= PendingLimit {
        AcceptedLater(s, miner, Txs(sel.taken), sel.buf, L, |L| - i + 1, |L| - i);
      } else {
        ConsideredAccepted(s, miner, sel, L, |L| - i);
      }
    }
  }

  lemma AcceptedLater(s: State, miner: Address, txs: seq<Transaction>, buf: Traders, L: seq<SignedTransaction>, k: int, k': int)
    requires k' <= k <= |L| && Accepted(s, miner, txs, buf, L, k)
    ensures Accepted(s, miner, txs, buf, L, k')
  {
    hide Wrap, View, Fits, Total, FrozenConsistent, ExecutedAll, HeldAgrees, EnoughHeld, OneNotary;
    if EnoughHeld(s, txs) {
      var st := ExecutedAll(s, miner, txs).value;
      forall a: Address ensures FitsOrFinished(s, st, txs, buf, L, k', a) {
        assert FitsOrFinished(s, st, txs, buf, L, k, a);
      }
    }
  }

  lemma ConsideredFront(s: State, sel: Selection, st: SignedTransaction, idx: int)
    ensures var T := Considered(s, sel, st, idx).taken;
            (T == sel.taken || T == sel.taken + [st]) && (Regular(Txs(T)) ==> Regular(Txs(sel.taken)))
  {
    hide Wrap, Simulated, TraderInfo, Regular;
    var T := Considered(s, sel, st, idx).taken;
    if T == sel.taken + [st] {
      assert Txs(T) == Txs(sel.taken) + [st.tx];
      if Regular(Txs(T)) {
        RegularFront(Txs(sel.taken), st.tx);
      }
    }
  }

  /** The main result: what Pending picks from an ordered queue executes in that order, for any miner, if and only if
      every unlock finds its amount frozen for its notary at its turn. Then no money is created, and each caller's
      nonces are consecutive from its nonce on the chain. */
  lemma PickedExecutes(s: State, miner: Address, L: seq<SignedTransaction>, a: Address)
    requires Ordered(L) && Total(s) < Supply && FrozenConsistent(s)
    requires Regular(Txs(Selected(s, L, |L|).taken))
    ensures var txs := Txs(Selected(s, L, |L|).taken);
            && AllPlain(txs) && (ExecutedAll(s, miner, txs).Some? <==> EnoughHeld(s, txs))
            && (EnoughHeld(s, txs) ==> Total(ExecutedAll(s, miner, txs).value) == Total(s))
            && (EnoughHeld(s, txs) && s.Nonce(a) + PendingLimit <= MaxUint64 ==>
                  forall i :: 0 <= i < |txs| && txs[i].from == a ==> txs[i].nonce == s.Nonce(a) + CallsOf(txs[..i], a))
  {
    hide Wrap, Ordered, Total, FrozenConsistent, Selected, HeldAgrees, Faithful, EnoughHeld, OneNotary, ExecutedAll;
    SelectedAccepted(s, miner, L, |L|);
    var txs := Txs(Selected(s, L, |L|).taken);
    if EnoughHeld(s, txs) && s.Nonce(a) + PendingLimit <= MaxUint64 {
      NoncesConsecutive(s, miner, txs, a);
    }
  }

  /** While no caller unlocks from two different notaries, the picked list always executes. */
  lemma OneNotaryExecutes(s: State, miner: Address, L: seq<SignedTransaction>)
    requires Ordered(L) && Total(s) < Supply && FrozenConsistent(s)
    requires Regular(Txs(Selected(s, L, |L|).taken)) && OneNotary(Txs(Selected(s, L, |L|).taken))
    ensures var txs := Txs(Selected(s, L, |L|).taken);
            EnoughHeld(s, txs) && AllPlain(txs) && ExecutedAll(s, miner, txs).Some?
  {
    hide Wrap, Ordered, Total, FrozenConsistent, Selected, Agrees, EnoughHeld, OneNotary, ExecutedAll;
    SelectedAccepted(s, miner, L, |L|);
  }

  /** Only queued transactions are picked. */
  lemma {:induction false} TakenFromQueue(s: State, L: seq<SignedTransaction>, i: int)
    requires 0 <= i <= |L|
    ensures forall st :: st in Selected(s, L, i).taken ==> st in L
    decreases i
  {
    hide Wrap, Considered, Selected;
    if i == 0 {
      SelectedStart(s, L);
    } else {
      SelectedStep(s, L, i - 1);
      TakenFromQueue(s, L, i - 1);
      ConsideredFront(s, Selected(s, L, i - 1), L[|L| - i], |L| - i);
    }
  }

  /** Transfers and locks, as Add lets them into the queue. */
  predicate TransferOrLock(st: SignedTransaction) {
    (st.tx.kind == Transfer || st.tx.kind == Lock) && MinGas <= st.GasCap() <= MaxGas
  }

  /** For a queue of transfers and locks nothing else has to be known: the picked list always executes. */
  lemma TransfersAndLocksExecute(s: State, miner: Address, L: seq<SignedTransaction>, a: Address)
    requires Ordered(L) && Total(s) < Supply && FrozenConsistent(s) && s.Nonce(a) + PendingLimit <= MaxUint64
    requires forall i :: 0 <= i < |L| ==> TransferOrLock(L[i])
    ensures var txs := Txs(Selected(s, L, |L|).taken);
            && AllPlain(txs) && ExecutedAll(s, miner, txs).Some? && Total(ExecutedAll(s, miner, txs).value) == Total(s)
            && forall i :: 0 <= i < |txs| && txs[i].from == a ==> txs[i].nonce == s.Nonce(a) + CallsOf(txs[..i], a)
  {
    hide Ordered, Total, FrozenConsistent, Selected, ExecutedAll, CallsOf, Wrap;
    var T := Selected(s, L, |L|).taken;
    TakenFromQueue(s, L, |L|);
    forall i | 0 <= i < |T| ensures TransferOrLock(T[i]) {
      assert T[i] in L;
    }
    PickedExecutes(s, miner, L, a);
  }

  /** The state of the counterexample: a has ten frozen, all for n1. */
  function TenHeld(a: Address, n1: Address): State {
    State(map[a := 5_000_000], map[], map[a := 10], map[Hold(a, n1) := 10])
  }

  function UnlockFive(a: Address, n: Address, nonce: U64): Transaction {
    Transaction(1, Unlock, a, n, 5, nonce, 2_100_000, 0, 1, [])
  }

  lemma FirstUnlockTaken(a: Address, n1: Address)
    ensures UnlockSimulated(TenHeld(a, n1), map[a := Trader(4_999_990, 10, 1, 0, false)], UnlockFive(a, n1, 1)) ==
              (true, map[a := Trader(2_899_995, 5, 2, 5, true)])
  {
    var buf := map[a := Trader(4_999_990, 10, 1, 0, false)];
    var s, tx := TenHeld(a, n1), UnlockFive(a, n1, 1);
    assert tx.GasCap() == 2_100_000 && At(s.frozenFor, Hold(a, n1)) == 10;
    var seen := Trader(4_999_990, 10, 1, 10, true);
    assert TraderInfo(s, buf, a, Some(n1)) == (Some(seen), buf[a := seen]);
    assert buf[a := seen][a := Trader(2_899_995, 5, 2, 5, true)] == map[a := Trader(2_899_995, 5, 2, 5, true)];
  }

  /** The entry remembers n1's amount, so the unlock from n2 is picked as well. */
  lemma SecondUnlockTaken(a: Address, n1: Address, n2: Address)
    ensures UnlockSimulated(TenHeld(a, n1), map[a := Trader(2_899_995, 5, 2, 5, true)], UnlockFive(a, n2, 2)).0
  {
    var buf := map[a := Trader(2_899_995, 5, 2, 5, true)];
    assert UnlockFive(a, n2, 2).GasCap() == 2_100_000;
    assert TraderInfo(TenHeld(a, n1), buf, a, Some(n2)).0 == Some(Trader(2_899_995, 5, 2, 5, true));
  }

  lemma BothTaken(a: Address, n1: Address, n2: Address)
    ensures var tx1, tx2 := UnlockFive(a, n1, 1), UnlockFive(a, n2, 2);
            var L := [SignedTransaction(tx2, []), SignedTransaction(tx1, [])];
            Ordered(L) && Txs(Selected(TenHeld(a, n1), L, |L|).taken) == [tx1, tx2]
  {
    var s := TenHeld(a, n1);
    var L := [SignedTransaction(UnlockFive(a, n2, 2), []), SignedTransaction(UnlockFive(a, n1, 1), [])];
    FirstUnlockTaken(a, n1);
    SecondUnlockTaken(a, n1, n2);
    hide UnlockSimulated;
    SelectedStart(s, L);
    SelectedStep(s, L, 0);
    SelectedStep(s, L, 1);
    assert s.Available(a) == Some(4_999_990) && s.Nonce(a) == 1;
    var b0 := map[a := Trader(4_999_990, 10, 1, 0, false)];
    assert TraderInfo(s, map[], a, None) == (Some(b0[a]), b0);
    var b1 := map[a := Trader(2_899_995, 5, 2, 5, true)];
    assert TraderInfo(s, b1, a, None) == (Some(b1[a]), b1) by { assert b1[a := b1[a]] == b1; }
    hide Selected, TraderInfo;
    assert Selected(s, L, 1) == Selection(b1, [L[1]], []);
    assert Selected(s, L, 2).taken == [L[1], L[0]];
  }

  lemma TenHeldConsistent(a: Address, n1: Address)
    ensures FrozenConsistent(TenHeld(a, n1)) && Total(TenHeld(a, n1)) == 5_000_000
  {
    var s := TenHeld(a, n1);
    var none: Book<Address> := map[];
    var noHold: Book<Hold> := map[];
    SumUpdate(none, a, 5_000_000);
    SumUpdate(noHold, Hold(a, n1), 10);
    assert none[a := 5_000_000] == s.balance && noHold[Hold(a, n1) := 10] == s.frozenFor;
    hide Sum;
    forall x: Address ensures s.Frozen(x) == Sum(HoldsOf(s.frozenFor, x)) {
      assert HoldsOf(s.frozenFor, x) == if x == a then noHold[Hold(a, n1) := 10] else noHold;
    }
  }

  /** Two unlocks of five from different notaries, of whom only the first holds anything, are both picked, and
      the picked list fails on the chain. */
  lemma TwoNotariesFail(a: Address, n1: Address, n2: Address, miner: Address)
    requires n1 != n2
    ensures var tx1, tx2 := UnlockFive(a, n1, 1), UnlockFive(a, n2, 2);
            var L := [SignedTransaction(tx2, []), SignedTransaction(tx1, [])];
            && Ordered(L) && Txs(Selected(TenHeld(a, n1), L, |L|).taken) == [tx1, tx2]
            && AllPlain([tx1, tx2]) && ExecutedAll(TenHeld(a, n1), miner, [tx1, tx2]).None?
  {
    var s := TenHeld(a, n1);
    var tx1, tx2 := UnlockFive(a, n1, 1), UnlockFive(a, n2, 2);
    BothTaken(a, n1, n2);
    TenHeldConsistent(a, n1);
    assert tx1.GasCap() == 2_100_000 && tx2.GasCap() == 2_100_000;
    hide Ordered, Total, FrozenConsistent, Selected, ExecutedAll;
    PickedExecutes(s, miner, [SignedTransaction(tx2, []), SignedTransaction(tx1, [])], a);
    NothingHeld(s, tx1, tx2);
  }

  lemma NothingHeld(s: State, tx1: Transaction, tx2: Transaction)
    requires tx2.kind == Unlock && tx2.amount > 0 && Hold(tx2.from, tx2.to) != Hold(tx1.from, tx1.to)
    requires At(s.frozenFor, Hold(tx2.from, tx2.to)) == 0
    ensures !EnoughHeld(s, [tx1, tx2])
  {
    hide Wrap;
    assert [tx1, tx2][..1] == [tx1] && [tx1][..0] == [];
    assert HeldAfter(s, [tx1], Hold(tx2.from, tx2.to)) == 0;
  }
}
