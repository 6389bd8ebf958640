/** Exactly when a transaction or a block executes, in terms of the numbers of the accounts. */
module Execution {
  import opened Options
  import opened Transactions
  import opened Ledger

  lemma MoveExactly(s: State, kind: TransactionType, from: Address, to: Address, amount: U64, gas: U64)
    requires Settled(kind) && !GasOnly(kind, from, to) && s.Balance(to) + gas <= MaxUint64
    ensures Transferred(s, kind, from, to, amount, gas).Some? <==>
              s.Frozen(from) + amount + gas <= s.Balance(from) && s.Balance(to) + amount + gas <= MaxUint64
  {
    hide Wrap;
    WrapSum(amount, gas);
    WrapExact(MaxUint64 - s.Balance(to) - gas);
  }

  lemma WrapSum(x: U64, y: U64)
    ensures Wrap(x + y) == if x + y >= TwoTo64 then x + y - TwoTo64 else x + y
  {
  }

  /** A transfer to oneself, whose cost is checked modulo 2^64. */
  lemma SelfExactly(s: State, kind: TransactionType, from: Address, amount: U64, gas: U64)
    requires Settled(kind) && kind != Pledge && s.Balance(from) + gas <= MaxUint64
    ensures Transferred(s, kind, from, from, amount, gas).Some? <==>
              s.Frozen(from) + Wrap(amount + gas) <= s.Balance(from) && gas <= s.Balance(from)
  {
    hide Wrap;
  }

  lemma PledgeExactly(s: State, from: Address, to: Address, amount: U64, gas: U64)
    requires s.Balance(from) + gas <= MaxUint64
    ensures Transferred(s, Pledge, from, to, amount, gas).Some? <==> gas <= s.Balance(from)
  {
    hide Wrap;
  }

  /** The sender's balance when the amount is looked at: a sender that is also the miner has its fee already. */
  function Held(s: State, miner: Address, tx: Transaction): int {
    s.Balance(tx.from) + if miner == tx.from then tx.GasCap() else 0
  }

  /** What the source demands of a transaction, in numbers. */
  predicate Executable(s: State, miner: Address, tx: Transaction) {
    var held, frozen, gas := Held(s, miner, tx), s.Frozen(tx.from), tx.GasCap();
    if tx.kind == CoinBase then
      && s.Balance(miner) + gas <= MaxUint64
      && s.Balance(tx.to) + (if tx.to == miner then gas else 0) + tx.amount <= MaxUint64
    else
      && s.Nonce(tx.from) == tx.nonce
      && if tx.kind == Lock then frozen <= held && frozen + tx.amount <= held + gas
         else if tx.kind == Unlock then frozen + gas <= held && tx.amount <= At(s.frozenFor, Hold(tx.from, tx.to))
         else if tx.kind == Pledge then gas <= held
         else if tx.from == tx.to then frozen + Wrap(tx.amount + gas) <= held && gas <= held
         else frozen + tx.amount + gas <= held
  }

  lemma CreditedExactly(s: State, to: Address, amount: U64)
    ensures Credited(s, to, amount).Some? <==> s.Balance(to) + amount <= MaxUint64
  {
  }

  lemma NonceExactly(s: State, a: Address, n: U64)
    ensures NonceSet(s, a, Wrap(n + 1)).Some? <==> s.Nonce(a) == n
  {
    WrapNext(s.Nonce(a), n);
  }

  /** With a small supply and a checked gas, a transaction executes exactly when it is executable. */
  lemma ExecutedExactly(s: State, miner: Address, tx: Transaction)
    requires Plain(tx) && GasChecked(tx) && Total(s) < Supply && FrozenConsistent(s)
    ensures Executed(s, miner, tx).Some? <==> Executable(s, miner, tx)
  {
    hide Wrap, Total, FrozenConsistent, NonceSet, Credited, FreezeSet, Transferred;
    var gas := tx.GasCap();
    CreditedExactly(s, miner, gas);
    if tx.kind == CoinBase {
      if s.Balance(miner) + gas <= MaxUint64 {
        CreditedFrozen(s, miner, gas);
        CreditedExactly(Credited(s, miner, gas).value, tx.to, tx.amount);
      }
    } else {
      NonceExactly(s, tx.from, tx.nonce);
      if s.Nonce(tx.from) == tx.nonce {
        var s1 := NonceSet(s, tx.from, Wrap(tx.nonce + 1)).value;
        NonceSame(s, tx.from, Wrap(tx.nonce + 1));
        SmallBalance(s, miner);
        CreditedExactly(s1, miner, gas);
        CreditedFrozen(s1, miner, gas);
        AmountExactly(s, Credited(s1, miner, gas).value, miner, tx);
      }
    }
  }

  lemma NonceSame(s: State, a: Address, n: U64)
    requires NonceSet(s, a, n).Some?
    ensures var s' := NonceSet(s, a, n).value;
            s'.balance == s.balance && s'.frozen == s.frozen && s'.frozenFor == s.frozenFor
  {
  }

  lemma SmallBalance(s: State, a: Address)
    requires Total(s) < Supply
    ensures s.Balance(a) < Supply
  {
    AtMostSum(s.balance, a);
  }

  lemma SmallPair(s: State, a: Address, b: Address)
    requires Total(s) < Supply && a != b
    ensures s.Balance(a) + s.Balance(b) < Supply
  {
    if a in s.balance {
      SumRemove(s.balance, a);
      AtMostSum(s.balance - {a}, b);
    } else {
      AtMostSum(s.balance, b);
    }
  }

  /** The step after nonce and fee. */
  lemma AmountExactly(s: State, s2: State, miner: Address, tx: Transaction)
    requires Plain(tx) && tx.kind != CoinBase && GasChecked(tx) && Total(s) < Supply && FrozenConsistent(s)
    requires s.Nonce(tx.from) == tx.nonce && FeePaid(s, s2, miner, tx)
    ensures (if tx.kind == Lock || tx.kind == Unlock
             then FreezeSet(s2, Hold(tx.from, tx.to), tx.amount, tx.GasCap(), tx.kind == Lock)
             else Transferred(s2, tx.kind, tx.from, tx.to, tx.amount, tx.GasCap())).Some?
            <==> Executable(s, miner, tx)
  {
    hide Wrap, Total, FrozenConsistent, FreezeSet, Transferred, State.Balance, State.Frozen, State.Nonce;
    var p, gas := Hold(tx.from, tx.to), tx.GasCap();
    SmallBalance(s, tx.from);
    SmallBalance(s, tx.to);
    HoldAtMost(s, p);
    SameHolds(s, s2);
    if tx.kind == Lock {
      LockExactly(s2, p, tx.amount, gas);
    } else if tx.kind == Unlock {
      UnlockExactly(s2, p, tx.amount, gas);
    } else if tx.kind == Pledge {
      PledgeExactly(s2, tx.from, tx.to, tx.amount, gas);
    } else if tx.from == tx.to {
      SelfExactly(s2, tx.kind, tx.from, tx.amount, gas);
    } else {
      SmallPair(s, tx.from, tx.to);
      MoveExactly(s2, tx.kind, tx.from, tx.to, tx.amount, gas);
    }
  }

  lemma SameHolds(s: State, s2: State)
    requires s2.frozen == s.frozen && s2.frozenFor == s.frozenFor
    ensures forall a: Address :: s2.Frozen(a) == s.Frozen(a)
    ensures forall p: Hold :: At(s2.frozenFor, p) == At(s.frozenFor, p)
  {
  }

  // ----- what an executed transaction leaves -----

  /** What a transaction adds to an account's balance, apart from the miner's fee. */
  function Gain(tx: Transaction, a: Address): int {
    var gas := tx.GasCap();
    if tx.kind == CoinBase then if a == tx.to then tx.amount else 0
    else if tx.kind == Lock || tx.kind == Unlock || GasOnly(tx.kind, tx.from, tx.to) then
      if a == tx.from then 0 - gas else 0
    else (if a == tx.from then 0 - tx.amount - gas else 0) + (if a == tx.to then tx.amount else 0)
  }

  function FrozenGain(tx: Transaction): int {
    if tx.kind == Lock then tx.amount else if tx.kind == Unlock then 0 - tx.amount else 0
  }

  /** The accounts after the transaction, in numbers. */
  ghost predicate BalancesMoved(s: State, s': State, miner: Address, tx: Transaction) {
    forall a: Address :: s'.Balance(a) == s.Balance(a) + (if a == miner then tx.GasCap() else 0) + Gain(tx, a)
  }

  ghost predicate FrozenMoved(s: State, s': State, tx: Transaction) {
    && (forall a: Address :: s'.Frozen(a) == s.Frozen(a) + if a == tx.from then FrozenGain(tx) else 0)
    && (forall p: Hold :: At(s'.frozenFor, p) ==
                            At(s.frozenFor, p) + if p == Hold(tx.from, tx.to) then FrozenGain(tx) else 0)
  }

  ghost predicate NoncesMoved(s: State, s': State, tx: Transaction) {
    forall a: Address :: s'.Nonce(a) ==
      if tx.kind == CoinBase || a != tx.from then s.Nonce(a) else if tx.nonce == MaxUint64 then 1 else tx.nonce + 1
  }

  /** With a small supply, a checked gas and no unpaid lock, an executed transaction moves exactly these numbers. */
  lemma ExecutedBooks(s: State, miner: Address, tx: Transaction)
    requires Plain(tx) && GasChecked(tx) && Total(s) < Supply && FrozenConsistent(s)
    requires Executed(s, miner, tx).Some? && !Unpaid(s, miner, tx)
    ensures var s' := Executed(s, miner, tx).value;
            BalancesMoved(s, s', miner, tx) && FrozenMoved(s, s', tx) && NoncesMoved(s, s', tx)
  {
    hide Wrap, Total, FrozenConsistent, NonceSet, Credited, FreezeSet, Transferred, Unpaid, GasChecked;
    hide BalancesMoved, FrozenMoved, NoncesMoved;
    var gas := tx.GasCap();
    if tx.kind == CoinBase {
      CreditedFrozen(s, miner, gas);
      CreditedFrozen(Credited(s, miner, gas).value, tx.to, tx.amount);
      CoinBaseBooks(s, Executed(s, miner, tx).value, miner, tx);
    } else {
      var s1 := NonceSet(s, tx.from, Wrap(tx.nonce + 1)).value;
      NonceSame(s, tx.from, Wrap(tx.nonce + 1));
      CreditedFrozen(s1, miner, gas);
      var s2 := Credited(s1, miner, gas).value;
      FeeIsPaid(s, s1, s2, miner, tx);
      if tx.kind == Lock || tx.kind == Unlock {
        FreezeBalances(s, s2, miner, tx);
        FreezeHolds(s, s2, miner, tx);
        FreezeSetNonce(s2, Hold(tx.from, tx.to), tx.amount, gas, tx.kind == Lock);
      } else {
        TransferBalances(s, s2, miner, tx);
        TransferHolds(s, s2, miner, tx);
      }
      NoncesFrom(s, s1, Executed(s, miner, tx).value, tx);
    }
  }

  lemma FeeIsPaid(s: State, s1: State, s2: State, miner: Address, tx: Transaction)
    requires s1.balance == s.balance && s2.frozen == s.frozen && s2.frozenFor == s.frozenFor
    requires forall a: Address :: s2.Balance(a) == s1.Balance(a) + if a == miner then tx.GasCap() else 0
    ensures FeePaid(s, s2, miner, tx)
  {
    hide Wrap;
  }

  lemma SameNonces(s: State, s': State)
    requires s'.nonce == s.nonce
    ensures forall a: Address :: s'.Nonce(a) == s.Nonce(a)
  {
  }

  lemma CoinBaseBooks(s: State, s': State, miner: Address, tx: Transaction)
    requires tx.kind == CoinBase && s'.frozen == s.frozen && s'.frozenFor == s.frozenFor && s'.nonce == s.nonce
    requires forall a: Address :: s'.Balance(a) ==
               s.Balance(a) + (if a == miner then tx.GasCap() else 0) + (if a == tx.to then tx.amount else 0)
    ensures BalancesMoved(s, s', miner, tx) && FrozenMoved(s, s', tx) && NoncesMoved(s, s', tx)
  {
    hide Wrap;
    SameHolds(s, s');
    SameNonces(s, s');
    assert FrozenGain(tx) == 0;
    hide FrozenGain;
    forall a: Address ensures s'.Balance(a) == s.Balance(a) + (if a == miner then tx.GasCap() else 0) + Gain(tx, a) {
    }
    assert BalancesMoved(s, s', miner, tx);
    assert FrozenMoved(s, s', tx);
    assert NoncesMoved(s, s', tx);
  }

  lemma NoncesFrom(s: State, s1: State, s': State, tx: Transaction)
    requires tx.kind != CoinBase && NonceSet(s, tx.from, Wrap(tx.nonce + 1)) == Some(s1) && s'.nonce == s1.nonce
    ensures NoncesMoved(s, s', tx)
  {
  }

  lemma FreezeBalances(s: State, s2: State, miner: Address, tx: Transaction)
    requires (tx.kind == Lock || tx.kind == Unlock) && FeePaid(s, s2, miner, tx) && !Unpaid(s, miner, tx)
    requires FreezeSet(s2, Hold(tx.from, tx.to), tx.amount, tx.GasCap(), tx.kind == Lock).Some?
    ensures var s' := FreezeSet(s2, Hold(tx.from, tx.to), tx.amount, tx.GasCap(), tx.kind == Lock).value;
            BalancesMoved(s, s', miner, tx)
  {
    hide Wrap, FreezeSet, Unpaid;
    var p, gas := Hold(tx.from, tx.to), tx.GasCap();
    FreezeSetBalance(s2, p, tx.amount, gas, tx.kind == Lock);
    FreezeSetOthers(s2, p, tx.amount, gas, tx.kind == Lock);
    if tx.kind == Lock {
      PaidLock(s, s2, miner, tx);
    } else {
      FreezeSetGuard(s2, p, tx.amount, gas, false);
    }
  }

  lemma FreezeHolds(s: State, s2: State, miner: Address, tx: Transaction)
    requires (tx.kind == Lock || tx.kind == Unlock) && FeePaid(s, s2, miner, tx) && FrozenConsistent(s)
    requires FreezeSet(s2, Hold(tx.from, tx.to), tx.amount, tx.GasCap(), tx.kind == Lock).Some?
    ensures FrozenMoved(s, FreezeSet(s2, Hold(tx.from, tx.to), tx.amount, tx.GasCap(), tx.kind == Lock).value, tx)
  {
    hide Wrap, FrozenConsistent, FreezeSet;
    var p, gas := Hold(tx.from, tx.to), tx.GasCap();
    HoldAtMost(s, p);
    SameHolds(s, s2);
    FreezeSetExact(s2, p, tx.amount, gas, tx.kind == Lock);
    FreezeSetOthers(s2, p, tx.amount, gas, tx.kind == Lock);
  }

  lemma FreezeSetNonce(s: State, p: Hold, amount: U64, gas: U64, lock: bool)
    requires FreezeSet(s, p, amount, gas, lock).Some?
    ensures FreezeSet(s, p, amount, gas, lock).value.nonce == s.nonce
  {
    hide Wrap;
  }

  lemma TransferredOthers(s: State, kind: TransactionType, from: Address, to: Address, amount: U64, gas: U64)
    requires Settled(kind) && Transferred(s, kind, from, to, amount, gas).Some?
    ensures var s' := Transferred(s, kind, from, to, amount, gas).value;
            && s'.frozen == s.frozen && s'.frozenFor == s.frozenFor && s'.nonce == s.nonce
            && (forall a: Address :: a != from && (a != to || GasOnly(kind, from, to)) ==> s'.Balance(a) == s.Balance(a))
            && (GasOnly(kind, from, to) ==> s'.Balance(from) == s.Balance(from) - gas)
  {
    hide Wrap;
  }

  lemma TransferHolds(s: State, s2: State, miner: Address, tx: Transaction)
    requires Plain(tx) && tx.kind != CoinBase && tx.kind != Lock && tx.kind != Unlock && FeePaid(s, s2, miner, tx)
    requires Transferred(s2, tx.kind, tx.from, tx.to, tx.amount, tx.GasCap()).Some?
    ensures var s' := Transferred(s2, tx.kind, tx.from, tx.to, tx.amount, tx.GasCap()).value;
            FrozenMoved(s, s', tx) && s'.nonce == s2.nonce
  {
    hide Wrap, Transferred;
    TransferredOthers(s2, tx.kind, tx.from, tx.to, tx.amount, tx.GasCap());
  }

  lemma TransferBalances(s: State, s2: State, miner: Address, tx: Transaction)
    requires Plain(tx) && tx.kind != CoinBase && tx.kind != Lock && tx.kind != Unlock
    requires Total(s) < Supply && GasChecked(tx) && FeePaid(s, s2, miner, tx)
    requires Transferred(s2, tx.kind, tx.from, tx.to, tx.amount, tx.GasCap()).Some?
    ensures var s' := Transferred(s2, tx.kind, tx.from, tx.to, tx.amount, tx.GasCap()).value;
            BalancesMoved(s, s', miner, tx)
  {
    hide Wrap, Transferred, Total, GasChecked, GasOnly;
    var s' := Transferred(s2, tx.kind, tx.from, tx.to, tx.amount, tx.GasCap()).value;
    TransferredOthers(s2, tx.kind, tx.from, tx.to, tx.amount, tx.GasCap());
    if GasOnly(tx.kind, tx.from, tx.to) {
      assert forall a: Address :: s'.Balance(a) == s2.Balance(a) + Gain(tx, a);
    } else {
      DifferentAccounts(tx);
      ReceiverFits(s, s2, miner, tx);
      TransferredExact(s2, tx.kind, tx.from, tx.to, tx.amount, tx.GasCap());
      assert forall a: Address :: s'.Balance(a) == s2.Balance(a) + Gain(tx, a);
    }
  }

  lemma DifferentAccounts(tx: Transaction)
    ensures !GasOnly(tx.kind, tx.from, tx.to) ==> tx.from != tx.to
  {
  }

  // ----- blocks -----

  lemma {:induction false} PrefixConsistent(s: State, miner: Address, txs: seq<Transaction>)
    requires AllPlain(txs) && FrozenConsistent(s) && ExecutedAll(s, miner, txs).Some?
    ensures FrozenConsistent(ExecutedAll(s, miner, txs).value)
    decreases |txs|
  {
    hide FrozenConsistent, Executed;
    if txs != [] {
      var n := |txs| - 1;
      PrefixConsistent(s, miner, txs[..n]);
      ExecutedConsistent(ExecutedAll(s, miner, txs[..n]).value, miner, txs[n]);
    }
  }

  /** The state that the first i transactions leave, if they execute, is small. */
  ghost predicate SmallAt(s: State, miner: Address, txs: seq<Transaction>, i: nat)
    requires AllPlain(txs) && i < |txs|
  {
    ExecutedAll(s, miner, txs[..i]).Some? ==> Total(ExecutedAll(s, miner, txs[..i]).value) < Supply
  }

  predicate ExecutableAt(s: State, miner: Address, txs: seq<Transaction>, i: nat)
    requires AllPlain(txs) && i < |txs|
  {
    ExecutedAll(s, miner, txs[..i]).Some? && Executable(ExecutedAll(s, miner, txs[..i]).value, miner, txs[i])
  }

  lemma TurnExactly(s: State, miner: Address, txs: seq<Transaction>, i: nat)
    requires AllPlain(txs) && AllGasChecked(txs) && FrozenConsistent(s) && i < |txs| && SmallAt(s, miner, txs, i)
    ensures ExecutedAll(s, miner, txs[..i + 1]).Some? <==> ExecutableAt(s, miner, txs, i)
  {
    hide FrozenConsistent, Executed, Executable, Total, GasChecked;
    assert txs[..i + 1][..i] == txs[..i] && txs[..i + 1][i] == txs[i];
    if ExecutedAll(s, miner, txs[..i]).Some? {
      PrefixConsistent(s, miner, txs[..i]);
      ExecutedExactly(ExecutedAll(s, miner, txs[..i]).value, miner, txs[i]);
    }
  }

  lemma {:induction false} TurnsExecute(s: State, miner: Address, txs: seq<Transaction>, i: nat)
    requires AllPlain(txs) && AllGasChecked(txs) && FrozenConsistent(s) && i <= |txs|
    requires forall j: nat :: j < i ==> SmallAt(s, miner, txs, j) && ExecutableAt(s, miner, txs, j)
    ensures ExecutedAll(s, miner, txs[..i]).Some?
    decreases i
  {
    hide FrozenConsistent, ExecutedAll, SmallAt, ExecutableAt;
    if i == 0 {
      NothingExecuted(s, miner, txs[..0]);
    } else {
      TurnExactly(s, miner, txs, i - 1);
    }
  }

  lemma NothingExecuted(s: State, miner: Address, txs: seq<Transaction>)
    requires txs == []
    ensures AllPlain(txs) && ExecutedAll(s, miner, txs) == Some(s)
  {
  }

  /** While the supply stays small, a block executes exactly when each of its transactions is executable on the
      state that those before it leave; so the first one that is not fails the block. */
  lemma BlockExactly(s: State, miner: Address, txs: seq<Transaction>)
    requires AllPlain(txs) && AllGasChecked(txs) && FrozenConsistent(s)
    requires forall i: nat :: i < |txs| ==> SmallAt(s, miner, txs, i)
    ensures ExecutedAll(s, miner, txs).Some? <==> forall i: nat :: i < |txs| ==> ExecutableAt(s, miner, txs, i)
  {
    hide FrozenConsistent, ExecutedAll, SmallAt, ExecutableAt;
    assert txs[..|txs|] == txs;
    if forall i: nat :: i < |txs| ==> ExecutableAt(s, miner, txs, i) {
      TurnsExecute(s, miner, txs, |txs|);
    }
    if ExecutedAll(s, miner, txs).Some? {
      forall i: nat | i < |txs| ensures ExecutableAt(s, miner, txs, i) {
        ExecutedPrefix(s, miner, txs, i + 1);
        TurnExactly(s, miner, txs, i);
      }
    }
  }
}
