/** Balances, nonces and frozen amounts, and the execution of a block of transactions on them. */
module Ledger {
  import opened Options
  import opened Sets
  import opened Transactions

  const MinGas: int := 2_100_000
  const MaxGas: int := 10_000_000_000_000

  /** An entry that was never written reads as zero. */
  type Book<!K> = map<K, U64>

  function At<K>(m: Book<K>, k: K): U64 {
    if k in m then m[k] else 0
  }

  /** The account whose balance is frozen, and the notary it is frozen for. */
  datatype Hold = Hold(from: Address, notary: Address)

  /** The state database: the source keeps the frozen amounts as balances of derived addresses. */
  datatype State = State(balance: Book<Address>, nonce: Book<Address>, frozen: Book<Address>, frozenFor: Book<Hold>)
  {
    function Balance(a: Address): U64 { At(balance, a) }

    /** A nonce that was never set counts as one. */
    function Nonce(a: Address): U64 { if At(nonce, a) == 0 then 1 else At(nonce, a) }

    function Frozen(a: Address): U64 { At(frozen, a) }

    function Available(a: Address): Option<U64> {
      if Balance(a) < Frozen(a) then None else Some(Balance(a) - Frozen(a))
    }
  }

  // ----- the steps, as functions of the state -----

  function WithBalance(s: State, a: Address, x: U64): State {
    s.(balance := s.balance[a := x])
  }

  function NonceSet(s: State, a: Address, n: U64): Option<State> {
    if Wrap(s.Nonce(a) + 1) != n then None else Some(s.(nonce := s.nonce[a := n]))
  }

  /** setMinerFee and setToAccount both add an amount that must not overflow. */
  function Credited(s: State, to: Address, amount: U64): Option<State> {
    if MaxUint64 - s.Balance(to) < amount then None else Some(WithBalance(s, to, s.Balance(to) + amount))
  }

  /** The kinds that setAccount settles from the transaction alone: the others also need a bound address or an
      amount computed elsewhere. */
  predicate Settled(kind: TransactionType) {
    kind != WithdrawToEth && kind != PledgeBreak
  }

  /** The branch of setAccount that takes nothing but the gas. */
  predicate GasOnly(kind: TransactionType, from: Address, to: Address) {
    from == to || kind == Pledge || kind == EvmContract
  }

  /** The check at the start of setAccount, which pledges skip. */
  predicate CostAvailable(s: State, kind: TransactionType, from: Address, cost: U64) {
    kind == Pledge || (s.Available(from).Some? && s.Available(from).value >= cost)
  }

  function GasPaid(s: State, from: Address, gas: U64): Option<State> {
    if s.Balance(from) < gas || MaxUint64 - s.Balance(from) < gas then None
    else Some(WithBalance(s, from, s.Balance(from) - gas))
  }

  function Moved(s: State, from: Address, to: Address, amount: U64, gas: U64): Option<State> {
    var cost := Wrap(amount + gas);
    if s.Balance(from) < cost || Wrap(MaxUint64 - s.Balance(to) - gas) < amount then None
    else
      var toBalance := Wrap(s.Balance(to) + amount);
      Some(WithBalance(WithBalance(s, from, s.Balance(from) - cost), to, toBalance))
  }

  /** setAccount: the sender pays amount and gas and the receiver gets the amount, or the sender pays the gas. */
  function Transferred(s: State, kind: TransactionType, from: Address, to: Address, amount: U64,
                       gas: U64): Option<State>
    requires Settled(kind)
  {
    if !CostAvailable(s, kind, from, Wrap(amount + gas)) then None
    else if GasOnly(kind, from, to) then GasPaid(s, from, gas)
    else Moved(s, from, to, amount, gas)
  }

  function WithFrozen(s: State, p: Hold, single: U64, all: U64): State {
    s.(frozenFor := s.frozenFor[p := single], frozen := s.frozen[p.from := all])
  }

  /** The checks that setFreezeAccount makes before it writes. */
  predicate FreezeAllowed(s: State, p: Hold, amount: U64, gas: U64, lock: bool) {
    var single, all := At(s.frozenFor, p), s.Frozen(p.from);
    && s.Available(p.from).Some?
    && if lock then
         && amount <= Wrap(s.Available(p.from).value + gas)
         && Wrap(MaxUint64 - single - gas) >= amount
         && Wrap(MaxUint64 - all - gas) >= amount
       else
         gas <= s.Available(p.from).value && single >= amount && all >= amount
  }

  function FrozenChanged(s: State, p: Hold, amount: U64, lock: bool): State {
    var d: int := if lock then amount else 0 - amount;
    WithFrozen(s, p, Wrap(At(s.frozenFor, p) + d), Wrap(s.Frozen(p.from) + d))
  }

  /** setFreezeAccount; the gas is subtracted with wrap-around. */
  function FreezeSet(s: State, p: Hold, amount: U64, gas: U64, lock: bool): Option<State> {
    if !FreezeAllowed(s, p, amount, gas, lock) || MaxUint64 - gas < s.Balance(p.from) then None
    else Some(WithBalance(FrozenChanged(s, p, amount, lock), p.from, Wrap(s.Balance(p.from) - gas)))
  }

  /** The kinds whose execution is modelled. */
  predicate Plain(tx: Transaction) {
    tx.kind != EvmContract && tx.kind != WithdrawToEth && tx.kind != PledgeBreak
  }

  /** Executing one transaction of a block. */
  function Executed(s: State, miner: Address, tx: Transaction): Option<State>
    requires Plain(tx)
  {
    var gas := tx.GasCap();
    if tx.kind == CoinBase then
      var s1 := Credited(s, miner, gas);
      if s1.None? then None else Credited(s1.value, tx.to, tx.amount)
    else
      var s1 := NonceSet(s, tx.from, Wrap(tx.nonce + 1));
      if s1.None? then None else
      var s2 := Credited(s1.value, miner, gas);
      if s2.None? then None
      else if tx.kind == Lock || tx.kind == Unlock then
        FreezeSet(s2.value, Hold(tx.from, tx.to), tx.amount, gas, tx.kind == Lock)
      else Transferred(s2.value, tx.kind, tx.from, tx.to, tx.amount, gas)
  }

  predicate AllPlain(txs: seq<Transaction>) {
    forall i :: 0 <= i < |txs| ==> Plain(txs[i])
  }

  /** Executing the transactions in order; any failure fails the whole block. */
  function ExecutedAll(s: State, miner: Address, txs: seq<Transaction>): Option<State>
    requires AllPlain(txs)
  {
    if txs == [] then Some(s) else
      var n := |txs| - 1;
      var s1 := ExecutedAll(s, miner, txs[..n]);
      if s1.None? then None else Executed(s1.value, miner, txs[n])
  }

  // ----- the state database as the source changes it -----

  class Database {
    var balance: Book<Address>
    var nonce: Book<Address>
    var frozen: Book<Address>
    var frozenFor: Book<Hold>

    ghost function St(): State
      reads this
    {
      State(balance, nonce, frozen, frozenFor)
    }

    method GetBalance(a: Address) returns (r: U64)
      ensures r == St().Balance(a)
    {
      r := if a in balance then balance[a] else 0;
    }

    method GetNonce(a: Address) returns (r: U64)
      ensures r == St().Nonce(a)
    {
      var n := if a in nonce then nonce[a] else 0;
      return if n == 0 then 1 else n;
    }

    method GetAllFreezeBalance(a: Address) returns (r: U64)
      ensures r == St().Frozen(a)
    {
      r := if a in frozen then frozen[a] else 0;
    }

    method GetSingleFreezeBalance(a: Address, notary: Address) returns (r: U64)
      ensures r == At(frozenFor, Hold(a, notary))
    {
      var p := Hold(a, notary);
      r := if p in frozenFor then frozenFor[p] else 0;
    }

    method GetAvailableBalance(a: Address) returns (r: Option<U64>)
      ensures r == St().Available(a)
      ensures r.Some? <==> St().Frozen(a) <= St().Balance(a)
      ensures r.Some? ==> r.value == St().Balance(a) - St().Frozen(a)
    {
      var b: int := GetBalance(a);
      var fee: int := GetAllFreezeBalance(a);
      var available := Wrap(b - fee);
      if b < fee {
        return None;
      }
      assert available == b - fee;
      if MaxUint64 - available < fee {
        assert false;
      }
      return Some(available);
    }

    method SetBalance(a: Address, x: U64)
      modifies this`balance
      ensures St() == WithBalance(old(St()), a, x)
    {
      balance := balance[a := x];
    }

    method SetNonce(a: Address, n: U64) returns (ok: bool)
      modifies this`nonce
      ensures ok == NonceSet(old(St()), a, n).Some?
      ensures St() == if ok then NonceSet(old(St()), a, n).value else old(St())
      ensures ok <==> n == if old(St()).Nonce(a) == MaxUint64 then 0 else old(St()).Nonce(a) + 1
      ensures nonce == if ok then old(nonce)[a := n] else old(nonce)
    {
      var current: int := if a in nonce then nonce[a] else 0;
      if current == 0 {
        current := 1;
      }
      if Wrap(current + 1) != n {
        return false;
      }
      nonce := nonce[a := n];
      return true;
    }

    method SetMinerFee(to: Address, gas: U64) returns (ok: bool)
      modifies this`balance
      ensures ok == Credited(old(St()), to, gas).Some?
      ensures St() == if ok then Credited(old(St()), to, gas).value else old(St())
      ensures ok <==> old(St()).Balance(to) + gas <= MaxUint64
      ensures balance == if ok then old(balance)[to := old(St()).Balance(to) + gas] else old(balance)
    {
      var b := GetBalance(to);
      if MaxUint64 - b < gas {
        return false;
      }
      SetBalance(to, b + gas);
      return true;
    }

    method SetToAccount(to: Address, amount: U64) returns (ok: bool)
      modifies this`balance
      ensures ok == Credited(old(St()), to, amount).Some?
      ensures St() == if ok then Credited(old(St()), to, amount).value else old(St())
      ensures ok <==> old(St()).Balance(to) + amount <= MaxUint64
      ensures balance == if ok then old(balance)[to := old(St()).Balance(to) + amount] else old(balance)
    {
      var b := GetBalance(to);
      if MaxUint64 - amount < b {
        return false;
      }
      SetBalance(to, b + amount);
      return true;
    }

    method HasCost(kind: TransactionType, from: Address, cost: U64) returns (ok: bool)
      ensures ok == CostAvailable(St(), kind, from, cost)
    {
      if kind == Pledge {
        return true;
      }
      var available := GetAvailableBalance(from);
      return available.Some? && available.value >= cost;
    }

    method PayGas(from: Address, gas: U64) returns (ok: bool)
      modifies this`balance
      ensures ok == GasPaid(old(St()), from, gas).Some?
      ensures St() == if ok then GasPaid(old(St()), from, gas).value else old(St())
    {
      var fromBalance := GetBalance(from);
      if fromBalance < gas || MaxUint64 - fromBalance < gas {
        return false;
      }
      SetBalance(from, fromBalance - gas);
      return true;
    }

    method Move(from: Address, to: Address, amount: U64, gas: U64) returns (ok: bool)
      modifies this`balance
      ensures ok == Moved(old(St()), from, to, amount, gas).Some?
      ensures St() == if ok then Moved(old(St()), from, to, amount, gas).value else old(St())
    {
      hide Wrap;
      var fromBalance := GetBalance(from);
      var toBalance := GetBalance(to);
      if fromBalance < Wrap(amount + gas) {
        return false;
      }
      fromBalance := fromBalance - Wrap(amount + gas);
      if Wrap(MaxUint64 - toBalance - gas) < amount {
        return false;
      }
      toBalance := Wrap(toBalance + amount);
      SetBalance(from, fromBalance);
      SetBalance(to, toBalance);
      return true;
    }

    /** setAccount, with its two branches as methods of their own. */
    method SetAccount(kind: TransactionType, from: Address, to: Address, amount: U64, gas: U64) returns (ok: bool)
      requires Settled(kind)
      modifies this`balance
      ensures ok == Transferred(old(St()), kind, from, to, amount, gas).Some?
      ensures St() == if ok then Transferred(old(St()), kind, from, to, amount, gas).value else old(St())
    {
      hide Wrap, CostAvailable, GasPaid, Moved;
      ok := HasCost(kind, from, Wrap(amount + gas));
      if !ok {
        return;
      }
      if from == to || kind == Pledge || kind == EvmContract {
        ok := PayGas(from, gas);
      } else {
        ok := Move(from, to, amount, gas);
      }
    }

    /** The checks at the start of setFreezeAccount and the two frozen amounts it goes on to write. */
    method FreezeAmounts(from: Address, to: Address, amount: U64, gas: U64, lock: bool) returns (ok: bool,
                         single: U64, all: U64)
      ensures ok == FreezeAllowed(St(), Hold(from, to), amount, gas, lock)
      ensures ok ==> WithFrozen(St(), Hold(from, to), single, all) == FrozenChanged(St(), Hold(from, to), amount, lock)
    {
      hide Wrap;
      var oldSingle: int := GetSingleFreezeBalance(from, to);
      var oldAll: int := GetAllFreezeBalance(from);
      single, all := 0, 0;
      var available := GetAvailableBalance(from);
      if available.None? {
        return false, single, all;
      }
      if lock {
        if amount > Wrap(available.value + gas) {
          return false, single, all;
        }
        single := Wrap(oldSingle + amount);
        all := Wrap(oldAll + amount);
        ok := !(Wrap(MaxUint64 - oldSingle - gas) < amount || Wrap(MaxUint64 - oldAll - gas) < amount);
      } else {
        if gas > available.value {
          return false, single, all;
        }
        single := Wrap(oldSingle - amount);
        all := Wrap(oldAll - amount);
        ok := !(oldSingle < amount || oldAll < amount);
      }
    }

    /** On the last error the frozen amounts have already been written. */
    method SetFreezeAccount(from: Address, to: Address, amount: U64, gas: U64, lock: bool) returns (ok: bool)
      modifies this`balance, this`frozen, this`frozenFor
      ensures var p := Hold(from, to);
              && ok == FreezeSet(old(St()), p, amount, gas, lock).Some?
              && St() == if ok then FreezeSet(old(St()), p, amount, gas, lock).value
                         else if FreezeAllowed(old(St()), p, amount, gas, lock) then FrozenChanged(old(St()), p, amount, lock)
                         else old(St())
      ensures var s := old(St());
              && (lock && At(s.frozenFor, Hold(from, to)) <= s.Frozen(from) ==>
                    (ok <==> && s.Frozen(from) <= s.Balance(from) && s.Balance(from) + gas <= MaxUint64
                             && amount <= s.Balance(from) - s.Frozen(from) + gas
                             && s.Frozen(from) + amount + gas <= MaxUint64))
              && (!lock ==>
                    (ok <==> && s.Frozen(from) + gas <= s.Balance(from) && s.Balance(from) + gas <= MaxUint64
                             && amount <= At(s.frozenFor, Hold(from, to)) && amount <= s.Frozen(from)))
    {
      LockedBy(St(), Hold(from, to), amount, gas, lock);
      hide Wrap, FreezeAllowed, FrozenChanged;
      var single, all;
      ok, single, all := FreezeAmounts(from, to, amount, gas, lock);
      if !ok {
        return;
      }
      frozenFor := frozenFor[Hold(from, to) := single];
      frozen := frozen[from := all];
      FrozenChangedBalance(old(St()), Hold(from, to), amount, lock);
      var b: int := GetBalance(from);
      if MaxUint64 - gas < b {
        return false;
      }
      SetBalance(from, Wrap(b - gas));
    }

    /** The part of AddBlock and AddTempBlock that executes one transaction. */
    method Execute(miner: Address, tx: Transaction) returns (ok: bool)
      requires Plain(tx)
      modifies this
      ensures ok == Executed(old(St()), miner, tx).Some?
      ensures ok ==> St() == Executed(old(St()), miner, tx).value
    {
      var gas := tx.GasCap();
      if tx.kind == CoinBase {
        ok := SetMinerFee(miner, gas);
        if ok {
          ok := SetToAccount(tx.to, tx.amount);
        }
        return;
      }
      ok := SetNonce(tx.from, Wrap(tx.nonce + 1));
      if !ok {
        return;
      }
      ok := SetMinerFee(miner, gas);
      if !ok {
        return;
      }
      if tx.kind == Lock || tx.kind == Unlock {
        ok := SetFreezeAccount(tx.from, tx.to, tx.amount, gas, tx.kind == Lock);
      } else {
        ok := SetAccount(tx.kind, tx.from, tx.to, tx.amount, gas);
      }
    }

    /** The loop over the transactions of a block; on failure the caller restores the state by its root. */
    method ExecuteBlock(miner: Address, txs: seq<Transaction>) returns (ok: bool)
      requires AllPlain(txs)
      modifies this
      ensures ok == ExecutedAll(old(St()), miner, txs).Some?
      ensures ok ==> St() == ExecutedAll(old(St()), miner, txs).value
    {
      hide Executed;
      var i := 0;
      while i < |txs|
        invariant 0 <= i <= |txs|
        invariant ExecutedAll(old(St()), miner, txs[..i]) == Some(St())
      {
        assert txs[..i + 1][..i] == txs[..i];
        ok := Execute(miner, txs[i]);
        if !ok {
          ExecutedPrefix(old(St()), miner, txs, i + 1);
          return;
        }
        i := i + 1;
      }
      assert txs[..i] == txs;
      return true;
    }
  }

  lemma {:induction false} ExecutedPrefix(s: State, miner: Address, txs: seq<Transaction>, i: int)
    requires AllPlain(txs) && 0 <= i <= |txs|
    ensures ExecutedAll(s, miner, txs[..i]).None? ==> ExecutedAll(s, miner, txs).None?
    decreases |txs|
  {
    if i == |txs| {
      assert txs[..i] == txs;
    } else {
      ExecutedPrefix(s, miner, txs[..|txs| - 1], i);
      assert txs[..|txs| - 1][..i] == txs[..i];
    }
  }

  lemma FrozenChangedBalance(s: State, p: Hold, amount: U64, lock: bool)
    ensures FrozenChanged(s, p, amount, lock).balance == s.balance
  {
    hide Wrap;
  }

  lemma WrapExact(x: int)
    requires 0 <= x < TwoTo64
    ensures Wrap(x) == x
  {
  }

  // ----- sums over a book -----

  ghost function Sum<K(!new)>(m: Book<K>): int {
    if m.Keys == {} then 0 else var k := Pick(m.Keys); m[k] + Sum(m - {k})
  }

  lemma SumPick<K(!new)>(m: Book<K>, p: K)
    requires m.Keys != {} && p == Pick(m.Keys)
    ensures p in m && Sum(m) == m[p] + Sum(m - {p})
  {
  }

  lemma {:induction false} SumRemove<K(!new)>(m: Book<K>, k: K)
    requires k in m
    ensures Sum(m) == m[k] + Sum(m - {k})
    decreases |m|
  {
    hide Sum;
    var p := Pick(m.Keys);
    SumPick(m, p);
    if p != k {
      SumRemove(m - {p}, k);
      SumRemove(m - {k}, p);
      assert m - {p} - {k} == m - {k} - {p};
    }
  }

  lemma SumUpdate<K(!new)>(m: Book<K>, k: K, x: U64)
    ensures Sum(m[k := x]) == Sum(m) - At(m, k) + x
  {
    SumRemove(m[k := x], k);
    assert m[k := x] - {k} == m - {k};
    if k in m {
      SumRemove(m, k);
    } else {
      assert m - {k} == m;
    }
  }

  lemma {:induction false} SumNonNegative<K(!new)>(m: Book<K>)
    ensures Sum(m) >= 0
    decreases |m|
  {
    if m.Keys != {} {
      SumNonNegative(m - {Pick(m.Keys)});
    }
  }

  lemma AtMostSum<K(!new)>(m: Book<K>, k: K)
    ensures At(m, k) <= Sum(m)
  {
    if k in m {
      SumRemove(m, k);
      SumNonNegative(m - {k});
    } else {
      SumNonNegative(m);
    }
  }

  ghost function Total(s: State): int {
    Sum(s.balance)
  }

  lemma TotalWith(s: State, a: Address, x: U64)
    ensures Total(WithBalance(s, a, x)) == Total(s) - s.Balance(a) + x
    ensures WithBalance(s, a, x).Balance(a) == x
  {
    SumUpdate(s.balance, a, x);
  }

  // ----- conservation -----

  /** What a transaction creates: only a coinbase does, its amount and its gas. */
  function Minted(tx: Transaction): nat {
    if tx.kind == CoinBase then tx.amount + tx.GasCap() else 0
  }

  function MintedAll(txs: seq<Transaction>): nat {
    if txs == [] then 0 else MintedAll(txs[..|txs| - 1]) + Minted(txs[|txs| - 1])
  }

  const Supply: int := 0x8000_0000_0000_0000

  lemma CreditedTotal(s: State, to: Address, amount: U64)
    requires Credited(s, to, amount).Some?
    ensures Total(Credited(s, to, amount).value) == Total(s) + amount
  {
    TotalWith(s, to, s.Balance(to) + amount);
  }

  /** With a small supply and a bounded gas, nothing in setAccount wraps around. */
  lemma TransferredExact(s: State, kind: TransactionType, from: Address, to: Address, amount: U64, gas: U64)
    requires Settled(kind) && Transferred(s, kind, from, to, amount, gas).Some? && !GasOnly(kind, from, to)
    requires s.Balance(to) + gas <= MaxUint64
    ensures amount + gas <= s.Balance(from) && s.Balance(to) + amount + gas <= MaxUint64
    ensures var s' := Transferred(s, kind, from, to, amount, gas).value;
            && s'.Balance(from) == s.Balance(from) - amount - gas
            && s'.Balance(to) == s.Balance(to) + amount
  {
  }

  /** What a successful transfer creates or destroys: 2^64 when its cost wraps around, and minus that when the
      receiver's balance does. */
  function Imbalance(gasOnly: bool, toBalance: int, amount: int, gas: int): int {
    if gasOnly then 0
    else (if amount + gas >= TwoTo64 then TwoTo64 else 0) - (if toBalance + amount >= TwoTo64 then TwoTo64 else 0)
  }

  lemma WrapOnce(x: int)
    requires 0 <= x < 2 * TwoTo64
    ensures Wrap(x) == if x >= TwoTo64 then x - TwoTo64 else x
  {
  }

  lemma MovedTotal(s: State, from: Address, to: Address, amount: U64, gas: U64)
    requires Moved(s, from, to, amount, gas).Some? && from != to
    ensures Total(Moved(s, from, to, amount, gas).value) == Total(s) - gas + Imbalance(false, s.Balance(to), amount, gas)
  {
    hide Wrap, Sum, Total;
    WrapOnce(amount + gas);
    WrapOnce(s.Balance(to) + amount);
    var s1 := WithBalance(s, from, s.Balance(from) - Wrap(amount + gas));
    TotalWith(s, from, s.Balance(from) - Wrap(amount + gas));
    TotalWith(s1, to, Wrap(s.Balance(to) + amount));
  }

  /** A successful transfer lowers the sum of balances by exactly the gas if and only if its cost and the receiver's
      new balance both wrap around or neither does. */
  lemma TransferredTotal(s: State, kind: TransactionType, from: Address, to: Address, amount: U64, gas: U64)
    requires Settled(kind) && Transferred(s, kind, from, to, amount, gas).Some?
    ensures var s' := Transferred(s, kind, from, to, amount, gas).value;
            && Total(s') == Total(s) - gas + Imbalance(GasOnly(kind, from, to), s.Balance(to), amount, gas)
            && (!GasOnly(kind, from, to) ==>
                  (Total(s') == Total(s) - gas <==> (amount + gas >= TwoTo64 <==> s.Balance(to) + amount >= TwoTo64)))
  {
    hide Wrap, Sum, Total, Moved;
    if GasOnly(kind, from, to) {
      TotalWith(s, from, s.Balance(from) - gas);
    } else {
      MovedTotal(s, from, to, amount, gas);
    }
  }

  /** With room for the gas at the receiver, no successful transfer is out of balance. */
  lemma TransferBalanced(s: State, kind: TransactionType, from: Address, to: Address, amount: U64, gas: U64)
    requires Settled(kind) && Transferred(s, kind, from, to, amount, gas).Some? && s.Balance(to) + gas <= MaxUint64
    ensures Imbalance(GasOnly(kind, from, to), s.Balance(to), amount, gas) == 0
  {
    hide Wrap;
    if !GasOnly(kind, from, to) {
      TransferredExact(s, kind, from, to, amount, gas);
    }
  }

  /** The gas of a lock is really taken from the sender exactly when the sender has it; otherwise the
      subtraction wraps around and creates 2^64. */
  lemma FreezeSetTotal(s: State, p: Hold, amount: U64, gas: U64, lock: bool)
    requires FreezeSet(s, p, amount, gas, lock).Some?
    ensures Total(FreezeSet(s, p, amount, gas, lock).value) ==
              Total(s) - gas + if s.Balance(p.from) < gas then TwoTo64 else 0
    ensures !lock ==> s.Balance(p.from) >= gas
  {
    var s1 := FrozenChanged(s, p, amount, lock);
    TotalWith(s1, p.from, Wrap(s.Balance(p.from) - gas));
  }

  /** The sender of a lock cannot pay its gas; a miner is paid before it pays. */
  predicate Unpaid(s: State, miner: Address, tx: Transaction) {
    tx.kind == Lock && miner != tx.from && s.Balance(tx.from) < tx.GasCap()
  }

  /** checkGas, which lets coinbase transactions pass. */
  predicate GasChecked(tx: Transaction) {
    tx.kind != CoinBase ==> MinGas <= tx.GasCap() <= MaxGas
  }

  /** What executing a transaction creates beyond what it mints. A miner that is also the receiver has its fee
      already. */
  function Created(s: State, miner: Address, tx: Transaction): int {
    if tx.kind == CoinBase || tx.kind == Unlock then 0
    else if tx.kind == Lock then if Unpaid(s, miner, tx) then TwoTo64 else 0
    else
      Imbalance(GasOnly(tx.kind, tx.from, tx.to), s.Balance(tx.to) + if miner == tx.to then tx.GasCap() else 0,
                tx.amount, tx.GasCap())
  }

  /** One transaction changes the sum of all balances by what it mints and what it creates, whatever the supply and
      the gas. */
  lemma ExecutedTotal(s: State, miner: Address, tx: Transaction)
    requires Plain(tx) && Executed(s, miner, tx).Some?
    ensures Total(Executed(s, miner, tx).value) == Total(s) + Minted(tx) + Created(s, miner, tx)
  {
    hide Wrap, Sum, Credited, Transferred, FreezeSet, Unpaid, Imbalance;
    var gas := tx.GasCap();
    var s0 := if tx.kind == CoinBase then s else s.(nonce := s.nonce[tx.from := Wrap(tx.nonce + 1)]);
    assert Total(s0) == Total(s);
    assert Credited(s0, miner, gas).Some?;
    var s1 := Credited(s0, miner, gas).value;
    CreditedTotal(s0, miner, gas);
    CreditedFrozen(s0, miner, gas);
    if tx.kind == CoinBase {
      CreditedTotal(s1, tx.to, tx.amount);
    } else if tx.kind == Lock || tx.kind == Unlock {
      LockTotal(s1, s, miner, tx);
      NotLockPaid(s, miner, tx);
    } else {
      TransferredTotal(s1, tx.kind, tx.from, tx.to, tx.amount, gas);
    }
  }

  lemma NotLockPaid(s: State, miner: Address, tx: Transaction)
    ensures tx.kind != Lock ==> !Unpaid(s, miner, tx)
  {
  }

  /** With a small supply and a checked gas only an unpaid lock creates anything. */
  lemma CheckedCreates(s: State, miner: Address, tx: Transaction)
    requires Plain(tx) && Executed(s, miner, tx).Some? && Total(s) < Supply && GasChecked(tx)
    ensures Created(s, miner, tx) == if Unpaid(s, miner, tx) then TwoTo64 else 0
  {
    hide Wrap, Sum, Credited, Transferred, FreezeSet, Unpaid, Imbalance, Total, GasChecked;
    NotLockPaid(s, miner, tx);
    if tx.kind != CoinBase && tx.kind != Lock && tx.kind != Unlock {
      var s0 := s.(nonce := s.nonce[tx.from := Wrap(tx.nonce + 1)]);
      assert Credited(s0, miner, tx.GasCap()).Some?;
      var s1 := Credited(s0, miner, tx.GasCap()).value;
      CreditedFrozen(s0, miner, tx.GasCap());
      ReceiverFits(s, s1, miner, tx);
      TransferBalanced(s1, tx.kind, tx.from, tx.to, tx.amount, tx.GasCap());
    }
  }

  lemma LockTotal(s1: State, s: State, miner: Address, tx: Transaction)
    requires tx.kind == Lock || tx.kind == Unlock
    requires s1.Balance(tx.from) == s.Balance(tx.from) + if miner == tx.from then tx.GasCap() else 0
    requires FreezeSet(s1, Hold(tx.from, tx.to), tx.amount, tx.GasCap(), tx.kind == Lock).Some?
    ensures Total(FreezeSet(s1, Hold(tx.from, tx.to), tx.amount, tx.GasCap(), tx.kind == Lock).value) ==
              Total(s1) - tx.GasCap() + if Unpaid(s, miner, tx) then TwoTo64 else 0
  {
    hide Wrap, FreezeSet, Sum;
    FreezeSetTotal(s1, Hold(tx.from, tx.to), tx.amount, tx.GasCap(), tx.kind == Lock);
  }

  /** A transfer whose cost wraps around to nothing. The gas check keeps such transfers out of blocks, except out of
      the first one after the initial height, which is added without the check. */
  lemma UncheckedGasMints(from: Address, to: Address, miner: Address)
    requires from != to && miner != from && miner != to
    ensures var s := State(map[to := 0x4000_0000_0000_0000], map[], map[], map[]);
            var tx := Transaction(1, Transfer, from, to, 0x4000_0000_0000_0000, 1, 0xC000_0000_0000_0000, 0, 1, []);
            Executed(s, miner, tx).Some? && Created(s, miner, tx) == TwoTo64
  {
    var s := State(map[to := 0x4000_0000_0000_0000], map[], map[], map[]);
    var gas: U64 := 0xC000_0000_0000_0000;
    WrapExact(gas);
    WrapExact(2);
    WrapOnce(0x4000_0000_0000_0000 + gas);
    var s1 := s.(nonce := s.nonce[from := 2]);
    var s2 := WithBalance(s1, miner, gas);
    assert s2.Balance(from) == 0 && s2.Balance(to) == 0x4000_0000_0000_0000 && s2.Available(from) == Some(0);
    assert Wrap(MaxUint64 - 0x4000_0000_0000_0000 - gas) == MaxUint64;
    hide Wrap;
    assert Credited(s1, miner, gas) == Some(s2);
  }

  // ----- frozen amounts -----

  function HoldsOf(m: Book<Hold>, a: Address): Book<Hold> {
    map p | p in m && p.from == a :: m[p]
  }

  /** Every account's frozen total is the sum of what is frozen for its notaries. */
  ghost predicate FrozenConsistent(s: State) {
    forall a: Address :: s.Frozen(a) == Sum(HoldsOf(s.frozenFor, a))
  }

  /** No account has more frozen than it has. */
  ghost predicate Covered(s: State) {
    forall a: Address :: s.Frozen(a) <= s.Balance(a)
  }

  /** A successful lock or unlock moves both frozen amounts by exactly the amount. */
  lemma FreezeSetExact(s: State, p: Hold, amount: U64, gas: U64, lock: bool)
    requires FreezeSet(s, p, amount, gas, lock).Some? && At(s.frozenFor, p) <= s.Frozen(p.from)
    ensures var s' := FreezeSet(s, p, amount, gas, lock).value;
            var d: int := if lock then amount else 0 - amount;
            && s'.Frozen(p.from) == s.Frozen(p.from) + d
            && s'.frozenFor == s.frozenFor[p := At(s.frozenFor, p) + d]
  {
    hide Wrap;
    var single, all := At(s.frozenFor, p), s.Frozen(p.from);
    if lock {
      WrapExact(MaxUint64 - all - gas);
      WrapExact(single + amount);
      WrapExact(all + amount);
    } else {
      WrapExact(single - amount);
      WrapExact(all - amount);
    }
  }

  lemma FreezeSetConsistent(s: State, p: Hold, amount: U64, gas: U64, lock: bool)
    requires FreezeSet(s, p, amount, gas, lock).Some? && FrozenConsistent(s)
    ensures FrozenConsistent(FreezeSet(s, p, amount, gas, lock).value)
  {
    var s' := FreezeSet(s, p, amount, gas, lock).value;
    var single := At(s.frozenFor, p);
    assert single == At(HoldsOf(s.frozenFor, p.from), p);
    AtMostSum(HoldsOf(s.frozenFor, p.from), p);
    FreezeSetExact(s, p, amount, gas, lock);
    hide Wrap, Sum, FreezeSet;
    var x := s'.frozenFor[p];
    forall a: Address ensures s'.Frozen(a) == Sum(HoldsOf(s'.frozenFor, a)) {
      if a == p.from {
        assert HoldsOf(s'.frozenFor, a) == HoldsOf(s.frozenFor, a)[p := x];
        SumUpdate(HoldsOf(s.frozenFor, a), p, x);
      } else {
        OtherHolds(s, p, amount, gas, lock, a);
      }
    }
  }

  lemma OtherHolds(s: State, p: Hold, amount: U64, gas: U64, lock: bool, a: Address)
    requires FreezeSet(s, p, amount, gas, lock).Some? && a != p.from
    ensures var s' := FreezeSet(s, p, amount, gas, lock).value;
            && s'.Frozen(a) == s.Frozen(a) && s'.Balance(a) == s.Balance(a)
            && HoldsOf(s'.frozenFor, a) == HoldsOf(s.frozenFor, a)
  {
    hide Wrap;
  }

  /** Exactly when a lock succeeds, for a hold within its account's total: the account is not overfrozen, the amount
      is at most what is available plus the gas, and the sums have room. */
  lemma LockExactly(s: State, p: Hold, amount: U64, gas: U64)
    requires At(s.frozenFor, p) <= s.Frozen(p.from)
    ensures FreezeSet(s, p, amount, gas, true).Some? <==>
              && s.Frozen(p.from) <= s.Balance(p.from) && s.Balance(p.from) + gas <= MaxUint64
              && amount <= s.Balance(p.from) - s.Frozen(p.from) + gas && s.Frozen(p.from) + amount + gas <= MaxUint64
  {
    hide Wrap;
    var single, all, b := At(s.frozenFor, p), s.Frozen(p.from), s.Balance(p.from);
    if all <= b && b + gas <= MaxUint64 {
      WrapExact(b - all + gas);
      WrapExact(MaxUint64 - single - gas);
      WrapExact(MaxUint64 - all - gas);
    }
  }

  lemma LockedBy(s: State, p: Hold, amount: U64, gas: U64, lock: bool)
    ensures lock && At(s.frozenFor, p) <= s.Frozen(p.from) ==>
              (FreezeSet(s, p, amount, gas, lock).Some? <==>
                 && s.Frozen(p.from) <= s.Balance(p.from) && s.Balance(p.from) + gas <= MaxUint64
                 && amount <= s.Balance(p.from) - s.Frozen(p.from) + gas
                 && s.Frozen(p.from) + amount + gas <= MaxUint64)
    ensures !lock ==>
              (FreezeSet(s, p, amount, gas, lock).Some? <==>
                 && s.Frozen(p.from) + gas <= s.Balance(p.from) && s.Balance(p.from) + gas <= MaxUint64
                 && amount <= At(s.frozenFor, p) && amount <= s.Frozen(p.from))
  {
    if !lock {
      UnlockExactly(s, p, amount, gas);
    } else if At(s.frozenFor, p) <= s.Frozen(p.from) {
      LockExactly(s, p, amount, gas);
    }
    hide FreezeSet;
  }

  /** Exactly when an unlock succeeds. */
  lemma UnlockExactly(s: State, p: Hold, amount: U64, gas: U64)
    ensures FreezeSet(s, p, amount, gas, false).Some? <==>
              && s.Frozen(p.from) + gas <= s.Balance(p.from) && s.Balance(p.from) + gas <= MaxUint64
              && amount <= At(s.frozenFor, p) && amount <= s.Frozen(p.from)
  {
    hide Wrap;
  }

  /** A successful lock whose sender has the gas freezes at most the balance it leaves and twice the gas. */
  lemma LockBounded(s: State, p: Hold, amount: U64, gas: U64)
    requires FreezeSet(s, p, amount, gas, true).Some? && At(s.frozenFor, p) <= s.Frozen(p.from)
    requires gas <= s.Balance(p.from)
    ensures var s' := FreezeSet(s, p, amount, gas, true).value; s'.Frozen(p.from) <= s'.Balance(p.from) + 2 * gas
  {
    LockExactly(s, p, amount, gas);
    FreezeSetExact(s, p, amount, gas, true);
    FreezeSetBalance(s, p, amount, gas, true);
    hide FreezeSet;
  }

  lemma FreezeSetBalance(s: State, p: Hold, amount: U64, gas: U64, lock: bool)
    requires FreezeSet(s, p, amount, gas, lock).Some?
    ensures FreezeSet(s, p, amount, gas, lock).value.Balance(p.from) ==
              s.Balance(p.from) - gas + (if s.Balance(p.from) < gas then TwoTo64 else 0)
  {
  }

  /** What the guards of a successful lock or unlock say once nothing wraps around. */
  lemma FreezeSetGuard(s: State, p: Hold, amount: U64, gas: U64, lock: bool)
    requires FreezeSet(s, p, amount, gas, lock).Some?
    ensures s.Frozen(p.from) <= s.Balance(p.from)
    ensures if lock then s.Frozen(p.from) + gas + amount <= MaxUint64
            else amount <= s.Frozen(p.from) && s.Frozen(p.from) + gas <= s.Balance(p.from)
  {
  }

  /** A successful unlock never leaves more frozen than there is; a successful lock does so exactly when the
      locked amount and the gas exceed what was available. The check in the source is weaker: it adds the gas
      to the available side. (When the gas itself cannot be paid the balance wraps around to a huge number.) */
  lemma FreezeSetCovered(s: State, p: Hold, amount: U64, gas: U64, lock: bool)
    requires FreezeSet(s, p, amount, gas, lock).Some? && At(s.frozenFor, p) <= s.Frozen(p.from)
    ensures var s' := FreezeSet(s, p, amount, gas, lock).value;
            s'.Frozen(p.from) <= s'.Balance(p.from) <==>
              (!lock || s.Frozen(p.from) + amount + gas <= s.Balance(p.from) || s.Balance(p.from) < gas)
  {
    FreezeSetExact(s, p, amount, gas, lock);
    FreezeSetBalance(s, p, amount, gas, lock);
    FreezeSetGuard(s, p, amount, gas, lock);
    hide FreezeSet;
  }

  /** A lock that passes the source's check and leaves more frozen than there is. */
  lemma OverfrozenLock(from: Address, notary: Address)
    ensures var s := State(map[from := 5_000_000], map[], map[], map[]);
            var r := FreezeSet(s, Hold(from, notary), 5_000_000, 2_100_000, true);
            r.Some? && r.value.Frozen(from) > r.value.Balance(from)
  {
  }

  /** The sender can pay what the transaction takes or freezes without touching frozen money; a miner has its
      fee already. For a plain transfer to somebody else the source checks this itself. */
  predicate Funded(s: State, miner: Address, tx: Transaction) {
    var balance := s.Balance(tx.from) + if miner == tx.from then tx.GasCap() else 0;
    if tx.kind == CoinBase || tx.kind == Unlock then true
    else if tx.kind == Lock then s.Frozen(tx.from) + tx.amount + tx.GasCap() <= balance
    else GasOnly(tx.kind, tx.from, tx.to) ==> s.Frozen(tx.from) + tx.GasCap() <= balance
  }

  lemma CreditedFrozen(s: State, to: Address, amount: U64)
    requires Credited(s, to, amount).Some?
    ensures var s' := Credited(s, to, amount).value;
            && s'.frozen == s.frozen && s'.frozenFor == s.frozenFor && s'.nonce == s.nonce
            && (forall a: Address :: s'.Balance(a) == s.Balance(a) + if a == to then amount else 0)
            && (Covered(s) ==> Covered(s'))
  {
  }

  lemma SameFrozen(s: State, s': State)
    requires FrozenConsistent(s) && s'.frozen == s.frozen && s'.frozenFor == s.frozenFor
    ensures FrozenConsistent(s')
  {
    forall a: Address ensures s'.Frozen(a) == Sum(HoldsOf(s'.frozenFor, a)) {
      assert s.Frozen(a) == Sum(HoldsOf(s.frozenFor, a));
    }
  }

  /** The frozen totals agree with their parts after any executed transaction, without further conditions. */
  lemma ExecutedConsistent(s: State, miner: Address, tx: Transaction)
    requires Plain(tx) && Executed(s, miner, tx).Some? && FrozenConsistent(s)
    ensures FrozenConsistent(Executed(s, miner, tx).value)
  {
    hide Wrap, Sum, HoldsOf, FrozenConsistent, FreezeAllowed, FrozenChanged;
    var s' := Executed(s, miner, tx).value;
    if tx.kind == Lock || tx.kind == Unlock {
      var s1 := NonceSet(s, tx.from, Wrap(tx.nonce + 1)).value;
      var s2 := Credited(s1, miner, tx.GasCap()).value;
      SameFrozen(s, s2);
      FreezeSetConsistent(s2, Hold(tx.from, tx.to), tx.amount, tx.GasCap(), tx.kind == Lock);
    } else {
      SameFrozen(s, s');
    }
  }

  /** A transfer to somebody else never takes frozen money. One to oneself, or a pledge, keeps the sender covered
      exactly when the gas is available: a huge amount makes the checked cost wrap around below the gas. */
  lemma TransferredCovered(s: State, kind: TransactionType, from: Address, to: Address, amount: U64, gas: U64)
    requires Settled(kind) && Transferred(s, kind, from, to, amount, gas).Some? && s.Frozen(from) <= s.Balance(from)
    requires s.Balance(to) + gas <= MaxUint64
    ensures var s' := Transferred(s, kind, from, to, amount, gas).value;
            && (s'.Frozen(from) <= s'.Balance(from) <==>
                  !GasOnly(kind, from, to) || s.Frozen(from) + gas <= s.Balance(from))
            && s'.frozen == s.frozen && s'.frozenFor == s.frozenFor
            && forall a: Address :: a != from ==> s.Balance(a) <= s'.Balance(a)
  {
    if !GasOnly(kind, from, to) {
      TransferredExact(s, kind, from, to, amount, gas);
    }
  }

  /** A self-transfer that passes the source's checks and leaves more frozen than there is. */
  lemma OverdrawnSelfTransfer(from: Address)
    ensures var s := State(map[from := 7_099_999], map[], map[from := 5_000_000], map[]);
            var r := Transferred(s, Transfer, from, from, MaxUint64, 2_100_000);
            r.Some? && r.value.Frozen(from) > r.value.Balance(from)
  {
  }

  lemma FreezeSetOthers(s: State, p: Hold, amount: U64, gas: U64, lock: bool)
    requires FreezeSet(s, p, amount, gas, lock).Some?
    ensures var s' := FreezeSet(s, p, amount, gas, lock).value;
            forall a: Address :: a != p.from ==> s'.Frozen(a) == s.Frozen(a) && s'.Balance(a) == s.Balance(a)
  {
    hide Wrap;
  }

  lemma CoinBaseFunded(s: State, miner: Address, tx: Transaction)
    requires tx.kind == CoinBase
    ensures Funded(s, miner, tx)
  {
  }

  /** What the nonce and the fee, paid to the miner, make of s. */
  ghost predicate FeePaid(s: State, s2: State, miner: Address, tx: Transaction) {
    && s2.frozen == s.frozen && s2.frozenFor == s.frozenFor
    && forall a: Address :: s2.Balance(a) == s.Balance(a) + if a == miner then tx.GasCap() else 0
  }

  lemma LockFunded(s: State, s2: State, miner: Address, tx: Transaction)
    requires tx.kind == Lock || tx.kind == Unlock
    requires FrozenConsistent(s) && Covered(s2) && !Unpaid(s, miner, tx) && FeePaid(s, s2, miner, tx)
    requires FreezeSet(s2, Hold(tx.from, tx.to), tx.amount, tx.GasCap(), tx.kind == Lock).Some?
    ensures var s' := FreezeSet(s2, Hold(tx.from, tx.to), tx.amount, tx.GasCap(), tx.kind == Lock).value;
            Covered(s') <==> Funded(s, miner, tx)
  {
    hide Wrap, FrozenConsistent, FreezeSet, Covered, Unpaid;
    var p, gas := Hold(tx.from, tx.to), tx.GasCap();
    HoldAtMost(s, p);
    CoveredAt(s2, tx.from);
    FreezeSetCovered(s2, p, tx.amount, gas, tx.kind == Lock);
    FreezeSetOthers(s2, p, tx.amount, gas, tx.kind == Lock);
    if tx.kind == Lock {
      PaidLock(s, s2, miner, tx);
    }
    OthersCovered(s2, FreezeSet(s2, p, tx.amount, gas, tx.kind == Lock).value, tx.from);
  }

  lemma TransferFunded(s: State, s2: State, miner: Address, tx: Transaction)
    requires tx.kind != CoinBase && tx.kind != Lock && tx.kind != Unlock && Settled(tx.kind)
    requires Total(s) < Supply && GasChecked(tx) && Covered(s2) && FeePaid(s, s2, miner, tx)
    requires Transferred(s2, tx.kind, tx.from, tx.to, tx.amount, tx.GasCap()).Some?
    ensures Covered(Transferred(s2, tx.kind, tx.from, tx.to, tx.amount, tx.GasCap()).value) <==> Funded(s, miner, tx)
  {
    hide Wrap, Transferred, Covered, GasChecked, Total;
    CoveredAt(s2, tx.from);
    ReceiverFits(s, s2, miner, tx);
    TransferredCovered(s2, tx.kind, tx.from, tx.to, tx.amount, tx.GasCap());
    OthersCovered(s2, Transferred(s2, tx.kind, tx.from, tx.to, tx.amount, tx.GasCap()).value, tx.from);
  }

  /** After an executed transaction the sender is covered if and only if it was funded, and everybody else is. */
  lemma ExecutedCovered(s: State, miner: Address, tx: Transaction)
    requires Plain(tx) && Executed(s, miner, tx).Some? && Total(s) < Supply && GasChecked(tx)
    requires FrozenConsistent(s) && Covered(s) && !Unpaid(s, miner, tx)
    ensures var s' := Executed(s, miner, tx).value;
            Covered(s') <==> Funded(s, miner, tx)
  {
    hide Wrap, FrozenConsistent, FreezeSet, Transferred, Credited, GasChecked, Unpaid, Covered, Funded;
    var gas := tx.GasCap();
    if tx.kind == CoinBase {
      CreditedFrozen(s, miner, gas);
      CreditedFrozen(Credited(s, miner, gas).value, tx.to, tx.amount);
      CoinBaseFunded(s, miner, tx);
    } else {
      var s1 := NonceSet(s, tx.from, Wrap(tx.nonce + 1)).value;
      SameCovered(s, s1);
      CreditedFrozen(s1, miner, gas);
      var s2 := Credited(s1, miner, gas).value;
      if tx.kind == Lock || tx.kind == Unlock {
        LockFunded(s, s2, miner, tx);
      } else {
        TransferFunded(s, s2, miner, tx);
      }
    }
  }

  lemma SameCovered(s: State, s': State)
    requires Covered(s) && s'.frozen == s.frozen && s'.balance == s.balance
    ensures Covered(s')
  {
    assert forall a: Address :: s'.Frozen(a) == s.Frozen(a) && s'.Balance(a) == s.Balance(a);
  }

  lemma CoveredAt(s: State, a: Address)
    requires Covered(s)
    ensures s.Frozen(a) <= s.Balance(a)
  {
  }

  lemma HoldAtMost(s: State, p: Hold)
    requires FrozenConsistent(s)
    ensures At(s.frozenFor, p) <= s.Frozen(p.from)
  {
    assert At(s.frozenFor, p) == At(HoldsOf(s.frozenFor, p.from), p);
    AtMostSum(HoldsOf(s.frozenFor, p.from), p);
  }

  lemma PaidLock(s: State, s2: State, miner: Address, tx: Transaction)
    requires !Unpaid(s, miner, tx) && tx.kind == Lock
    requires s2.Balance(tx.from) == s.Balance(tx.from) + if tx.from == miner then tx.GasCap() else 0
    ensures s2.Balance(tx.from) >= tx.GasCap()
  {
    hide Wrap;
  }

  lemma ReceiverFits(s: State, s2: State, miner: Address, tx: Transaction)
    requires Total(s) < Supply && GasChecked(tx) && tx.kind != CoinBase
    requires s2.Balance(tx.to) == s.Balance(tx.to) + if tx.to == miner then tx.GasCap() else 0
    ensures s2.Balance(tx.to) + tx.GasCap() <= MaxUint64
  {
    hide Wrap;
    AtMostSum(s.balance, tx.to);
  }

  lemma OthersCovered(s: State, s': State, from: Address)
    requires Covered(s)
    requires forall a: Address :: a != from ==> s'.Frozen(a) == s.Frozen(a) && s.Balance(a) <= s'.Balance(a)
    ensures Covered(s') <==> s'.Frozen(from) <= s'.Balance(from)
  {
    if s'.Frozen(from) <= s'.Balance(from) {
      forall a: Address ensures s'.Frozen(a) <= s'.Balance(a) {
        if a != from {
          assert s.Frozen(a) <= s.Balance(a);
        }
      }
    }
  }

  // ----- whole blocks -----

  predicate AllGasChecked(txs: seq<Transaction>) {
    forall i :: 0 <= i < |txs| ==> GasChecked(txs[i])
  }

  /** At no point of the run is a lock unpaid. */
  ghost predicate AllPaid(s: State, miner: Address, txs: seq<Transaction>)
    requires AllPlain(txs)
  {
    forall i :: 0 <= i < |txs| && ExecutedAll(s, miner, txs[..i]).Some? ==>
      !Unpaid(ExecutedAll(s, miner, txs[..i]).value, miner, txs[i])
  }

  ghost predicate AllFunded(s: State, miner: Address, txs: seq<Transaction>)
    requires AllPlain(txs)
  {
    forall i :: 0 <= i < |txs| && ExecutedAll(s, miner, txs[..i]).Some? ==>
      Funded(ExecutedAll(s, miner, txs[..i]).value, miner, txs[i])
  }

  lemma ShorterRun(s: State, miner: Address, txs: seq<Transaction>)
    requires AllPlain(txs) && txs != []
    ensures var front := txs[..|txs| - 1];
            && (AllPaid(s, miner, txs) ==> AllPaid(s, miner, front))
            && (AllFunded(s, miner, txs) ==> AllFunded(s, miner, front))
  {
    hide ExecutedAll, Unpaid, Funded;
    var front := txs[..|txs| - 1];
    assert forall i :: 0 <= i < |front| ==> front[..i] == txs[..i] && front[i] == txs[i];
  }

  /** What a run creates beyond what it mints. */
  ghost function CreatedAll(s: State, miner: Address, txs: seq<Transaction>): int
    requires AllPlain(txs) && ExecutedAll(s, miner, txs).Some?
  {
    if txs == [] then 0
    else
      var n := |txs| - 1;
      CreatedAll(s, miner, txs[..n]) + Created(ExecutedAll(s, miner, txs[..n]).value, miner, txs[n])
  }

  /** Without any condition on supply or gas: a block changes the sum of all balances by exactly what it mints if
      and only if what its transactions create adds up to nothing. */
  lemma {:induction false} BlockTotal(s: State, miner: Address, txs: seq<Transaction>)
    requires AllPlain(txs) && ExecutedAll(s, miner, txs).Some?
    ensures Total(ExecutedAll(s, miner, txs).value) == Total(s) + MintedAll(txs) + CreatedAll(s, miner, txs)
    decreases |txs|
  {
    hide Wrap, Executed, Total, Minted, Created;
    if txs != [] {
      var n := |txs| - 1;
      BlockTotal(s, miner, txs[..n]);
      ExecutedTotal(ExecutedAll(s, miner, txs[..n]).value, miner, txs[n]);
    }
  }

  /** Executing a block changes the sum of all balances by exactly the coinbase amounts and coinbase gas,
      whatever the overlap of miner, senders and receivers. */
  lemma {:induction false} BlockConserves(s: State, miner: Address, txs: seq<Transaction>)
    requires AllPlain(txs) && ExecutedAll(s, miner, txs).Some?
    requires AllGasChecked(txs) && Total(s) + MintedAll(txs) < Supply && AllPaid(s, miner, txs)
    ensures Total(ExecutedAll(s, miner, txs).value) == Total(s) + MintedAll(txs)
    decreases |txs|
  {
    hide Wrap, Executed, Unpaid, GasChecked, Total, Minted, AllPaid, Created;
    if txs != [] {
      var n := |txs| - 1;
      ShorterRun(s, miner, txs);
      BlockConserves(s, miner, txs[..n]);
      PaidAt(s, miner, txs, n);
      ExecutedTotal(ExecutedAll(s, miner, txs[..n]).value, miner, txs[n]);
      CheckedCreates(ExecutedAll(s, miner, txs[..n]).value, miner, txs[n]);
    }
  }

  lemma PaidAt(s: State, miner: Address, txs: seq<Transaction>, i: int)
    requires AllPlain(txs) && 0 <= i < |txs| && ExecutedAll(s, miner, txs[..i]).Some? && AllPaid(s, miner, txs)
    ensures !Unpaid(ExecutedAll(s, miner, txs[..i]).value, miner, txs[i])
  {
  }

  lemma FundedAt(s: State, miner: Address, txs: seq<Transaction>, i: int)
    requires AllPlain(txs) && 0 <= i < |txs| && ExecutedAll(s, miner, txs[..i]).Some? && AllFunded(s, miner, txs)
    ensures Funded(ExecutedAll(s, miner, txs[..i]).value, miner, txs[i])
  {
  }

  lemma FundedIsPaid(s: State, miner: Address, tx: Transaction)
    requires Funded(s, miner, tx)
    ensures !Unpaid(s, miner, tx)
  {
    hide Wrap;
  }

  /** A block whose transactions are funded keeps every invariant of the ledger: the sum of the balances, the
      agreement of the frozen totals with their parts, and the cover of the frozen totals by the balances. */
  lemma {:induction false} BlockKeepsLedger(s: State, miner: Address, txs: seq<Transaction>)
    requires AllPlain(txs) && ExecutedAll(s, miner, txs).Some?
    requires AllGasChecked(txs) && Total(s) + MintedAll(txs) < Supply && AllFunded(s, miner, txs)
    requires FrozenConsistent(s) && Covered(s)
    ensures var s' := ExecutedAll(s, miner, txs).value;
            Total(s') == Total(s) + MintedAll(txs) && FrozenConsistent(s') && Covered(s')
    decreases |txs|
  {
    hide Wrap, Executed, Unpaid, GasChecked, Total, Minted, AllFunded, Created, Funded, Covered, FrozenConsistent;
    if txs != [] {
      var n := |txs| - 1;
      ShorterRun(s, miner, txs);
      BlockKeepsLedger(s, miner, txs[..n]);
      var s1 := ExecutedAll(s, miner, txs[..n]).value;
      FundedAt(s, miner, txs, n);
      FundedIsPaid(s1, miner, txs[n]);
      ExecutedTotal(s1, miner, txs[n]);
      CheckedCreates(s1, miner, txs[n]);
      ExecutedConsistent(s1, miner, txs[n]);
      ExecutedCovered(s1, miner, txs[n]);
    }
  }

  // ----- nonces -----

  /** How many transactions a caller has in a block, not counting coinbase transactions. */
  function CallsOf(txs: seq<Transaction>, a: Address): nat {
    if txs == [] then 0
    else CallsOf(txs[..|txs| - 1], a) +
         if txs[|txs| - 1].kind != CoinBase && txs[|txs| - 1].from == a then 1 else 0
  }

  lemma WrapNext(x: U64, y: U64)
    ensures Wrap(x + 1) == Wrap(y + 1) ==> x == y
    ensures x < MaxUint64 ==> Wrap(x + 1) == x + 1
  {
  }

  lemma ExecutedNonce(s: State, miner: Address, tx: Transaction, a: Address)
    requires Plain(tx) && Executed(s, miner, tx).Some? && s.Nonce(a) < MaxUint64
    ensures tx.kind != CoinBase && tx.from == a ==> tx.nonce == s.Nonce(a)
    ensures Executed(s, miner, tx).value.Nonce(a) ==
              s.Nonce(a) + if tx.kind != CoinBase && tx.from == a then 1 else 0
  {
    hide Wrap, Transferred, FreezeAllowed, FrozenChanged, Credited;
    WrapNext(s.Nonce(tx.from), tx.nonce);
    var s' := Executed(s, miner, tx).value;
    if tx.kind == CoinBase {
      CreditedFrozen(s, miner, tx.GasCap());
      CreditedFrozen(Credited(s, miner, tx.GasCap()).value, tx.to, tx.amount);
    } else {
      var s1 := NonceSet(s, tx.from, Wrap(tx.nonce + 1)).value;
      CreditedFrozen(s1, miner, tx.GasCap());
      NonceKept(Credited(s1, miner, tx.GasCap()).value, tx);
      assert s'.nonce == s1.nonce;
    }
  }

  lemma NonceKept(s: State, tx: Transaction)
    requires Plain(tx)
    ensures var r := Transferred(s, tx.kind, tx.from, tx.to, tx.amount, tx.GasCap());
            r.Some? ==> r.value.nonce == s.nonce
    ensures forall lock :: var r := FreezeSet(s, Hold(tx.from, tx.to), tx.amount, tx.GasCap(), lock);
            r.Some? ==> r.value.nonce == s.nonce
  {
    hide Wrap;
  }

  lemma {:induction false} NonceTotal(s: State, miner: Address, txs: seq<Transaction>, a: Address)
    requires AllPlain(txs) && ExecutedAll(s, miner, txs).Some? && s.Nonce(a) + |txs| <= MaxUint64
    ensures ExecutedAll(s, miner, txs).value.Nonce(a) == s.Nonce(a) + CallsOf(txs, a) && CallsOf(txs, a) <= |txs|
    decreases |txs|
  {
    hide Wrap, Executed;
    if txs != [] {
      var n := |txs| - 1;
      NonceTotal(s, miner, txs[..n], a);
      ExecutedNonce(ExecutedAll(s, miner, txs[..n]).value, miner, txs[n], a);
    }
  }

  lemma {:induction false} NonceAt(s: State, miner: Address, txs: seq<Transaction>, a: Address, i: nat)
    requires AllPlain(txs) && ExecutedAll(s, miner, txs).Some? && s.Nonce(a) + |txs| <= MaxUint64
    requires i < |txs| && txs[i].kind != CoinBase && txs[i].from == a
    ensures txs[i].nonce == s.Nonce(a) + CallsOf(txs[..i], a)
    decreases |txs|
  {
    hide Wrap, Executed, CallsOf;
    var n := |txs| - 1;
    if i == n {
      NonceTotal(s, miner, txs[..n], a);
      ExecutedNonce(ExecutedAll(s, miner, txs[..n]).value, miner, txs[n], a);
    } else {
      NonceAt(s, miner, txs[..n], a, i);
      assert txs[..n][..i] == txs[..i];
    }
  }

  /** In an executed block each caller's nonces are consecutive, starting at its nonce on the chain; so no
      transaction can be executed twice. */
  lemma NoncesConsecutive(s: State, miner: Address, txs: seq<Transaction>, a: Address)
    requires AllPlain(txs) && ExecutedAll(s, miner, txs).Some? && s.Nonce(a) + |txs| <= MaxUint64
    ensures ExecutedAll(s, miner, txs).value.Nonce(a) == s.Nonce(a) + CallsOf(txs, a)
    ensures CallsOf(txs, a) <= |txs|
    ensures forall i :: 0 <= i < |txs| && txs[i].kind != CoinBase && txs[i].from == a ==>
              txs[i].nonce == s.Nonce(a) + CallsOf(txs[..i], a)
  {
    hide Wrap, Executed, AllPlain;
    NonceTotal(s, miner, txs, a);
    forall i | 0 <= i < |txs| && txs[i].kind != CoinBase && txs[i].from == a
      ensures txs[i].nonce == s.Nonce(a) + CallsOf(txs[..i], a)
    {
      NonceAt(s, miner, txs, a, i);
    }
  }
}
