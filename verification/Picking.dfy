/** Exactly which transactions Pending picks, in terms of the numbers of the accounts. */
module Picking {
  import opened Options
  import opened Transactions
  import opened Ledger
  import opened Pool

  // ----- one transaction -----

  /** Whether what the pool knows of the accounts covers a transaction. A caller's first unlock looks its notary's
      amount up; later ones go on from the amount found then. */
  predicate Covers(s: State, buf: Traders, tx: Transaction) {
    var caller, receiver, gas := View(s, buf, tx.from), View(s, buf, tx.to), tx.GasCap();
    && caller.Some?
    && var c := caller.value;
       if tx.kind == Transfer then
         && tx.amount + gas <= c.available
         && receiver.Some? && receiver.value.available + tx.amount <= MaxUint64
       else if tx.kind == Lock then
         tx.amount + gas <= c.available && c.locked + tx.amount <= MaxUint64
       else if tx.kind == Unlock then
         && tx.amount <= (if c.singleExists then c.single else At(s.frozenFor, Hold(tx.from, tx.to)))
         && tx.amount <= c.locked && gas <= c.available && c.available - gas + tx.amount <= MaxUint64
       else if tx.kind == Pledge || tx.kind == EvmContract || tx.kind == EvmKto then
         tx.amount + gas <= c.available
       else
         tx.kind == PledgeBreak && tx.amount == 0 && gas <= c.available
  }

  lemma SimulatedExactly(s: State, buf: Traders, tx: Transaction)
    ensures Simulated(s, buf, tx).0 <==> Covers(s, buf, tx)
  {
    hide State.Available, State.Frozen, State.Nonce, Transaction.GasCap, Wrap;
  }

  /** What the pool knows of the accounts is the same. */
  ghost predicate SameViews(s: State, buf: Traders, buf': Traders) {
    forall a: Address :: View(s, buf', a) == View(s, buf, a)
  }

  lemma CallerLookedUp(s: State, buf: Traders, a: Address)
    ensures var (info, b1) := TraderInfo(s, buf, a, None); info == View(s, buf, a) && SameViews(s, buf, b1)
  {
    hide Wrap;
  }

  lemma SameCovers(s: State, buf: Traders, buf': Traders, tx: Transaction)
    requires SameViews(s, buf, buf')
    ensures Covers(s, buf', tx) == Covers(s, buf, tx)
  {
    hide Wrap, View;
  }

  /** A transaction reached below the limit, at index |L| - 1 - i: with the nonce its caller is expected to use next it
      is picked if it is covered and recorded for removal if not; with a smaller one it is recorded; with a larger one
      it stays. A caller that the chain cannot report is expected to use zero. */
  lemma PickedExactly(s: State, L: seq<SignedTransaction>, i: nat)
    requires i < |L| && |Selected(s, L, i).taken| < PendingLimit
    ensures var before, after, idx := Selected(s, L, i), Selected(s, L, i + 1), |L| - 1 - i;
            var st := L[idx];
            var caller := View(s, before.buf, st.Caller());
            var next: int := if caller.Some? then caller.value.nextNonce else 0;
            if st.Nonce() == next && Covers(s, before.buf, st.tx) then
              after.taken == before.taken + [st] && after.bad == before.bad
            else if st.Nonce() <= next then
              after.taken == before.taken && after.bad == before.bad + [idx]
            else
              after.taken == before.taken && after.bad == before.bad && SameViews(s, before.buf, after.buf)
  {
    hide Wrap, View, Covers, Simulated, Selected, SameViews;
    SelectedStep(s, L, i);
    var before, st := Selected(s, L, i), L[|L| - 1 - i];
    var (info, b1) := TraderInfo(s, before.buf, st.Caller(), None);
    CallerLookedUp(s, before.buf, st.Caller());
    SameCovers(s, before.buf, b1, st.tx);
    SimulatedExactly(s, b1, st.tx);
  }

  // ----- what the pool knows, in numbers -----

  /** What a picked transaction does to the available balance the pool keeps for a. A transfer to oneself ends with the
      entry of the receiver. */
  function AvailableChange(tx: Transaction, a: Address): int {
    var gas := tx.GasCap();
    if tx.kind == Transfer then
      if a == tx.to then tx.amount else if a == tx.from then 0 - tx.amount - gas else 0
    else if a != tx.from then 0
    else if tx.kind == Unlock then tx.amount - gas
    else 0 - tx.amount - gas
  }

  function LockedChange(tx: Transaction, a: Address): int {
    if a != tx.from then 0
    else if tx.kind == Lock then tx.amount
    else if tx.kind == Unlock then 0 - tx.amount
    else 0
  }

  function Unlocks(tx: Transaction, a: Address): nat {
    if tx.kind == Unlock && a == tx.from then tx.amount else 0
  }

  function NonceSteps(tx: Transaction, a: Address): nat {
    if a == tx.from && !(tx.kind == Transfer && tx.from == tx.to) then 1 else 0
  }

  /** An entry after a picked transaction, or with ok false after a rejected one. */
  ghost predicate Follows(s: State, buf: Traders, buf': Traders, tx: Transaction, ok: bool, a: Address) {
    && View(s, buf', a).Some? == View(s, buf, a).Some?
    && (View(s, buf, a).Some? ==>
          var t, t' := View(s, buf, a).value, View(s, buf', a).value;
          && t'.available == t.available + (if ok then AvailableChange(tx, a) else 0)
          && t'.locked == t.locked + (if ok then LockedChange(tx, a) else 0)
          && t'.nextNonce == Wrap(t.nextNonce + if ok then NonceSteps(tx, a) else 0)
          && (t.singleExists ==> t'.singleExists && t'.single == t.single - (if ok then Unlocks(tx, a) else 0))
          && (!t.singleExists && t'.singleExists ==>
                && tx.kind == Unlock && a == tx.from
                && t'.single == At(s.frozenFor, Hold(tx.from, tx.to)) - (if ok then tx.amount else 0))
          && (!t'.singleExists ==> !ok || Unlocks(tx, a) == 0))
  }

  lemma TransferFollows(s: State, buf: Traders, tx: Transaction, a: Address)
    requires tx.kind == Transfer
    ensures var (ok, buf') := TransferSimulated(s, buf, tx); Follows(s, buf, buf', tx, ok, a)
  {
    hide State.Available, State.Frozen, State.Nonce, Transaction.GasCap;
  }

  lemma LockFollows(s: State, buf: Traders, tx: Transaction, a: Address)
    requires tx.kind == Lock
    ensures var (ok, buf') := LockSimulated(s, buf, tx); Follows(s, buf, buf', tx, ok, a)
  {
    hide State.Available, State.Frozen, State.Nonce, Transaction.GasCap;
  }

  lemma UnlockFollows(s: State, buf: Traders, tx: Transaction, a: Address)
    requires tx.kind == Unlock
    ensures var (ok, buf') := UnlockSimulated(s, buf, tx); Follows(s, buf, buf', tx, ok, a)
  {
    hide State.Available, State.Frozen, State.Nonce, Transaction.GasCap;
  }

  lemma PledgeFollows(s: State, buf: Traders, tx: Transaction, a: Address)
    requires tx.kind == Pledge || tx.kind == EvmContract || tx.kind == EvmKto
    ensures var (ok, buf') := PledgeSimulated(s, buf, tx); Follows(s, buf, buf', tx, ok, a)
  {
    hide State.Available, State.Frozen, State.Nonce, Transaction.GasCap;
  }

  lemma RedeemFollows(s: State, buf: Traders, tx: Transaction, a: Address)
    requires tx.kind == PledgeBreak
    ensures var (ok, buf') := RedeemSimulated(s, buf, tx); Follows(s, buf, buf', tx, ok, a)
  {
    hide State.Available, State.Frozen, State.Nonce, Transaction.GasCap;
  }

  lemma SimulatedFollows(s: State, buf: Traders, tx: Transaction, a: Address)
    ensures var (ok, buf') := Simulated(s, buf, tx); Follows(s, buf, buf', tx, ok, a)
  {
    if tx.kind == Transfer {
      TransferFollows(s, buf, tx, a);
    } else if tx.kind == Lock {
      LockFollows(s, buf, tx, a);
    } else if tx.kind == Unlock {
      UnlockFollows(s, buf, tx, a);
    } else if tx.kind == Pledge || tx.kind == EvmContract || tx.kind == EvmKto {
      PledgeFollows(s, buf, tx, a);
    } else if tx.kind == PledgeBreak {
      RedeemFollows(s, buf, tx, a);
    } else {
      NothingFollows(s, buf, tx, a);
    }
  }

  lemma NothingFollows(s: State, buf: Traders, tx: Transaction, a: Address)
    ensures Follows(s, buf, buf, tx, false, a)
  {
    hide State.Available, State.Frozen, State.Nonce, Transaction.GasCap;
  }

  // ----- sums over the picked transactions -----

  function AvailableSum(txs: seq<SignedTransaction>, a: Address): int {
    if txs == [] then 0 else AvailableSum(txs[..|txs| - 1], a) + AvailableChange(txs[|txs| - 1].tx, a)
  }

  function LockedSum(txs: seq<SignedTransaction>, a: Address): int {
    if txs == [] then 0 else LockedSum(txs[..|txs| - 1], a) + LockedChange(txs[|txs| - 1].tx, a)
  }

  function UnlockedSum(txs: seq<SignedTransaction>, a: Address): nat {
    if txs == [] then 0 else UnlockedSum(txs[..|txs| - 1], a) + Unlocks(txs[|txs| - 1].tx, a)
  }

  function StepSum(txs: seq<SignedTransaction>, a: Address): (n: nat)
    ensures n <= |txs|
  {
    if txs == [] then 0 else StepSum(txs[..|txs| - 1], a) + NonceSteps(txs[|txs| - 1].tx, a)
  }

  lemma SumsStep(txs: seq<SignedTransaction>, st: SignedTransaction, a: Address)
    ensures AvailableSum(txs + [st], a) == AvailableSum(txs, a) + AvailableChange(st.tx, a)
    ensures LockedSum(txs + [st], a) == LockedSum(txs, a) + LockedChange(st.tx, a)
    ensures UnlockedSum(txs + [st], a) == UnlockedSum(txs, a) + Unlocks(st.tx, a)
    ensures StepSum(txs + [st], a) == StepSum(txs, a) + NonceSteps(st.tx, a)
  {
    hide AvailableChange, LockedChange, Unlocks, NonceSteps;
    assert (txs + [st])[..|txs|] == txs;
  }

  /** The entry of a is the chain's, moved by the picked transactions. */
  ghost predicate Known(s: State, buf: Traders, taken: seq<SignedTransaction>, a: Address) {
    && View(s, buf, a).Some? == s.Available(a).Some?
    && (View(s, buf, a).Some? ==>
          var t := View(s, buf, a).value;
          && t.available == s.Available(a).value + AvailableSum(taken, a)
          && t.locked == s.Frozen(a) + LockedSum(taken, a) && t.nextNonce == s.Nonce(a) + StepSum(taken, a))
  }

  /** The same for the amount frozen for the one notary that a unlocks from. */
  ghost predicate KnownSingle(s: State, buf: Traders, taken: seq<SignedTransaction>, a: Address, notary: Address) {
    View(s, buf, a).Some? ==>
      var t := View(s, buf, a).value;
      if t.singleExists then t.single == At(s.frozenFor, Hold(a, notary)) - UnlockedSum(taken, a)
      else UnlockedSum(taken, a) == 0
  }

  lemma KnownAtStart(s: State, a: Address, notary: Address)
    ensures Known(s, map[], [], a) && KnownSingle(s, map[], [], a, notary)
  {
  }

  lemma SameKnown(s: State, buf: Traders, buf': Traders, taken: seq<SignedTransaction>, a: Address, notary: Address)
    requires View(s, buf', a) == View(s, buf, a)
    ensures Known(s, buf', taken, a) == Known(s, buf, taken, a)
    ensures KnownSingle(s, buf', taken, a, notary) == KnownSingle(s, buf, taken, a, notary)
  {
    hide View, AvailableSum, LockedSum, UnlockedSum, StepSum, State.Available, State.Frozen, State.Nonce;
  }

  lemma KnownFollows(s: State, buf: Traders, buf': Traders, taken: seq<SignedTransaction>, st: SignedTransaction,
                     ok: bool, a: Address)
    requires Follows(s, buf, buf', st.tx, ok, a) && Known(s, buf, taken, a)
    requires s.Nonce(a) + |taken| < MaxUint64
    ensures Known(s, buf', if ok then taken + [st] else taken, a)
  {
    SumsStep(taken, st, a);
    hide View, AvailableSum, LockedSum, UnlockedSum, State.Available, State.Frozen, State.Nonce;
    hide AvailableChange, LockedChange, Unlocks;
  }

  lemma SingleFollows(s: State, buf: Traders, buf': Traders, taken: seq<SignedTransaction>, st: SignedTransaction,
                      ok: bool, a: Address, notary: Address)
    requires Follows(s, buf, buf', st.tx, ok, a) && KnownSingle(s, buf, taken, a, notary)
    requires st.tx.kind == Unlock && st.Caller() == a ==> st.tx.to == notary
    ensures KnownSingle(s, buf', if ok then taken + [st] else taken, a, notary)
  {
    SumsStep(taken, st, a);
    hide View, AvailableSum, LockedSum, UnlockedSum, StepSum, State.Available, State.Frozen, State.Nonce;
    hide AvailableChange, LockedChange, NonceSteps, Wrap;
  }

  /** One turn of the loop either keeps the views or moves on by the transaction. */
  lemma TurnFollows(s: State, L: seq<SignedTransaction>, i: nat, a: Address)
    requires i < |L|
    ensures var before, after, st := Selected(s, L, i), Selected(s, L, i + 1), L[|L| - 1 - i];
            || (after.taken == before.taken && View(s, after.buf, a) == View(s, before.buf, a))
            || exists buf, ok ::
                 && View(s, buf, a) == View(s, before.buf, a) && Follows(s, buf, after.buf, st.tx, ok, a)
                 && after.taken == (if ok then before.taken + [st] else before.taken)
                 && |before.taken| < PendingLimit
  {
    SelectedStep(s, L, i);
    hide Wrap, View, Simulated, Selected, Follows;
    var before, st := Selected(s, L, i), L[|L| - 1 - i];
    if |before.taken| < PendingLimit {
      var (info, b1) := TraderInfo(s, before.buf, st.Caller(), None);
      CallerLookedUp(s, before.buf, st.Caller());
      SimulatedFollows(s, b1, st.tx, a);
      var (ok, b2) := Simulated(s, b1, st.tx);
      assert Follows(s, b1, b2, st.tx, ok, a);
    }
  }

  lemma {:induction false} KnownNumbers(s: State, L: seq<SignedTransaction>, i: nat, a: Address, notary: Address)
    requires i <= |L| && s.Nonce(a) + PendingLimit <= MaxUint64
    ensures Known(s, Selected(s, L, i).buf, Selected(s, L, i).taken, a)
    ensures (forall k :: |L| - i <= k < |L| && L[k].tx.kind == Unlock && L[k].Caller() == a ==> L[k].tx.to == notary) ==>
              KnownSingle(s, Selected(s, L, i).buf, Selected(s, L, i).taken, a, notary)
    decreases i
  {
    hide Wrap, View, Selected, Follows, Known, KnownSingle;
    if i == 0 {
      SelectedStart(s, L);
      KnownAtStart(s, a, notary);
    } else {
      KnownNumbers(s, L, i - 1, a, notary);
      TurnFollows(s, L, i - 1, a);
      var before, after, st := Selected(s, L, i - 1), Selected(s, L, i), L[|L| - i];
      if after.taken == before.taken && View(s, after.buf, a) == View(s, before.buf, a) {
        SameKnown(s, before.buf, after.buf, before.taken, a, notary);
      } else {
        var buf, ok :|
          && View(s, buf, a) == View(s, before.buf, a) && Follows(s, buf, after.buf, st.tx, ok, a)
          && after.taken == (if ok then before.taken + [st] else before.taken)
          && |before.taken| < PendingLimit;
        SameKnown(s, before.buf, buf, before.taken, a, notary);
        KnownFollows(s, buf, after.buf, before.taken, st, ok, a);
        if KnownSingle(s, before.buf, before.taken, a, notary)
           && (st.tx.kind == Unlock && st.Caller() == a ==> st.tx.to == notary) {
          SingleFollows(s, buf, after.buf, before.taken, st, ok, a, notary);
        }
      }
    }
  }

  // ----- picking by numbers -----

  /** Whether the chain's accounts, moved by the transactions picked so far, cover the next one. */
  predicate CoveredAfter(s: State, taken: seq<SignedTransaction>, tx: Transaction) {
    && s.Available(tx.from).Some?
    && var available, gas := s.Available(tx.from).value + AvailableSum(taken, tx.from), tx.GasCap();
       var locked := s.Frozen(tx.from) + LockedSum(taken, tx.from);
       if tx.kind == Transfer then
         && tx.amount + gas <= available && s.Available(tx.to).Some?
         && s.Available(tx.to).value + AvailableSum(taken, tx.to) + tx.amount <= MaxUint64
       else if tx.kind == Lock then
         tx.amount + gas <= available && locked + tx.amount <= MaxUint64
       else if tx.kind == Unlock then
         && tx.amount <= At(s.frozenFor, Hold(tx.from, tx.to)) - UnlockedSum(taken, tx.from)
         && tx.amount <= locked && gas <= available && available - gas + tx.amount <= MaxUint64
       else if tx.kind == Pledge || tx.kind == EvmContract || tx.kind == EvmKto then
         tx.amount + gas <= available
       else
         tx.kind == PledgeBreak && tx.amount == 0 && gas <= available
  }

  function NextAfter(s: State, taken: seq<SignedTransaction>, a: Address): int {
    if s.Available(a).Some? then s.Nonce(a) + StepSum(taken, a) else 0
  }

  /** The nonces have room, and an unlock asks the notary that its caller's unlocks behind it ask. */
  ghost predicate Answerable(s: State, L: seq<SignedTransaction>, idx: nat)
    requires idx < |L|
  {
    && s.Nonce(L[idx].Caller()) + PendingLimit <= MaxUint64 && s.Nonce(L[idx].tx.to) + PendingLimit <= MaxUint64
    && (L[idx].tx.kind == Unlock ==>
          forall k :: idx < k < |L| && L[k].tx.kind == Unlock && L[k].Caller() == L[idx].Caller() ==>
            L[k].tx.to == L[idx].tx.to)
  }

  lemma CoveredByKnown(s: State, buf: Traders, taken: seq<SignedTransaction>, tx: Transaction)
    requires Known(s, buf, taken, tx.from) && Known(s, buf, taken, tx.to)
    requires tx.kind == Unlock ==> KnownSingle(s, buf, taken, tx.from, tx.to)
    ensures Covers(s, buf, tx) <==> CoveredAfter(s, taken, tx)
    ensures NextAfter(s, taken, tx.from) ==
              if View(s, buf, tx.from).Some? then View(s, buf, tx.from).value.nextNonce else 0
  {
    hide Wrap, View, AvailableSum, LockedSum, UnlockedSum, StepSum, State.Available, State.Frozen, State.Nonce;
  }

  /** The main result: a transaction reached below the limit is picked exactly when its nonce follows those picked of
      its caller and the chain's accounts, moved by all picked so far, cover it. Otherwise it is recorded for removal
      unless its nonce is still to come. */
  lemma PickedByNumbers(s: State, L: seq<SignedTransaction>, i: nat)
    requires i < |L| && |Selected(s, L, i).taken| < PendingLimit && Answerable(s, L, |L| - 1 - i)
    ensures var before, after, idx := Selected(s, L, i), Selected(s, L, i + 1), |L| - 1 - i;
            var st := L[idx];
            var next := NextAfter(s, before.taken, st.Caller());
            if st.Nonce() == next && CoveredAfter(s, before.taken, st.tx) then
              after.taken == before.taken + [st] && after.bad == before.bad
            else if st.Nonce() <= next then
              after.taken == before.taken && after.bad == before.bad + [idx]
            else
              after.taken == before.taken && after.bad == before.bad
  {
    hide Wrap, View, Selected, Known, KnownSingle, Covers, CoveredAfter, NextAfter;
    var before, st := Selected(s, L, i), L[|L| - 1 - i];
    KnownNumbers(s, L, i, st.tx.from, st.tx.to);
    KnownNumbers(s, L, i, st.tx.to, st.tx.to);
    CoveredByKnown(s, before.buf, before.taken, st.tx);
    PickedExactly(s, L, i);
  }

  /** The last i transactions, from the end. */
  function FromEnd(L: seq<SignedTransaction>, i: nat): (T: seq<SignedTransaction>)
    requires i <= |L|
    ensures |T| == i && forall k :: 0 <= k < i ==> T[k] == L[|L| - 1 - k]
  {
    if i == 0 then [] else FromEnd(L, i - 1) + [L[|L| - i]]
  }

  /** The transaction is next, and covered, when all behind it have been picked. */
  ghost predicate InTurn(s: State, L: seq<SignedTransaction>, idx: nat)
    requires idx < |L|
  {
    var st, taken := L[idx], FromEnd(L, |L| - 1 - idx);
    Answerable(s, L, idx) && st.Nonce() == NextAfter(s, taken, st.Caller()) && CoveredAfter(s, taken, st.tx)
  }

  /** A queue whose every transaction is next and covered at its turn is picked whole, up to the limit. */
  lemma {:induction false} PickedWhole(s: State, L: seq<SignedTransaction>, i: nat)
    requires i <= |L| && forall idx: nat :: |L| - i <= idx < |L| && |L| - 1 - idx < PendingLimit ==> InTurn(s, L, idx)
    ensures var n := if i < PendingLimit then i else PendingLimit;
            Selected(s, L, i).taken == FromEnd(L, n) && Selected(s, L, i).bad == []
    decreases i
  {
    hide Wrap, Selected, Answerable, CoveredAfter, NextAfter;
    if i == 0 {
      SelectedStart(s, L);
    } else {
      PickedWhole(s, L, i - 1);
      if i <= PendingLimit {
        assert InTurn(s, L, |L| - i);
        PickedByNumbers(s, L, i - 1);
      } else {
        SelectedFull(s, L, i - 1, i);
      }
    }
  }
}
