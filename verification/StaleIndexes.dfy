/** What Pending's clean-up removes: it takes out one recorded index after another from a queue that every removal
    may reorder. When exactly the rejected transactions go, and when they do not. */
module StaleIndexes {
  import opened Options
  import opened Transactions
  import opened QueueOrder
  import opened Ledger
  import opened Pool

  /** Indexes into a list of n transactions, from the end towards the front, as Pending records them. */
  predicate Falling(bad: seq<int>, n: nat) {
    && (forall k :: 0 <= k < |bad| ==> 0 <= bad[k] < n)
    && (forall j, k :: 0 <= j < k < |bad| ==> bad[j] > bad[k])
  }

  /** The transactions that stand at the indexes before anything is removed. */
  ghost function Named(L: seq<SignedTransaction>, bad: seq<int>): multiset<SignedTransaction>
    requires forall k :: 0 <= k < |bad| ==> 0 <= bad[k] < |L|
  {
    if bad == [] then multiset{} else Named(L, bad[..|bad| - 1]) + multiset{L[bad[|bad| - 1]]}
  }

  /** Removing the indexes one after another takes out exactly the transactions that stood there at first. */
  ghost predicate ExactlyNamed(L: seq<SignedTransaction>, bad: seq<int>)
    requires Falling(bad, |L|)
  {
    multiset(RemovedAll(L, bad)) == multiset(L) - Named(L, bad)
  }

  /** The guard of down stops y in front of x, where y stands at index i. */
  ghost predicate Stops(L: seq<SignedTransaction>, i: int, x: SignedTransaction)
    requires 0 <= i < |L|
  {
    L[i].Caller() == x.Caller() || EarlierBelow(L, i, L[i]) || L[i].GasCap() <= x.GasCap()
  }

  /** The guard stops each transaction in front of each one that removals may bring up behind it. */
  ghost predicate Guarded(L: seq<SignedTransaction>) {
    forall i, j :: 0 <= i < j < |L| && (j > i + 1 || j + 1 < |L|) ==> Stops(L, i, L[j])
  }

  // ----- the list without the indexes, in order -----

  function Dropped(L: seq<SignedTransaction>, bad: seq<int>): (D: seq<SignedTransaction>)
    requires Falling(bad, |L|)
    ensures |D| == |L| - |bad|
    ensures bad != [] ==> bad[|bad| - 1] + |bad| <= |L|
  {
    if bad == [] then L
    else
      var n := |bad| - 1;
      assert n > 0 ==> bad[..n][n - 1] == bad[n - 1] > bad[n];
      Without(Dropped(L, bad[..n]), bad[n])
  }

  lemma FallingFront(bad: seq<int>, n: nat, k: nat)
    requires Falling(bad, n) && k < |bad|
    ensures Falling(bad[..k], n) && 0 <= bad[k] < n && bad[k] + k < n
    ensures k > 0 ==> bad[k] < bad[..k][k - 1]
  {
    if k > 0 {
      FallingFront(bad, n, k - 1);
    }
  }

  lemma NothingDropped(L: seq<SignedTransaction>, bad: seq<int>)
    requires bad == []
    ensures Falling(bad, |L|) && Dropped(L, bad) == L && Named(L, bad) == multiset{}
  {
  }

  lemma DroppedStep(L: seq<SignedTransaction>, bad: seq<int>)
    requires Falling(bad, |L|) && bad != []
    ensures var n := |bad| - 1;
            && Falling(bad[..n], |L|) && bad[n] < |Dropped(L, bad[..n])| && 0 <= bad[n] < |L|
            && Dropped(L, bad) == Without(Dropped(L, bad[..n]), bad[n])
            && Named(L, bad) == Named(L, bad[..n]) + multiset{L[bad[n]]}
  {
    FallingFront(bad, |L|, |bad| - 1);
  }

  /** In front of the last index nothing has changed; from there on every transaction comes from farther behind. */
  lemma {:induction false} DroppedAt(L: seq<SignedTransaction>, bad: seq<int>, i: int) returns (j: int)
    requires Falling(bad, |L|) && 0 <= i < |L| - |bad|
    ensures i <= j < |L| && Dropped(L, bad)[i] == L[j]
    ensures bad == [] || i < bad[|bad| - 1] ==> j == i
    ensures bad != [] && i >= bad[|bad| - 1] ==> j > i
    decreases |bad|
  {
    hide Dropped;
    if bad == [] {
      NothingDropped(L, bad);
      return i;
    }
    var n := |bad| - 1;
    FallingFront(bad, |L|, n);
    DroppedStep(L, bad);
    j := DroppedAt(L, bad[..n], if i < bad[n] then i else i + 1);
  }

  lemma WithoutContents(D: seq<SignedTransaction>, r: int)
    requires 0 <= r < |D|
    ensures multiset(Without(D, r)) + multiset{D[r]} == multiset(D)
  {
    assert D == D[..r] + [D[r]] + D[r + 1..];
  }

  lemma {:induction false} DroppedContents(L: seq<SignedTransaction>, bad: seq<int>)
    requires Falling(bad, |L|)
    ensures multiset(Dropped(L, bad)) + Named(L, bad) == multiset(L)
    decreases |bad|
  {
    hide Without, Falling, Dropped, Named;
    if bad == [] {
      NothingDropped(L, bad);
    } else {
      var n := |bad| - 1;
      FallingFront(bad, |L|, n);
      DroppedContents(L, bad[..n]);
      DroppedStep(L, bad);
      var j := DroppedAt(L, bad[..n], bad[n]);
      WithoutContents(Dropped(L, bad[..n]), bad[n]);
    }
  }

  // ----- one removal -----

  /** The guard stops every move of the removal's loop. */
  ghost predicate Quiet(M: seq<SignedTransaction>, r: int)
    requires 0 <= r <= |M|
  {
    forall i :: 0 <= i < r && i + 1 < |M| ==> Below(M, i + 1, M[i])
  }

  lemma {:induction false} SiftBackQuiet(M: seq<SignedTransaction>, r: int)
    requires 0 <= r <= |M| && Quiet(M, r)
    ensures SiftBack(M, r - 1) == M
    decreases r
  {
    if r > 0 {
      SiftDownStep(M, r - 1);
      SiftBackQuiet(M, r - 1);
    }
  }

  lemma {:induction false} SiftDownFront(M: seq<SignedTransaction>, i: int, k: int)
    requires 0 <= k < i < |M|
    ensures SiftDown(M, i)[k] == M[k]
    decreases |M| - i
  {
    hide Below;
    SiftDownStep(M, i);
    if i + 1 < |M| && !Below(M, i + 1, M[i]) {
      SiftDownFront(SwapAt(M, i), i + 1, k);
    }
  }

  /** A move puts the next transaction into the place of the one that goes. */
  lemma SiftDownMoves(M: seq<SignedTransaction>, i: int)
    requires Ordered(M) && 0 <= i < |M|
    ensures if i + 1 < |M| && !Below(M, i + 1, M[i]) then SiftDown(M, i)[i] != M[i] else SiftDown(M, i) == M
  {
    hide Below, Descending;
    SiftDownStep(M, i);
    if i + 1 < |M| && !Below(M, i + 1, M[i]) {
      SiftDownFront(SwapAt(M, i), i + 1, i);
      assert KeyOf(M[i]) != KeyOf(M[i + 1]);
    }
  }

  lemma QuietStep(M: seq<SignedTransaction>, r: int)
    requires 0 < r <= |M|
    ensures Quiet(M, r) <==> Quiet(M, r - 1) && (r < |M| ==> Below(M, r, M[r - 1]))
  {
    hide Below;
  }

  /** A loop that moves something leaves some index with another transaction: the last one it moves away from. */
  lemma {:induction false} SiftBackMoves(M: seq<SignedTransaction>, r: nat) returns (i: nat)
    requires r <= |M| && Ordered(M) && !Quiet(M, r)
    ensures i < r && SiftBack(M, r - 1)[i] != M[i]
    decreases r
  {
    hide Below, SiftDown, Ordered, Quiet;
    if r == 0 {
      NothingMoves(M);
      assert false;
    }
    var M1 := SiftDown(M, r - 1);
    QuietStep(M, r);
    SiftDownMoves(M, r - 1);
    DownOrdered(M, r - 1);
    if Quiet(M1, r - 1) {
      SiftBackQuiet(M1, r - 1);
      return r - 1;
    }
    i := SiftBackMoves(M1, r - 1);
    SiftDownFront(M, r - 1, i);
  }

  lemma NothingMoves(M: seq<SignedTransaction>)
    ensures Quiet(M, 0)
  {
  }

  lemma DownOrdered(M: seq<SignedTransaction>, i: int)
    requires Ordered(M) && 0 <= i < |M|
    ensures Ordered(SiftDown(M, i))
  {
    SiftDownDescending(M, i);
  }

  /** The first k removals left the list without their indexes, in order. */
  ghost predicate InTurn(L: seq<SignedTransaction>, bad: seq<int>, k: nat)
    requires k <= |bad|
  {
    Falling(bad[..k], |L|) && RemovedAll(L, bad[..k]) == Dropped(L, bad[..k])
  }

  /** The guard stops every move of the k-th removal, when those before were in order. */
  ghost predicate QuietTurn(L: seq<SignedTransaction>, bad: seq<int>, k: nat)
    requires 0 < k <= |bad|
  {
    && Falling(bad[..k], |L|) && bad[k - 1] <= |Dropped(L, bad[..k])|
    && Quiet(Dropped(L, bad[..k]), bad[k - 1])
  }

  lemma {:induction false} DroppedOrdered(L: seq<SignedTransaction>, bad: seq<int>)
    requires Ordered(L) && Falling(bad, |L|)
    ensures Ordered(Dropped(L, bad))
    decreases |bad|
  {
    hide Ordered, Falling, Without;
    if bad != [] {
      var n := |bad| - 1;
      FallingFront(bad, |L|, n);
      DroppedOrdered(L, bad[..n]);
      WithoutOrdered(Dropped(L, bad[..n]), bad[n]);
    }
  }

  /** While the earlier removals went in order, the next one does if and only if the guard stops all its moves. */
  lemma TurnQuiet(L: seq<SignedTransaction>, bad: seq<int>)
    requires Ordered(L) && Falling(bad, |L|) && bad != []
    requires var front := bad[..|bad| - 1]; Falling(front, |L|) && RemovedAll(L, front) == Dropped(L, front)
    ensures bad[|bad| - 1] <= |Dropped(L, bad)|
    ensures RemovedAll(L, bad) == Dropped(L, bad) <==> Quiet(Dropped(L, bad), bad[|bad| - 1])
    ensures multiset(RemovedAll(L, bad)) == multiset(Dropped(L, bad))
  {
    hide Ordered, Falling, Quiet, SiftBack;
    var r := bad[|bad| - 1];
    FallingFront(bad, |L|, |bad| - 1);
    DroppedOrdered(L, bad);
    var M := Dropped(L, bad);
    assert RemovedAll(L, bad) == SiftBack(M, r - 1);
    if Quiet(M, r) {
      SiftBackQuiet(M, r);
    } else {
      var i := SiftBackMoves(M, r);
    }
  }

  lemma TurnStep(L: seq<SignedTransaction>, bad: seq<int>, k: nat)
    requires Ordered(L) && Falling(bad, |L|) && 0 < k <= |bad| && InTurn(L, bad, k - 1)
    ensures InTurn(L, bad, k) <==> QuietTurn(L, bad, k)
  {
    hide Ordered, Quiet, RemovedAll, Dropped;
    assert bad[..k][..k - 1] == bad[..k - 1];
    TurnQuiet(L, bad[..k]);
  }

  lemma {:induction false} QuietTurns(L: seq<SignedTransaction>, bad: seq<int>, k: nat)
    requires Ordered(L) && Falling(bad, |L|) && k <= |bad|
    requires forall i: nat :: 0 < i <= k ==> QuietTurn(L, bad, i)
    ensures InTurn(L, bad, k)
    decreases k
  {
    if k == 0 {
      assert bad[..0] == [];
    } else {
      hide Ordered, Falling, QuietTurn, InTurn;
      QuietTurns(L, bad, k - 1);
      TurnStep(L, bad, k);
    }
  }

  /** At every stage the list is the old one without the indexes, in order, if and only if the guard of down stops
      every move of every removal. */
  lemma QuietInTurn(L: seq<SignedTransaction>, bad: seq<int>)
    requires Ordered(L) && Falling(bad, |L|)
    ensures (forall k: nat :: k <= |bad| ==> InTurn(L, bad, k)) <==>
            (forall k: nat :: 0 < k <= |bad| ==> QuietTurn(L, bad, k))
  {
    hide Ordered, Falling, QuietTurn, InTurn;
    if forall k: nat :: k <= |bad| ==> InTurn(L, bad, k) {
      forall k: nat | 0 < k <= |bad| ensures QuietTurn(L, bad, k) {
        assert InTurn(L, bad, k - 1) && InTurn(L, bad, k);
        TurnStep(L, bad, k);
      }
    }
    if forall k: nat :: 0 < k <= |bad| ==> QuietTurn(L, bad, k) {
      forall k: nat | k <= |bad| ensures InTurn(L, bad, k) {
        QuietTurns(L, bad, k);
      }
    }
  }

  // ----- the guard -----

  /** Behind index i the removals bring up some L[j]; whether L[i] moves past it is what Stops says. */
  lemma BelowIsStops(L: seq<SignedTransaction>, bad: seq<int>, i: nat) returns (j: nat)
    requires Ordered(L) && Falling(bad, |L|) && bad != [] && i < bad[|bad| - 1] && i + 1 < |L| - |bad|
    ensures i < j < |L| && (if i + 1 < bad[|bad| - 1] then j == i + 1 else j > i + 1)
    ensures Dropped(L, bad)[i + 1] == L[j] && Dropped(L, bad)[i] == L[i]
    ensures Below(Dropped(L, bad), i + 1, L[i]) <==> Stops(L, i, L[j])
  {
    hide Falling, Dropped, Wrap;
    var M := Dropped(L, bad);
    j := DroppedAt(L, bad, i + 1);
    forall p | 0 <= p <= i ensures M[p] == L[p] {
      var p' := DroppedAt(L, bad, p);
    }
    assert EarlierBelow(M, i + 1, L[i]) <==> EarlierBelow(L, i, L[i]);
  }

  lemma GuardedQuiet(L: seq<SignedTransaction>, bad: seq<int>)
    requires Ordered(L) && Guarded(L) && Falling(bad, |L|) && bad != []
    ensures bad[|bad| - 1] <= |L| - |bad| && Quiet(Dropped(L, bad), bad[|bad| - 1])
  {
    hide Below, Dropped, Ordered, Stops;
    FallingFront(bad, |L|, |bad| - 1);
    var M, r := Dropped(L, bad), bad[|bad| - 1];
    forall i: int | 0 <= i < r && i + 1 < |M| ensures Below(M, i + 1, M[i]) {
      var j := BelowIsStops(L, bad, i);
      assert j > i + 1 || j + 1 < |L|;
    }
  }

  /** In a guarded queue every clean-up takes out exactly the named transactions and leaves the others in order. */
  lemma GuardedExact(L: seq<SignedTransaction>, bad: seq<int>)
    requires Ordered(L) && Guarded(L) && Falling(bad, |L|)
    ensures RemovedAll(L, bad) == Dropped(L, bad) && ExactlyNamed(L, bad)
  {
    hide Ordered, Guarded, Dropped, Quiet, Named;
    forall k: nat | 0 < k <= |bad| ensures QuietTurn(L, bad, k) {
      GuardedQuiet(L, bad[..k]);
    }
    QuietTurns(L, bad, |bad|);
    assert bad[..|bad|] == bad;
    DroppedContents(L, bad);
  }

  /** Whatever indexes are recorded, exactly the named transactions go. */
  ghost predicate Settled(L: seq<SignedTransaction>) {
    forall bad :: Falling(bad, |L|) ==> ExactlyNamed(L, bad)
  }

  lemma FallingMore(bad: seq<int>, n: nat, i: nat)
    requires Falling(bad, n) && (if bad == [] then i < n else i < bad[|bad| - 1])
    ensures Falling(bad + [i], n) && (bad + [i])[..|bad|] == bad
  {
  }

  lemma OtherTaken(all: multiset<SignedTransaction>, left: multiset<SignedTransaction>,
                   named: multiset<SignedTransaction>, e: SignedTransaction, x: SignedTransaction)
    requires left + named == all && e in left && e != x
    ensures left - multiset{e} != all - (named + multiset{x})
  {
    assert (left - multiset{e})[e] == left[e] - 1;
    assert (all - (named + multiset{x}))[e] == left[e];
  }

  /** When a removal of a settled queue moved something, the index that shows it would remove a wrong transaction. */
  lemma MovedWrong(L: seq<SignedTransaction>, bad: seq<int>, i: nat)
    requires Ordered(L) && Falling(bad, |L|) && bad != [] && i < bad[|bad| - 1] <= |L| - |bad|
    requires multiset(RemovedAll(L, bad)) == multiset(Dropped(L, bad))
    requires i < |RemovedAll(L, bad)| && RemovedAll(L, bad)[i] != Dropped(L, bad)[i]
    ensures Falling(bad + [i], |L|) && !ExactlyNamed(L, bad + [i])
  {
    hide Ordered, Dropped, Removed, Falling, Named;
    FallingMore(bad, |L|, i);
    var E, bad' := RemovedAll(L, bad), bad + [i];
    RemovedContents(E, i);
    DroppedContents(L, bad);
    DroppedStep(L, bad');
    var j := DroppedAt(L, bad, i);
    OtherTaken(multiset(L), multiset(E), Named(L, bad), E[i], L[i]);
  }

  lemma {:induction false} SettledQuiet(L: seq<SignedTransaction>, bad: seq<int>)
    requires Ordered(L) && Settled(L) && Falling(bad, |L|)
    ensures RemovedAll(L, bad) == Dropped(L, bad)
    ensures bad != [] ==> bad[|bad| - 1] <= |L| - |bad| && Quiet(Dropped(L, bad), bad[|bad| - 1])
    decreases |bad|
  {
    hide Ordered, Dropped, Quiet, Falling, ExactlyNamed;
    if bad == [] {
      NothingDropped(L, bad);
    } else {
      FallingFront(bad, |L|, |bad| - 1);
      SettledQuiet(L, bad[..|bad| - 1]);
      TurnQuiet(L, bad);
      var M, r := Dropped(L, bad), bad[|bad| - 1];
      if !Quiet(M, r) {
        DroppedOrdered(L, bad);
        var i := ShownMove(L, bad);
        MovedWrong(L, bad, i);
        assert false;
      }
    }
  }

  lemma ShownMove(L: seq<SignedTransaction>, bad: seq<int>) returns (i: nat)
    requires Ordered(L) && Falling(bad, |L|) && bad != []
    requires var front := bad[..|bad| - 1]; Falling(front, |L|) && RemovedAll(L, front) == Dropped(L, front)
    requires bad[|bad| - 1] <= |L| - |bad| && !Quiet(Dropped(L, bad), bad[|bad| - 1])
    ensures i < bad[|bad| - 1] && |RemovedAll(L, bad)| == |L| - |bad|
    ensures RemovedAll(L, bad)[i] != Dropped(L, bad)[i]
  {
    hide Ordered, Falling, Quiet, SiftBack;
    FallingFront(bad, |L|, |bad| - 1);
    DroppedOrdered(L, bad);
    i := SiftBackMoves(Dropped(L, bad), bad[|bad| - 1]);
  }

  /** Between i and j everything is recorded, or for neighbours the transaction behind them. */
  function Clearing(i: nat, j: nat): (bad: seq<int>)
    requires i < j
    ensures bad != [] && (if j == i + 1 then bad == [i + 2] else |bad| == j - i - 1 && bad[|bad| - 1] == i + 1)
    ensures forall n: nat :: j < n && i + 2 < n ==> Falling(bad, n)
  {
    if j == i + 1 then [i + 2] else seq(j - 1 - i, k requires 0 <= k < j - 1 - i => j - 1 - k)
  }

  /** The main result: in an ordered queue, exactly the named transactions go for all recorded indexes if and only if
      the guard of down stops each transaction in front of each one that removals can bring up behind it. */
  lemma SettledIsGuarded(L: seq<SignedTransaction>)
    requires Ordered(L)
    ensures Settled(L) <==> Guarded(L)
  {
    hide Ordered, Dropped, Quiet, Falling, ExactlyNamed, Stops;
    if Guarded(L) {
      forall bad | Falling(bad, |L|) ensures ExactlyNamed(L, bad) {
        GuardedExact(L, bad);
      }
    }
    if Settled(L) {
      forall i: nat, j: nat | i < j < |L| && (j > i + 1 || j + 1 < |L|) ensures Stops(L, i, L[j]) {
        SettledStops(L, i, j);
      }
    }
  }

  lemma SettledStops(L: seq<SignedTransaction>, i: nat, j: nat)
    requires Ordered(L) && Settled(L) && i < j < |L| && (j > i + 1 || j + 1 < |L|)
    ensures Stops(L, i, L[j])
  {
    hide Ordered, Settled, Dropped, Falling, Stops, Below;
    var bad := Clearing(i, j);
    ClearedNext(L, i, j);
    SettledQuiet(L, bad);
    var j' := BelowIsStops(L, bad, i);
  }

  lemma OneDropped(L: seq<SignedTransaction>, r: nat)
    requires r < |L|
    ensures Falling([r], |L|) && Dropped(L, [r]) == Without(L, r)
  {
    hide Dropped;
    DroppedStep(L, [r]);
    NothingDropped(L, [r][..0]);
  }

  lemma ClearingFront(i: nat, j: nat)
    requires i + 1 < j
    ensures var bad := Clearing(i, j);
            bad[..|bad| - 1] == if j == i + 2 then [] else Clearing(i + 1, j)
  {
  }

  lemma CutOne(L: seq<SignedTransaction>, i: nat, j: nat)
    requires i + 1 < j < |L|
    ensures Without(L[..i + 2] + L[j..], i + 1) == L[..i + 1] + L[j..]
    ensures j == i + 2 ==> L[..i + 2] + L[j..] == L
  {
  }

  lemma {:induction false} ClearedList(L: seq<SignedTransaction>, i: nat, j: nat)
    requires i + 1 < j < |L|
    ensures Falling(Clearing(i, j), |L|) && Dropped(L, Clearing(i, j)) == L[..i + 1] + L[j..]
    decreases j - i
  {
    hide Dropped, Falling, Clearing, Without;
    var bad := Clearing(i, j);
    DroppedStep(L, bad);
    ClearingFront(i, j);
    if j == i + 2 {
      NothingDropped(L, []);
      CutOne(L, i, j);
    } else {
      ClearedList(L, i + 1, j);
      CutOne(L, i, j);
    }
  }

  /** With everything between them gone, L[j] comes next behind L[i]. */
  lemma ClearedNext(L: seq<SignedTransaction>, i: nat, j: nat)
    requires i < j < |L| && (j > i + 1 || j + 1 < |L|)
    ensures var bad := Clearing(i, j);
            Falling(bad, |L|) && i + 1 < |L| - |bad| && Dropped(L, bad)[i + 1] == L[j]
  {
    if j == i + 1 {
      OneDropped(L, i + 2);
    } else {
      ClearedList(L, i, j);
      hide Dropped, Falling, Clearing;
      assert (L[..i + 1] + L[j..])[i + 1] == L[j];
    }
  }

  /** With one transaction per caller the queue is sorted by price, and nothing ever moves. */
  lemma PriceQueueGuarded(L: seq<SignedTransaction>)
    requires PriceQueue(L)
    ensures Ordered(L) && Guarded(L)
  {
    hide Wrap;
  }

  // ----- what Pending removes -----

  /** The loop of Pending records the index: the nonce has been used, or the simulation fails. */
  ghost predicate Rejects(s: State, sel: Selection, st: SignedTransaction) {
    var (info, b1) := TraderInfo(s, sel.buf, st.Caller(), None);
    var next: U64 := if info.None? then 0 else info.value.nextNonce;
    st.Nonce() < next || (st.Nonce() == next && !Simulated(s, b1, st.tx).0)
  }

  lemma ConsideredParts(s: State, sel: Selection, st: SignedTransaction, idx: int)
    ensures var sel' := Considered(s, sel, st, idx);
            if Rejects(s, sel, st) then sel'.bad == sel.bad + [idx] && sel'.taken == sel.taken
            else sel'.bad == sel.bad && (sel'.taken == sel.taken || sel'.taken == sel.taken + [st])
  {
    hide Simulated, TraderInfo, Wrap;
  }

  predicate FallingFrom(bad: seq<int>, n: nat, low: int) {
    Falling(bad, n) && forall k :: 0 <= k < |bad| ==> bad[k] >= low
  }

  lemma NoneFrom(n: nat)
    ensures FallingFrom([], n, n)
  {
  }

  lemma FallingFromMore(bad: seq<int>, n: nat, low: nat)
    requires FallingFrom(bad, n, low + 1) && low < n
    ensures FallingFrom(bad, n, low) && FallingFrom(bad + [low], n, low)
  {
  }

  lemma {:induction false} SelectedFalling(s: State, L: seq<SignedTransaction>, i: nat)
    requires i <= |L|
    ensures FallingFrom(Selected(s, L, i).bad, |L|, |L| - i)
    decreases i
  {
    hide Considered, Rejects, Selected, FallingFrom;
    if i == 0 {
      SelectedStart(s, L);
      NoneFrom(|L|);
    } else {
      SelectedFalling(s, L, i - 1);
      SelectedStep(s, L, i - 1);
      ConsideredParts(s, Selected(s, L, i - 1), L[|L| - i], |L| - i);
      FallingFromMore(Selected(s, L, i - 1).bad, |L|, |L| - i);
    }
  }

  /** Exactly the indexes of the transactions that are considered before the limit is reached, and rejected, are
      recorded. */
  lemma {:induction false} RejectedIndexes(s: State, L: seq<SignedTransaction>, i: nat, idx: int)
    requires i <= |L| && |L| - i <= idx < |L|
    ensures var before := Selected(s, L, |L| - 1 - idx);
            idx in Selected(s, L, i).bad <==> |before.taken| < PendingLimit && Rejects(s, before, L[idx])
    decreases i
  {
    hide Considered, Rejects, Selected, Falling;
    SelectedFalling(s, L, i - 1);
    SelectedStep(s, L, i - 1);
    ConsideredParts(s, Selected(s, L, i - 1), L[|L| - i], |L| - i);
    if idx > |L| - i {
      RejectedIndexes(s, L, i - 1, idx);
    }
  }

  lemma NamedMore(L: seq<SignedTransaction>, bad: seq<int>, i: nat)
    requires Falling(bad, |L|) && i < |L|
    ensures Named(L, bad + [i]) == Named(L, bad) + multiset{L[i]}
  {
    assert (bad + [i])[..|bad|] == bad;
  }

  lemma OneMore(a: multiset<SignedTransaction>, b: multiset<SignedTransaction>, rest: seq<SignedTransaction>,
                x: SignedTransaction)
    requires a + b <= multiset(rest)
    ensures (a + multiset{x}) + b <= multiset([x] + rest) && a + (b + multiset{x}) <= multiset([x] + rest)
    ensures a + b <= multiset([x] + rest)
  {
    assert multiset([x] + rest) == multiset{x} + multiset(rest);
  }

  /** No transaction is both picked and recorded. */
  lemma {:induction false} TakenApart(s: State, L: seq<SignedTransaction>, i: nat)
    requires i <= |L|
    ensures var sel := Selected(s, L, i);
            Falling(sel.bad, |L|) && multiset(sel.taken) + Named(L, sel.bad) <= multiset(L[|L| - i..])
    decreases i
  {
    hide Considered, Rejects, Selected, Named;
    SelectedFalling(s, L, i);
    if i == 0 {
      SelectedStart(s, L);
      NothingDropped(L, []);
    } else {
      TakenApart(s, L, i - 1);
      SelectedStep(s, L, i - 1);
      var sel, x := Selected(s, L, i - 1), L[|L| - i];
      ConsideredParts(s, sel, x, |L| - i);
      NamedMore(L, sel.bad, |L| - i);
      OneMore(multiset(sel.taken), Named(L, sel.bad), L[|L| - i + 1..], x);
      assert L[|L| - i..] == [x] + L[|L| - i + 1..];
      assert multiset(sel.taken + [x]) == multiset(sel.taken) + multiset{x};
    }
  }

  /** When at most one transaction is rejected, or the queue is guarded, Pending removes exactly the rejected ones,
      and every picked one is still queued. */
  lemma PendingCleansUp(s: State, L: seq<SignedTransaction>)
    requires Ordered(L) && (Guarded(L) || |Selected(s, L, |L|).bad| <= 1)
    ensures var sel := Selected(s, L, |L|);
            && Falling(sel.bad, |L|) && ExactlyNamed(L, sel.bad)
            && multiset(sel.taken) <= multiset(RemovedAll(L, sel.bad))
  {
    hide Ordered, Guarded, Selected, Falling, Named;
    var bad := Selected(s, L, |L|).bad;
    SelectedFalling(s, L, |L|);
    TakenApart(s, L, |L|);
    assert L[|L| - |L|..] == L;
    if Guarded(L) {
      GuardedExact(L, bad);
    } else {
      OneExact(L, bad);
    }
  }

  lemma OneExact(L: seq<SignedTransaction>, bad: seq<int>)
    requires Falling(bad, |L|) && |bad| <= 1
    ensures ExactlyNamed(L, bad)
  {
    hide Removed, Dropped;
    if bad == [] {
      NothingDropped(L, bad);
    } else {
      assert bad[..0] == [];
      NothingDropped(L, []);
      DroppedStep(L, bad);
      assert RemovedAll(L, bad) == Removed(L, bad[0]);
      RemovedContents(L, bad[0]);
    }
  }

  // ----- a removal that goes wrong -----

  /** Two transactions of one caller, the later one paying more, around the price of another caller's. */
  ghost predicate Around(x: SignedTransaction, y: SignedTransaction, b: SignedTransaction) {
    && x.Caller() == y.Caller() != b.Caller() && x.Nonce() > y.Nonce()
    && y.GasCap() < b.GasCap() < x.GasCap()
  }

  lemma PushedFirst(y: SignedTransaction)
    ensures Pushed([], y) == [y]
  {
    hide Wrap;
    SiftUpStep([y], 0);
    assert [] + [y] == [y];
  }

  lemma PushedAbove(y: SignedTransaction, x: SignedTransaction)
    requires x.Caller() == y.Caller() && x.Nonce() > y.Nonce()
    ensures Pushed([y], x) == [x, y]
  {
    hide Wrap;
    var L := [y, x];
    assert [y] + [x] == L;
    assert KeyOf(y) != KeyOf(x);
    SiftUpStep(L, 1);
    assert SwapAt(L, 0) == [x, y];
    SiftUpStep([x, y], 0);
  }

  lemma StaysBehind(x: SignedTransaction, y: SignedTransaction, b: SignedTransaction)
    requires Around(x, y, b)
    ensures !Below([x, y, b], 1, b)
  {
    hide Wrap;
    assert !EarlierBelow([x, y, b], 1, b);
  }

  lemma PushedLast(x: SignedTransaction, y: SignedTransaction, b: SignedTransaction)
    requires Around(x, y, b)
    ensures Pushed([x, y], b) == [x, y, b]
  {
    hide Wrap, IndexOf, Below, SiftUp;
    var L := [x, y, b];
    assert [x, y] + [b] == L;
    assert KeyOf(x) != KeyOf(b) && KeyOf(y) != KeyOf(b);
    assert IndexOf([x, y], KeyOf(b)) == 2;
    StaysBehind(x, y, b);
    SiftUpStep(L, 2);
  }

  lemma AroundPushed(x: SignedTransaction, y: SignedTransaction, b: SignedTransaction)
    requires Around(x, y, b)
    ensures Run([Push(y), Push(x), Push(b)]) == [x, y, b]
  {
    hide Wrap;
    var ops := [Push(y), Push(x), Push(b)];
    assert ops[..2] == [Push(y), Push(x)] && ops[..2][..1] == [Push(y)] && [Push(y)][..0] == [];
    assert Run([Push(y)]) == [y] by {
      PushedFirst(y);
    }
    assert Run([Push(y), Push(x)]) == [x, y] by {
      PushedAbove(y, x);
    }
    PushedLast(x, y, b);
  }

  lemma AroundRemoved(x: SignedTransaction, y: SignedTransaction, b: SignedTransaction)
    requires Around(x, y, b)
    ensures RemovedAll([x, y, b], [1, 0]) == [x]
  {
    hide Wrap;
    var L := [x, y, b];
    assert Without(L, 1) == [x, b];
    SiftDownStep([x, b], 0);
    assert SwapAt([x, b], 0) == [b, x];
    SiftDownStep([b, x], 1);
    assert SiftBack([x, b], 0) == [b, x];
    assert Removed(L, 1) == [b, x];
    assert Without([b, x], 0) == [x];
    assert Removed([b, x], 0) == [x];
    assert [1, 0][..1] == [1] && [1][..0] == [];
    assert RemovedAll(L, [1]) == Removed(L, 1);
  }

  /** The picked pledge stands in front once the cheaper of the two used transactions is gone, so the index of the
      other one removes it: Pending removes what it picks and keeps what it rejects. */
  lemma PickedRemoved(s: State, x: SignedTransaction, y: SignedTransaction, b: SignedTransaction)
    requires Around(x, y, b) && b.tx.kind == Pledge
    requires s.Available(b.Caller()).Some? && b.tx.amount + b.GasCap() <= s.Available(b.Caller()).value
    requires b.Nonce() == s.Nonce(b.Caller()) && s.Available(x.Caller()).Some? && x.Nonce() < s.Nonce(x.Caller())
    ensures var L := [x, y, b];
            && L == Run([Push(y), Push(x), Push(b)]) && Selected(s, L, 3).taken == [b]
            && Selected(s, L, 3).bad == [1, 0] && RemovedAll(L, [1, 0]) == [x]
  {
    AroundPushed(x, y, b);
    AroundRemoved(x, y, b);
    AroundSelected(s, x, y, b);
  }

  lemma AroundSelected(s: State, x: SignedTransaction, y: SignedTransaction, b: SignedTransaction)
    requires Around(x, y, b) && b.tx.kind == Pledge
    requires s.Available(b.Caller()).Some? && b.tx.amount + b.GasCap() <= s.Available(b.Caller()).value
    requires b.Nonce() == s.Nonce(b.Caller()) && s.Available(x.Caller()).Some? && x.Nonce() < s.Nonce(x.Caller())
    ensures Selected(s, [x, y, b], 3).taken == [b] && Selected(s, [x, y, b], 3).bad == [1, 0]
  {
    hide Wrap;
    var L := [x, y, b];
    SelectedStart(s, L);
    SelectedStep(s, L, 0);
    SelectedStep(s, L, 1);
    SelectedStep(s, L, 2);
    hide Selected;
    var s1 := Considered(s, Selection(map[], [], []), b, 2);
    assert s1.taken == [b] && s1.bad == [] && s1.buf.Keys == {b.Caller()};
    var s2 := Considered(s, s1, y, 1);
    assert s2.taken == [b] && s2.bad == [1] && View(s, s2.buf, x.Caller()) == Fetched(s, x.Caller());
    var s3 := Considered(s, s2, x, 0);
    assert s3.taken == [b] && s3.bad == [1, 0];
  }
}
