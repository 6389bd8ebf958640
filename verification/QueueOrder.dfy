/** The order of the transaction queue: what moving a transaction up or down does to the list, and why each
    caller's transactions stay in descending nonce order. */
module QueueOrder {
  import opened Transactions

  /** A caller and a nonce identify a queued transaction. */
  datatype Key = Key(caller: Address, nonce: U64)

  function KeyOf(st: SignedTransaction): Key {
    Key(st.Caller(), st.Nonce())
  }

  ghost predicate UniqueKeys(L: seq<SignedTransaction>) {
    forall i, j :: 0 <= i < j < |L| ==> KeyOf(L[i]) != KeyOf(L[j])
  }

  /** Each caller's nonces strictly decrease as the index grows. */
  ghost predicate Descending(L: seq<SignedTransaction>) {
    forall i, j :: 0 <= i < j < |L| && L[i].Caller() == L[j].Caller() ==> L[i].Nonce() > L[j].Nonce()
  }

  /** Some transaction of y's caller with a smaller nonce stands below index i. */
  ghost predicate EarlierBelow(L: seq<SignedTransaction>, i: int, y: SignedTransaction)
    requires i <= |L|
  {
    exists p :: 0 <= p < i && L[p].Caller() == y.Caller() && L[p].Nonce() < y.Nonce()
  }

  /** The comparison of the queue: y belongs below the transaction at index i. */
  ghost predicate Below(L: seq<SignedTransaction>, i: int, y: SignedTransaction)
    requires 0 <= i < |L|
  {
    if y.Caller() == L[i].Caller() then y.Nonce() > L[i].Nonce()
    else EarlierBelow(L, i, y) || y.GasCap() <= L[i].GasCap()
  }

  function SwapAt(L: seq<SignedTransaction>, i: int): seq<SignedTransaction>
    requires 0 <= i < |L| - 1
  {
    L[i := L[i + 1]][i + 1 := L[i]]
  }

  /** Moving the transaction at j towards the front. */
  ghost function SiftUp(L: seq<SignedTransaction>, j: int): (M: seq<SignedTransaction>)
    requires 0 <= j < |L|
    ensures |M| == |L| && multiset(M) == multiset(L)
    decreases j
  {
    if j > 0 && Below(L, j - 1, L[j]) then SiftUp(SwapAt(L, j - 1), j - 1) else L
  }

  /** Moving the transaction at i towards the back. */
  ghost function SiftDown(L: seq<SignedTransaction>, i: int): (M: seq<SignedTransaction>)
    requires 0 <= i < |L|
    ensures |M| == |L| && multiset(M) == multiset(L)
    decreases |L| - i
  {
    if i + 1 < |L| && !Below(L, i + 1, L[i]) then SiftDown(SwapAt(L, i), i + 1) else L
  }

  lemma SiftUpStep(L: seq<SignedTransaction>, j: int)
    requires 0 <= j < |L|
    ensures SiftUp(L, j) == if j > 0 && Below(L, j - 1, L[j]) then SiftUp(SwapAt(L, j - 1), j - 1) else L
  {
  }

  lemma SiftDownStep(L: seq<SignedTransaction>, i: int)
    requires 0 <= i < |L|
    ensures SiftDown(L, i) == if i + 1 < |L| && !Below(L, i + 1, L[i]) then SiftDown(SwapAt(L, i), i + 1) else L
  {
  }

  /** The loop of push after a replacement: down for every index from i on. */
  ghost function SiftFrom(L: seq<SignedTransaction>, i: int): (M: seq<SignedTransaction>)
    requires 0 <= i <= |L|
    ensures |M| == |L| && multiset(M) == multiset(L)
    decreases |L| - i
  {
    if i < |L| then SiftFrom(SiftDown(L, i), i + 1) else L
  }

  /** The loop of remove: down for every index from i back to 0. */
  ghost function SiftBack(L: seq<SignedTransaction>, i: int): (M: seq<SignedTransaction>)
    requires -1 <= i < |L|
    ensures |M| == |L| && multiset(M) == multiset(L)
    decreases i + 1
  {
    if i >= 0 then SiftBack(SiftDown(L, i), i - 1) else L
  }

  ghost function IndexOf(L: seq<SignedTransaction>, k: Key): (i: int)
    ensures 0 <= i <= |L|
    ensures i < |L| ==> KeyOf(L[i]) == k
    ensures forall j :: 0 <= j < i ==> KeyOf(L[j]) != k
  {
    if L == [] then 0
    else if KeyOf(L[0]) == k then 0
    else 1 + IndexOf(L[1..], k)
  }

  /** push as a function of the list. */
  ghost function Pushed(L: seq<SignedTransaction>, st: SignedTransaction): seq<SignedTransaction> {
    var k := IndexOf(L, KeyOf(st));
    if k == |L| then SiftUp(L + [st], |L|)
    else if L[k].GasCap() >= st.GasCap() then L
    else SiftFrom(L[k := st], k)
  }

  function Without(L: seq<SignedTransaction>, i: int): seq<SignedTransaction>
    requires 0 <= i < |L|
  {
    L[..i] + L[i + 1..]
  }

  /** remove as a function of the list. */
  ghost function Removed(L: seq<SignedTransaction>, i: int): seq<SignedTransaction> {
    if 0 <= i < |L| then SiftBack(Without(L, i), i - 1) else L
  }

  // ----- what the moves keep -----

  lemma SwapUniqueKeys(L: seq<SignedTransaction>, i: int)
    requires 0 <= i < |L| - 1 && UniqueKeys(L)
    ensures UniqueKeys(SwapAt(L, i))
  {
  }

  /** Descending, leaving out the pairs with index s. */
  ghost predicate DescendingBut(L: seq<SignedTransaction>, s: int) {
    forall i, j :: 0 <= i < j < |L| && i != s && j != s && L[i].Caller() == L[j].Caller() ==> L[i].Nonce() > L[j].Nonce()
  }

  /** The transactions of s's caller behind index s all have smaller nonces. */
  ghost predicate SmallerBehind(L: seq<SignedTransaction>, s: int)
    requires 0 <= s < |L|
  {
    forall j :: s < j < |L| && L[s].Caller() == L[j].Caller() ==> L[s].Nonce() > L[j].Nonce()
  }

  /** When the up loop stops, the transactions of the moved one's caller in front have larger nonces. */
  lemma StopInPlace(L: seq<SignedTransaction>, s: int)
    requires 0 <= s < |L| && UniqueKeys(L) && DescendingBut(L, s) && SmallerBehind(L, s)
    requires s > 0 ==> !Below(L, s - 1, L[s])
    ensures Descending(L)
  {
    hide Wrap;
    forall i | 0 <= i < s && L[i].Caller() == L[s].Caller() ensures L[i].Nonce() > L[s].Nonce() {
      assert KeyOf(L[i]) != KeyOf(L[s]);
      if i < s - 1 {
        assert KeyOf(L[s - 1]) != KeyOf(L[s]);
        if L[s - 1].Caller() == L[s].Caller() {
          assert L[i].Nonce() > L[s - 1].Nonce();
        } else {
          assert !EarlierBelow(L, s - 1, L[s]);
        }
      }
    }
  }

  /** One step of the up loop keeps the others in order, and everything behind the moved one smaller. */
  lemma StepUp(L: seq<SignedTransaction>, j: int)
    requires 0 < j < |L| && UniqueKeys(L) && DescendingBut(L, j) && SmallerBehind(L, j) && Below(L, j - 1, L[j])
    ensures var M := SwapAt(L, j - 1);
            |M| == |L| && UniqueKeys(M) && DescendingBut(M, j - 1) && SmallerBehind(M, j - 1)
  {
    hide Wrap;
    SwapUniqueKeys(L, j - 1);
  }

  lemma {:induction false} SiftUpDescending(L: seq<SignedTransaction>, j: int)
    requires 0 <= j < |L| && UniqueKeys(L) && DescendingBut(L, j) && SmallerBehind(L, j)
    ensures UniqueKeys(SiftUp(L, j)) && Descending(SiftUp(L, j))
    decreases j
  {
    hide Wrap, UniqueKeys, Descending, DescendingBut, SmallerBehind;
    if j > 0 && Below(L, j - 1, L[j]) {
      StepUp(L, j);
      SiftUpDescending(SwapAt(L, j - 1), j - 1);
    } else {
      StopInPlace(L, j);
    }
  }

  /** down never carries a transaction past a later one of its own caller. */
  lemma {:induction false} SiftDownDescending(L: seq<SignedTransaction>, i: int)
    requires 0 <= i < |L| && UniqueKeys(L) && Descending(L)
    ensures UniqueKeys(SiftDown(L, i)) && Descending(SiftDown(L, i))
    decreases |L| - i
  {
    hide Wrap;
    if i + 1 < |L| && !Below(L, i + 1, L[i]) {
      SwapUniqueKeys(L, i);
      SiftDownDescending(SwapAt(L, i), i + 1);
    }
  }

  lemma {:induction false} SiftFromDescending(L: seq<SignedTransaction>, i: int)
    requires 0 <= i <= |L| && UniqueKeys(L) && Descending(L)
    ensures UniqueKeys(SiftFrom(L, i)) && Descending(SiftFrom(L, i))
    decreases |L| - i
  {
    hide UniqueKeys, Descending, SiftDown;
    if i < |L| {
      SiftDownDescending(L, i);
      SiftFromDescending(SiftDown(L, i), i + 1);
    }
  }

  lemma {:induction false} SiftBackDescending(L: seq<SignedTransaction>, i: int)
    requires -1 <= i < |L| && UniqueKeys(L) && Descending(L)
    ensures UniqueKeys(SiftBack(L, i)) && Descending(SiftBack(L, i))
    decreases i + 1
  {
    hide UniqueKeys, Descending, SiftDown;
    if i >= 0 {
      SiftDownDescending(L, i);
      SiftBackDescending(SiftDown(L, i), i - 1);
    }
  }

  // ----- push, pop and remove keep the order -----

  ghost predicate Ordered(L: seq<SignedTransaction>) {
    UniqueKeys(L) && Descending(L)
  }

  lemma PushedOrdered(L: seq<SignedTransaction>, st: SignedTransaction)
    requires Ordered(L)
    ensures Ordered(Pushed(L, st))
  {
    var k := IndexOf(L, KeyOf(st));
    if k == |L| {
      SiftUpDescending(L + [st], |L|);
    } else if L[k].GasCap() < st.GasCap() {
      SameKeyOrdered(L, k, st);
      SiftFromDescending(L[k := st], k);
    }
  }

  lemma SameKeyOrdered(L: seq<SignedTransaction>, k: int, st: SignedTransaction)
    requires Ordered(L) && 0 <= k < |L| && KeyOf(L[k]) == KeyOf(st)
    ensures Ordered(L[k := st])
  {
    var M := L[k := st];
    assert forall i :: 0 <= i < |L| ==> KeyOf(M[i]) == KeyOf(L[i]);
  }

  lemma PoppedOrdered(L: seq<SignedTransaction>)
    requires Ordered(L) && L != []
    ensures Ordered(L[..|L| - 1])
  {
  }

  lemma WithoutOrdered(L: seq<SignedTransaction>, i: int)
    requires Ordered(L) && 0 <= i < |L|
    ensures Ordered(Without(L, i))
  {
  }

  lemma RemovedOrdered(L: seq<SignedTransaction>, i: int)
    requires Ordered(L)
    ensures Ordered(Removed(L, i))
  {
    hide UniqueKeys, Descending, SiftBack;
    if 0 <= i < |L| {
      WithoutOrdered(L, i);
      SiftBackDescending(Without(L, i), i - 1);
    }
  }

  /** What push does to the contents: it adds a new transaction, replaces one that pays less, or does nothing. */
  lemma PushedContents(L: seq<SignedTransaction>, st: SignedTransaction)
    ensures var k := IndexOf(L, KeyOf(st));
            multiset(Pushed(L, st)) ==
              if k == |L| then multiset(L) + multiset{st}
              else if L[k].GasCap() >= st.GasCap() then multiset(L)
              else multiset(L) - multiset{L[k]} + multiset{st}
  {
  }

  lemma RemovedContents(L: seq<SignedTransaction>, i: int)
    ensures multiset(Removed(L, i)) == if 0 <= i < |L| then multiset(L) - multiset{L[i]} else multiset(L)
  {
    if 0 <= i < |L| {
      assert L == L[..i] + [L[i]] + L[i + 1..];
    }
  }

  // ----- runs -----

  datatype Operation = Push(st: SignedTransaction) | Pop | Remove(idx: int)

  /** One operation of the queue; popping is only done while the queue is not empty. */
  ghost function Step(L: seq<SignedTransaction>, op: Operation): seq<SignedTransaction> {
    match op
    case Push(st) => Pushed(L, st)
    case Pop => if L == [] then L else L[..|L| - 1]
    case Remove(idx) => Removed(L, idx)
  }

  ghost function Run(ops: seq<Operation>): seq<SignedTransaction> {
    if ops == [] then [] else Step(Run(ops[..|ops| - 1]), ops[|ops| - 1])
  }

  /** In every reachable queue, each caller's nonces are distinct and strictly decrease with the index. */
  lemma {:induction false} RunOrdered(ops: seq<Operation>)
    ensures Ordered(Run(ops))
    decreases |ops|
  {
    hide Pushed, Removed, Ordered;
    if ops == [] {
      EmptyOrdered();
    } else {
      var L, op := Run(ops[..|ops| - 1]), ops[|ops| - 1];
      RunOrdered(ops[..|ops| - 1]);
      match op
      case Push(st) => PushedOrdered(L, st);
      case Pop => if L != [] { PoppedOrdered(L); }
      case Remove(idx) => RemovedOrdered(L, idx);
    }
  }

  lemma EmptyOrdered()
    ensures Ordered([])
  {
  }

  /** Taking transactions from the end, one after another. */
  function Drained(L: seq<SignedTransaction>): (D: seq<SignedTransaction>)
    ensures |D| == |L| && forall i :: 0 <= i < |D| ==> D[i] == L[|L| - 1 - i]
  {
    if L == [] then [] else [L[|L| - 1]] + Drained(L[..|L| - 1])
  }

  /** Draining any reachable queue yields every caller's transactions in ascending nonce order. */
  lemma DrainedAscending(ops: seq<Operation>, i: int, j: int)
    requires var D := Drained(Run(ops)); 0 <= i < j < |D| && D[i].Caller() == D[j].Caller()
    ensures var D := Drained(Run(ops)); D[i].Nonce() < D[j].Nonce()
  {
    RunOrdered(ops);
  }

  // ----- one transaction per caller: the queue is sorted by price -----

  ghost predicate OnePerCaller(L: seq<SignedTransaction>) {
    forall i, j :: 0 <= i < j < |L| ==> L[i].Caller() != L[j].Caller()
  }

  ghost predicate SortedByPrice(L: seq<SignedTransaction>) {
    forall i, j :: 0 <= i < j < |L| ==> L[i].GasCap() <= L[j].GasCap()
  }

  /** Sorted apart from index s, whose transaction does not pay more than those behind it. */
  ghost predicate SortedBehind(L: seq<SignedTransaction>, s: int)
    requires 0 <= s < |L|
  {
    && (forall i, j :: 0 <= i < j < |L| && i != s && j != s ==> L[i].GasCap() <= L[j].GasCap())
    && (forall j :: s < j < |L| ==> L[s].GasCap() <= L[j].GasCap())
  }

  /** Sorted apart from index s, whose transaction does not pay less than those in front of it. */
  ghost predicate SortedInFront(L: seq<SignedTransaction>, s: int)
    requires 0 <= s < |L|
  {
    && (forall i, j :: 0 <= i < j < |L| && i != s && j != s ==> L[i].GasCap() <= L[j].GasCap())
    && (forall i :: 0 <= i < s ==> L[i].GasCap() <= L[s].GasCap())
  }

  lemma StepUpSorted(L: seq<SignedTransaction>, j: int)
    requires 0 < j < |L| && OnePerCaller(L) && SortedBehind(L, j) && Below(L, j - 1, L[j])
    ensures var M := SwapAt(L, j - 1); |M| == |L| && OnePerCaller(M) && SortedBehind(M, j - 1)
  {
    hide Wrap;
  }

  lemma StopUpSorted(L: seq<SignedTransaction>, j: int)
    requires 0 <= j < |L| && OnePerCaller(L) && SortedBehind(L, j) && (j > 0 ==> !Below(L, j - 1, L[j]))
    ensures SortedByPrice(L)
  {
    hide Wrap;
  }

  lemma {:induction false} SiftUpSorted(L: seq<SignedTransaction>, j: int)
    requires 0 <= j < |L| && OnePerCaller(L) && SortedBehind(L, j)
    ensures SortedByPrice(SiftUp(L, j)) && OnePerCaller(SiftUp(L, j))
    decreases j
  {
    hide Wrap, OnePerCaller, SortedByPrice, SortedBehind;
    if j > 0 && Below(L, j - 1, L[j]) {
      StepUpSorted(L, j);
      SiftUpSorted(SwapAt(L, j - 1), j - 1);
    } else {
      StopUpSorted(L, j);
    }
  }

  lemma StepDownSorted(L: seq<SignedTransaction>, i: int)
    requires 0 <= i < |L| - 1 && OnePerCaller(L) && SortedInFront(L, i) && !Below(L, i + 1, L[i])
    ensures var M := SwapAt(L, i); |M| == |L| && OnePerCaller(M) && SortedInFront(M, i + 1)
  {
    hide Wrap;
  }

  lemma StopDownSorted(L: seq<SignedTransaction>, i: int)
    requires 0 <= i < |L| && OnePerCaller(L) && SortedInFront(L, i) && (i < |L| - 1 ==> Below(L, i + 1, L[i]))
    ensures SortedByPrice(L)
  {
    hide Wrap;
  }

  lemma {:induction false} SiftDownSorted(L: seq<SignedTransaction>, i: int)
    requires 0 <= i < |L| && OnePerCaller(L) && SortedInFront(L, i)
    ensures SortedByPrice(SiftDown(L, i)) && OnePerCaller(SiftDown(L, i))
    decreases |L| - i
  {
    hide Wrap, OnePerCaller, SortedByPrice, SortedInFront;
    if i + 1 < |L| && !Below(L, i + 1, L[i]) {
      StepDownSorted(L, i);
      SiftDownSorted(SwapAt(L, i), i + 1);
    } else {
      StopDownSorted(L, i);
    }
  }

  /** On a sorted list down moves nothing. */
  lemma SiftDownIdle(L: seq<SignedTransaction>, i: int)
    requires 0 <= i < |L| && OnePerCaller(L) && SortedByPrice(L)
    ensures SiftDown(L, i) == L
  {
  }

  lemma {:induction false} SiftFromIdle(L: seq<SignedTransaction>, i: int)
    requires 0 <= i <= |L| && OnePerCaller(L) && SortedByPrice(L)
    ensures SiftFrom(L, i) == L
    decreases |L| - i
  {
    if i < |L| {
      SiftDownIdle(L, i);
      SiftFromIdle(L, i + 1);
    }
  }

  lemma {:induction false} SiftBackIdle(L: seq<SignedTransaction>, i: int)
    requires -1 <= i < |L| && OnePerCaller(L) && SortedByPrice(L)
    ensures SiftBack(L, i) == L
    decreases i + 1
  {
    if i >= 0 {
      SiftDownIdle(L, i);
      SiftBackIdle(L, i - 1);
    }
  }

  ghost predicate PriceQueue(L: seq<SignedTransaction>) {
    OnePerCaller(L) && SortedByPrice(L)
  }

  /** While no caller has two transactions queued, push and remove keep the queue sorted by price, so the
      next one taken from the end pays the most. */
  lemma PushedPriceQueue(L: seq<SignedTransaction>, st: SignedTransaction)
    requires PriceQueue(L) && forall i :: 0 <= i < |L| && L[i].Caller() == st.Caller() ==> L[i].Nonce() == st.Nonce()
    ensures PriceQueue(Pushed(L, st))
  {
    hide SiftUp, SiftDown, SiftFrom;
    var k := IndexOf(L, KeyOf(st));
    if k == |L| {
      AppendedPrices(L, st);
      SiftUpSorted(L + [st], |L|);
    } else if L[k].GasCap() < st.GasCap() {
      var M := L[k := st];
      ReplacedPrices(L, k, st);
      SiftDownSorted(M, k);
      SiftFromStep(M, k);
      SiftFromIdle(SiftDown(M, k), k + 1);
    }
  }

  lemma SiftFromStep(L: seq<SignedTransaction>, i: int)
    requires 0 <= i < |L|
    ensures SiftFrom(L, i) == SiftFrom(SiftDown(L, i), i + 1)
  {
  }

  lemma AppendedPrices(L: seq<SignedTransaction>, st: SignedTransaction)
    requires PriceQueue(L) && forall i :: 0 <= i < |L| && L[i].Caller() == st.Caller() ==> L[i].Nonce() == st.Nonce()
    requires IndexOf(L, KeyOf(st)) == |L|
    ensures OnePerCaller(L + [st]) && SortedBehind(L + [st], |L|)
  {
    hide Wrap;
    forall i | 0 <= i < |L| ensures L[i].Caller() != st.Caller() {
      assert KeyOf(L[i]) != KeyOf(st);
    }
  }

  lemma ReplacedPrices(L: seq<SignedTransaction>, k: int, st: SignedTransaction)
    requires PriceQueue(L) && 0 <= k < |L| && KeyOf(L[k]) == KeyOf(st) && L[k].GasCap() < st.GasCap()
    ensures OnePerCaller(L[k := st]) && SortedInFront(L[k := st], k)
  {
    hide Wrap;
    var M := L[k := st];
    assert forall i :: 0 <= i < |L| ==> M[i].Caller() == L[i].Caller();
  }

  lemma WithoutPriceQueue(L: seq<SignedTransaction>, i: int)
    requires PriceQueue(L) && 0 <= i < |L|
    ensures |Without(L, i)| == |L| - 1 && PriceQueue(Without(L, i))
  {
    hide Wrap;
  }

  lemma RemovedPriceQueue(L: seq<SignedTransaction>, i: int)
    requires PriceQueue(L)
    ensures PriceQueue(Removed(L, i))
  {
    hide OnePerCaller, SortedByPrice, SiftBack, Without;
    if 0 <= i < |L| {
      WithoutPriceQueue(L, i);
      SiftBackIdle(Without(L, i), i - 1);
    }
  }
}
