/** The transaction queue: an ordered list with an index by caller and an index by hash. */
module TxQueue {
  import opened Options
  import opened Transactions
  import opened QueueOrder
  import opened HashKeys

  /** The source's receivedTransaction with its embedded option. */
  datatype Received = Received(nonce: U64, idx: int, price: U64, timestamp: int)

  datatype Modification = WithPrice(price: U64) | WithIdx(idx: int) | WithTimestamp(timestamp: int)

  function Apply(e: Received, mods: seq<Modification>): (r: Received)
    ensures r.nonce == e.nonce
    decreases |mods|
  {
    if mods == [] then e
    else
      var e' := match mods[0]
        case WithPrice(p) => e.(price := p)
        case WithIdx(i) => e.(idx := i)
        case WithTimestamp(t) => e.(timestamp := t);
      Apply(e', mods[1..])
  }

  /** Where the index believes a transaction is, and at which price. */
  datatype Slot = Slot(idx: int, price: U64)

  type Buffer = map<Address, seq<Received>>
  type Directory = map<Key, Slot>

  ghost predicate DistinctNonces(s: seq<Received>) {
    forall i, j :: 0 <= i < j < |s| ==> s[i].nonce != s[j].nonce
  }

  ghost predicate HasNonce(s: seq<Received>, nonce: U64) {
    exists k :: 0 <= k < |s| && s[k].nonce == nonce
  }

  /** The buffer holds exactly the entries of the directory, each caller's in a list without repetition. */
  ghost predicate Represents(R: Buffer, D: Directory) {
    && (forall c :: c in R ==> R[c] != [] && DistinctNonces(R[c]))
    && (forall c, k :: c in R && 0 <= k < |R[c]| ==>
          Key(c, R[c][k].nonce) in D && D[Key(c, R[c][k].nonce)] == Slot(R[c][k].idx, R[c][k].price))
    && (forall key :: key in D ==> key.caller in R && HasNonce(R[key.caller], key.nonce))
  }

  /** The directory knows every transaction of the list at its index and price. */
  ghost predicate Indexed(L: seq<SignedTransaction>, D: Directory) {
    && (forall i :: 0 <= i < |L| ==> KeyOf(L[i]) in D && D[KeyOf(L[i])] == Slot(i, L[i].GasCap()))
    && (forall key :: key in D ==> exists i :: 0 <= i < |L| && KeyOf(L[i]) == key)
  }

  /** The same, except that the index of y is out of date. */
  ghost predicate IndexedBut(L: seq<SignedTransaction>, D: Directory, y: Key) {
    && UniqueKeys(L)
    && (forall i :: 0 <= i < |L| ==> KeyOf(L[i]) in D && D[KeyOf(L[i])].price == L[i].GasCap())
    && (forall i :: 0 <= i < |L| && KeyOf(L[i]) != y ==> D[KeyOf(L[i])].idx == i)
    && (forall key :: key in D ==> exists i :: 0 <= i < |L| && KeyOf(L[i]) == key)
  }

  /** The hash index holds exactly the hashes of the list, each with its caller and nonce. */
  ghost predicate Filed(L: seq<SignedTransaction>, H: map<Digest, string>) {
    && (forall i :: 0 <= i < |L| ==> L[i].Hash() in H && H[L[i].Hash()] == EncodeKey(L[i].Caller(), L[i].Nonce()))
    && (forall h :: h in H ==> exists i :: 0 <= i < |L| && L[i].Hash() == h)
  }

  // ----- the directory view of the buffer operations -----

  lemma UpdateRepresents(R: Buffer, D: Directory, c: Address, k: int, e: Received)
    requires Represents(R, D) && c in R && 0 <= k < |R[c]| && e.nonce == R[c][k].nonce
    ensures Represents(R[c := R[c][k := e]], D[Key(c, e.nonce) := Slot(e.idx, e.price)])
  {
    hide Wrap;
    var s := R[c];
    var s' := s[k := e];
    var R': Buffer := R[c := s'];
    var D': Directory := D[Key(c, e.nonce) := Slot(e.idx, e.price)];
    assert forall i :: 0 <= i < |s| ==> s'[i].nonce == s[i].nonce;
    forall d, i | d in R' && 0 <= i < |R'[d]|
      ensures Key(d, R'[d][i].nonce) in D' && D'[Key(d, R'[d][i].nonce)] == Slot(R'[d][i].idx, R'[d][i].price)
    {
      if d == c && i != k {
        assert s[i].nonce != s[k].nonce;
      }
    }
    forall key | key in D' ensures key.caller in R' && HasNonce(R'[key.caller], key.nonce) {
      assert key in D;
      var i :| 0 <= i < |R[key.caller]| && R[key.caller][i].nonce == key.nonce;
      assert R'[key.caller][i].nonce == key.nonce;
    }
  }

  lemma AddRepresents(R: Buffer, D: Directory, c: Address, e: Received)
    requires Represents(R, D) && Key(c, e.nonce) !in D
    ensures Represents(R[c := (if c in R then R[c] else []) + [e]], D[Key(c, e.nonce) := Slot(e.idx, e.price)])
  {
    var s := if c in R then R[c] else [];
    var s' := s + [e];
    var R': Buffer := R[c := s'];
    var D': Directory := D[Key(c, e.nonce) := Slot(e.idx, e.price)];
    forall i | 0 <= i < |s| ensures s[i].nonce != e.nonce {
      assert Key(c, R[c][i].nonce) in D;
    }
    forall key | key in D' ensures key.caller in R' && HasNonce(R'[key.caller], key.nonce) {
      if key == Key(c, e.nonce) {
        assert R'[c][|s|].nonce == e.nonce;
      } else {
        var i :| 0 <= i < |R[key.caller]| && R[key.caller][i].nonce == key.nonce;
        assert R'[key.caller][i].nonce == key.nonce;
      }
    }
  }

  function DeleteAt(s: seq<Received>, k: int): seq<Received>
    requires 0 <= k < |s|
  {
    s[..k] + s[k + 1..]
  }

  function DeleteEntry(R: Buffer, c: Address, k: int): Buffer
    requires c in R && 0 <= k < |R[c]|
  {
    if |R[c]| == 1 then R - {c} else R[c := DeleteAt(R[c], k)]
  }

  lemma DeleteAtEntries(s: seq<Received>, k: int)
    requires 0 <= k < |s| && DistinctNonces(s)
    ensures DistinctNonces(DeleteAt(s, k)) && |DeleteAt(s, k)| == |s| - 1
    ensures forall i :: 0 <= i < |s| - 1 ==> DeleteAt(s, k)[i] == (if i < k then s[i] else s[i + 1])
    ensures forall i :: 0 <= i < |s| - 1 ==> DeleteAt(s, k)[i].nonce != s[k].nonce
    ensures forall n :: HasNonce(s, n) && n != s[k].nonce ==> HasNonce(DeleteAt(s, k), n)
  {
    var s' := DeleteAt(s, k);
    forall n | HasNonce(s, n) && n != s[k].nonce ensures HasNonce(s', n) {
      var i :| 0 <= i < |s| && s[i].nonce == n;
      var j := if i < k then i else i - 1;
      assert s'[j] == s[i];
    }
  }

  lemma DeleteRepresents(R: Buffer, D: Directory, c: Address, k: int)
    requires Represents(R, D) && c in R && 0 <= k < |R[c]|
    ensures Represents(DeleteEntry(R, c, k), D - {Key(c, R[c][k].nonce)})
  {
    var gone := Key(c, R[c][k].nonce);
    var R': Buffer := DeleteEntry(R, c, k);
    var D': Directory := D - {gone};
    DeleteAtEntries(R[c], k);
    forall d, i | d in R' && 0 <= i < |R'[d]|
      ensures Key(d, R'[d][i].nonce) in D' && D'[Key(d, R'[d][i].nonce)] == Slot(R'[d][i].idx, R'[d][i].price)
    {
      var j := if d == c && i >= k then i + 1 else i;
      assert R'[d][i] == R[d][j];
    }
    forall key | key in D' ensures key.caller in R' && HasNonce(R'[key.caller], key.nonce) {
      assert HasNonce(R[key.caller], key.nonce);
    }
  }

  function ApplySlot(s: Slot, mods: seq<Modification>): Slot
    decreases |mods|
  {
    if mods == [] then s
    else
      var s' := match mods[0]
        case WithPrice(p) => s.(price := p)
        case WithIdx(i) => s.(idx := i)
        case WithTimestamp(t) => s;
      ApplySlot(s', mods[1..])
  }

  lemma {:induction false} ApplyMatches(e: Received, mods: seq<Modification>)
    ensures Slot(Apply(e, mods).idx, Apply(e, mods).price) == ApplySlot(Slot(e.idx, e.price), mods)
    decreases |mods|
  {
    if mods != [] {
      var e' := match mods[0]
        case WithPrice(p) => e.(price := p)
        case WithIdx(i) => e.(idx := i)
        case WithTimestamp(t) => e.(timestamp := t);
      ApplyMatches(e', mods[1..]);
    }
  }

  lemma ApplyIdx(s: Slot, i: int)
    ensures ApplySlot(s, [WithIdx(i)]) == Slot(i, s.price)
  {
    assert [WithIdx(i)][1..] == [];
  }

  lemma ApplyTimestamp(s: Slot, t: int)
    ensures ApplySlot(s, [WithTimestamp(t)]) == s
  {
    assert [WithTimestamp(t)][1..] == [];
  }

  lemma ApplyPrice(s: Slot, p: U64, t: int)
    ensures ApplySlot(s, [WithPrice(p), WithTimestamp(t)]) == Slot(s.idx, p)
  {
    assert [WithPrice(p), WithTimestamp(t)][1..] == [WithTimestamp(t)];
    ApplyTimestamp(Slot(s.idx, p), t);
  }

  /** The comparison as the index sees it. */
  ghost predicate IndexBelow(D: Directory, x: SignedTransaction, i: int, y: SignedTransaction) {
    if y.Caller() == x.Caller() then y.Nonce() > x.Nonce()
    else IndexEarlier(D, i, y) || y.GasCap() <= x.GasCap()
  }

  ghost predicate IndexEarlier(D: Directory, i: int, y: SignedTransaction) {
    exists n: U64 :: Key(y.Caller(), n) in D && n < y.Nonce() && D[Key(y.Caller(), n)].idx < i
  }

  /** The index answers the comparison correctly even while y's own entry is out of date. */
  lemma IndexBelowIsBelow(L: seq<SignedTransaction>, D: Directory, i: int, y: SignedTransaction)
    requires IndexedBut(L, D, KeyOf(y)) && 0 <= i < |L|
    ensures IndexBelow(D, L[i], i, y) == Below(L, i, y)
  {
    hide Wrap;
    if IndexEarlier(D, i, y) {
      var n: U64 :| Key(y.Caller(), n) in D && n < y.Nonce() && D[Key(y.Caller(), n)].idx < i;
      var p :| 0 <= p < |L| && KeyOf(L[p]) == Key(y.Caller(), n);
      assert p == D[KeyOf(L[p])].idx;
      assert EarlierBelow(L, i, y);
    }
    if EarlierBelow(L, i, y) {
      var p :| 0 <= p < i && L[p].Caller() == y.Caller() && L[p].Nonce() < y.Nonce();
      assert KeyOf(L[p]) == Key(y.Caller(), L[p].Nonce());
      assert D[KeyOf(L[p])].idx == p;
    }
  }

  class OrderlyQueue {
    var stList: seq<SignedTransaction>
    var rstBuffer: Buffer
    var hashBuffer: map<Digest, string>
    ghost var dir: Directory

    /** The indexes agree with the list, and the list is in order. */
    ghost predicate Valid()
      reads this
    {
      Represents(rstBuffer, dir) && Indexed(stList, dir) && Filed(stList, hashBuffer) && Ordered(stList)
    }

    constructor ()
      ensures Valid() && stList == []
    {
      stList := [];
      rstBuffer := map[];
      hashBuffer := map[];
      dir := map[];
    }

    /** Changes the options of one entry. */
    method Update(caller: Address, nonce: U64, mods: seq<Modification>)
      requires Represents(rstBuffer, dir) && Key(caller, nonce) in dir
      modifies this`rstBuffer, this`dir
      ensures Represents(rstBuffer, dir)
      ensures dir == old(dir)[Key(caller, nonce) := ApplySlot(old(dir)[Key(caller, nonce)], mods)]
    {
      var rstList := if caller in rstBuffer then rstBuffer[caller] else [];
      var x := 0;
      ghost var before := rstList;
      assert HasNonce(before, nonce);
      while x < |rstList|
        invariant 0 <= x <= |rstList| && rstList == before
        invariant forall k :: 0 <= k < x ==> rstList[k].nonce != nonce
      {
        if rstList[x].nonce == nonce {
          rstList := rstList[x := Apply(rstList[x], mods)];
          break;
        }
        x := x + 1;
      }
      assert x < |before|;
      ApplyMatches(before[x], mods);
      UpdateRepresents(rstBuffer, dir, caller, x, rstList[x]);
      dir := dir[Key(caller, nonce) := ApplySlot(dir[Key(caller, nonce)], mods)];
      rstBuffer := rstBuffer[caller := rstList];
    }

    /** The source's less: whether y belongs below the transaction at index i. */
    method Less(i: int, y: SignedTransaction) returns (r: bool)
      requires Represents(rstBuffer, dir) && 0 <= i < |stList| && KeyOf(y) in dir
      ensures r == IndexBelow(dir, stList[i], i, y)
    {
      var x := stList[i];
      if y.Caller() == x.Caller() {
        return y.Nonce() > x.Nonce();
      }
      var rstList := if y.Caller() in rstBuffer then rstBuffer[y.Caller()] else [];
      if |rstList| == 1 {
        OnlyOwnEntry(rstBuffer, dir, y, i);
        return y.GasCap() <= x.GasCap();
      }
      var k := 0;
      while k < |rstList|
        invariant 0 <= k <= |rstList|
        invariant forall j :: 0 <= j < k ==> !(rstList[j].nonce < y.Nonce() && rstList[j].idx < i)
      {
        if rstList[k].nonce < y.Nonce() && rstList[k].idx < i {
          assert Key(y.Caller(), rstList[k].nonce) in dir;
          return true;
        }
        k := k + 1;
      }
      NoEarlierEntry(rstBuffer, dir, y, i);
      return y.GasCap() <= x.GasCap();
    }

    /** Moves the last appended transaction, at index j, into place. */
    method Up(j: int)
      requires Represents(rstBuffer, dir) && Indexed(stList, dir) && j < |stList|
      modifies this`stList, this`rstBuffer, this`dir
      ensures Represents(rstBuffer, dir) && Indexed(stList, dir)
      ensures stList == if j < 0 then old(stList) else SiftUp(old(stList), j)
    {
      hide Represents, Indexed, IndexBelow, MovingUp, SiftUp, ApplySlot;
      if j < 0 {
        return;
      }
      var i := j - 1;
      var value := stList[j];
      MovingUpStart(stList, dir, j);
      while i >= 0
        invariant -1 <= i < j < |stList|
        invariant Represents(rstBuffer, dir)
        invariant MovingUp(old(stList), j, stList, dir, value, i)
      {
        MovingUpStep(old(stList), j, stList, dir, value, i);
        var below := Less(i, value);
        if !below {
          break;
        }
        ApplyIdx(dir[KeyOf(stList[i])], i + 1);
        Update(stList[i].Caller(), stList[i].Nonce(), [WithIdx(i + 1)]);
        stList := stList[i + 1 := stList[i]];
        i := i - 1;
      }
      MovingUpEnd(old(stList), j, stList, dir, value, i);
      ApplyIdx(dir[KeyOf(value)], i + 1);
      Update(value.Caller(), value.Nonce(), [WithIdx(i + 1)]);
      stList := stList[i + 1 := value];
    }

    /** Moves the transaction at index i towards the end, up to index j. */
    method Down(i: int, j: int)
      requires Represents(rstBuffer, dir) && Indexed(stList, dir) && 0 <= i < |stList| && j == |stList| - 1
      modifies this`stList, this`rstBuffer, this`dir
      ensures Represents(rstBuffer, dir) && Indexed(stList, dir)
      ensures stList == SiftDown(old(stList), i)
    {
      hide Represents, Indexed, IndexBelow, MovingDown, SiftDown, ApplySlot;
      var value := stList[i];
      MovingDownStart(stList, dir, i);
      var k := i + 1;
      while k <= j
        invariant i < k <= j + 1 == |stList|
        invariant Represents(rstBuffer, dir)
        invariant MovingDown(old(stList), i, stList, dir, value, k)
      {
        MovingDownStep(old(stList), i, stList, dir, value, k);
        var below := Less(k, value);
        if below {
          break;
        }
        ApplyIdx(dir[KeyOf(stList[k])], k - 1);
        Update(stList[k].Caller(), stList[k].Nonce(), [WithIdx(k - 1)]);
        stList := stList[k - 1 := stList[k]];
        k := k + 1;
      }
      MovingDownEnd(old(stList), i, stList, dir, value, k);
      ApplyIdx(dir[KeyOf(value)], k - 1);
      Update(value.Caller(), value.Nonce(), [WithIdx(k - 1)]);
      stList := stList[k - 1 := value];
    }

    /** Adds an entry for a new caller and nonce. */
    method AddRstBuffer(caller: Address, rst: Received)
      requires Represents(rstBuffer, dir) && Key(caller, rst.nonce) !in dir
      modifies this`rstBuffer, this`dir
      ensures Represents(rstBuffer, dir) && dir == old(dir)[Key(caller, rst.nonce) := Slot(rst.idx, rst.price)]
    {
      AddRepresents(rstBuffer, dir, caller, rst);
      dir := dir[Key(caller, rst.nonce) := Slot(rst.idx, rst.price)];
      if caller !in rstBuffer {
        rstBuffer := rstBuffer[caller := [rst]];
        return;
      }
      rstBuffer := rstBuffer[caller := rstBuffer[caller] + [rst]];
    }

    /** Deletes the caller's entry for the transaction at index idx. */
    method RmRecivedTransaction(caller: Address, idx: int)
      requires Represents(rstBuffer, dir) && Indexed(stList, dir)
      requires 0 <= idx < |stList| && stList[idx].Caller() == caller
      modifies this`rstBuffer, this`dir
      ensures Represents(rstBuffer, dir) && dir == old(dir) - {KeyOf(stList[idx])}
    {
      hide Represents, Indexed, Wrap;
      var rstList := if caller in rstBuffer then rstBuffer[caller] else [];
      ghost var before := rstList;
      EntryAtIndex(rstBuffer, dir, stList, idx);
      var i := 0;
      while i < |rstList|
        invariant 0 <= i <= |rstList| && rstList == before
        invariant forall k :: 0 <= k < i ==> rstList[k].idx != idx
      {
        if rstList[i].idx == idx {
          rstList := rstList[..i] + rstList[i + 1..];
          break;
        }
        i := i + 1;
      }
      assert i < |before|;
      DeleteRepresents(rstBuffer, dir, caller, i);
      dir := dir - {KeyOf(stList[idx])};
      if |rstList| == 0 {
        rstBuffer := rstBuffer - {caller};
      } else {
        rstBuffer := rstBuffer[caller := rstList];
      }
    }

    /** The source's push, with the current second as a parameter. */
    method Push(st: SignedTransaction, second: int)
      requires Valid()
      modifies this
      ensures Valid() && stList == Pushed(old(stList), st)
    {
      hide Represents, Indexed, Filed, Wrap, SiftUp, SiftFrom, Pushed, IndexOf, Ordered, UniqueKeys;
      PushedOrdered(stList, st);
      PushedCases(stList, st);
      OrderedUnique(stList);
      var caller, nonce := st.Caller(), st.Nonce();
      EntryFound(rstBuffer, dir, stList, KeyOf(st));
      if caller in rstBuffer {
        var rstList := rstBuffer[caller];
        var x := 0;
        while x < |rstList|
          invariant 0 <= x <= |rstList|
          invariant forall k :: 0 <= k < x ==> rstList[k].nonce != nonce
        {
          var rst := rstList[x];
          if rst.nonce == nonce {
            EntryMatches(rstBuffer, dir, stList, caller, x);
            if rst.price >= st.GasCap() {
              return;
            }
            ReplaceIndexed(stList, dir, rst.idx, st);
            FiledReplace(stList, hashBuffer, rst.idx, st);
            ApplyPrice(dir[KeyOf(st)], st.GasCap(), second);
            Update(caller, nonce, [WithPrice(st.GasCap()), WithTimestamp(second)]);
            hashBuffer := hashBuffer - {stList[rst.idx].Hash()};
            stList := stList[rst.idx := st];
            hashBuffer := hashBuffer[st.Hash() := EncodeKey(caller, nonce)];
            DownFrom(rst.idx);
            return;
          }
          x := x + 1;
        }
      }
      AppendIndexed(stList, dir, st);
      AppendUnique(stList, st);
      FiledAppend(stList, hashBuffer, st);
      stList := stList + [st];
      hashBuffer := hashBuffer[st.Hash() := EncodeKey(caller, nonce)];
      AddRstBuffer(caller, Received(nonce, |stList| - 1, st.GasCap(), second));
      FiledPermuted(stList, SiftUp(stList, |stList| - 1), hashBuffer);
      Up(|stList| - 1);
    }

    /** The loop of push after a replacement. */
    method DownFrom(idx: int)
      requires Represents(rstBuffer, dir) && Indexed(stList, dir) && Filed(stList, hashBuffer) && 0 <= idx < |stList|
      modifies this`stList, this`rstBuffer, this`dir
      ensures Represents(rstBuffer, dir) && Indexed(stList, dir) && Filed(stList, hashBuffer)
      ensures stList == SiftFrom(old(stList), idx)
    {
      hide Represents, Indexed, Filed;
      var i := idx;
      while i < |stList|
        invariant idx <= i <= |stList| == |old(stList)|
        invariant Represents(rstBuffer, dir) && Indexed(stList, dir) && Filed(stList, hashBuffer)
        invariant SiftFrom(stList, i) == SiftFrom(old(stList), idx)
      {
        FiledPermuted(stList, SiftDown(stList, i), hashBuffer);
        Down(i, |stList| - 1);
        i := i + 1;
      }
    }

    /** The source's pop; it is never called on an empty queue. */
    method Pop() returns (st: SignedTransaction)
      requires Valid() && stList != []
      modifies this
      ensures Valid() && st == old(stList)[|old(stList)| - 1] && stList == old(stList)[..|old(stList)| - 1]
    {
      hide Represents, Indexed, Filed, Ordered, Wrap;
      var n := |stList| - 1;
      st := stList[n];
      PoppedOrdered(stList);
      FiledDelete(stList, hashBuffer, n) by { OrderedUnique(stList); }
      assert Without(stList, n) == stList[..n];
      PopIndexed(stList, dir);
      hashBuffer := hashBuffer - {st.Hash()};
      RmRecivedTransaction(st.Caller(), n);
      stList := stList[..n];
    }

    /** The source's remove. */
    method Remove(idx: int)
      requires Valid()
      modifies this
      ensures Valid() && stList == Removed(old(stList), idx)
    {
      hide Represents, Indexed, Filed, Wrap, Shifting, SiftBack, ApplySlot;
      RemovedOrdered(stList, idx);
      if idx < 0 || idx >= |stList| {
        return;
      }
      ghost var L0 := stList;
      FiledDelete(stList, hashBuffer, idx);
      ShiftingStart(L0, dir, idx);
      RmRecivedTransaction(stList[idx].Caller(), idx);
      hashBuffer := hashBuffer - {stList[idx].Hash()};
      var i := idx + 1;
      while i < |stList|
        invariant idx < i <= |stList| == |L0|
        invariant hashBuffer == old(hashBuffer) - {L0[idx].Hash()}
        invariant Represents(rstBuffer, dir) && Shifting(L0, idx, stList, dir, i)
      {
        ShiftingStep(L0, idx, stList, dir, i);
        ApplyIdx(dir[KeyOf(stList[i])], i - 1);
        Update(stList[i].Caller(), stList[i].Nonce(), [WithIdx(i - 1)]);
        stList := stList[i - 1 := stList[i]];
        i := i + 1;
      }
      ShiftingEnd(L0, idx, stList, dir);
      stList := stList[..|stList| - 1];
      DownBack(idx - 1);
    }

    /** The last loop of remove. */
    method DownBack(idx: int)
      requires Represents(rstBuffer, dir) && Indexed(stList, dir) && Filed(stList, hashBuffer) && -1 <= idx < |stList|
      modifies this`stList, this`rstBuffer, this`dir
      ensures Represents(rstBuffer, dir) && Indexed(stList, dir) && Filed(stList, hashBuffer)
      ensures stList == SiftBack(old(stList), idx)
    {
      hide Represents, Indexed, Filed;
      var i := idx;
      while i >= 0
        invariant -1 <= i <= idx && |stList| == |old(stList)|
        invariant Represents(rstBuffer, dir) && Indexed(stList, dir) && Filed(stList, hashBuffer)
        invariant SiftBack(stList, i) == SiftBack(old(stList), idx)
      {
        FiledPermuted(stList, SiftDown(stList, i), hashBuffer);
        Down(i, |stList| - 1);
        i := i - 1;
      }
    }

    /** The source's getIndex: the position of a caller's transaction, by its nonce. */
    method GetIndex(caller: Address, nonce: U64) returns (res: Option<Received>)
      requires Valid()
      ensures res.Some? ==> 0 <= res.value.idx < |stList| && KeyOf(stList[res.value.idx]) == Key(caller, nonce)
      ensures res.None? ==> forall i :: 0 <= i < |stList| ==> KeyOf(stList[i]) != Key(caller, nonce)
    {
      hide Represents, Indexed, Filed, Ordered, Wrap;
      var rstList := if caller in rstBuffer then rstBuffer[caller] else [];
      var x := 0;
      EntryFound(rstBuffer, dir, stList, Key(caller, nonce));
      while x < |rstList|
        invariant 0 <= x <= |rstList|
        invariant forall k :: 0 <= k < x ==> rstList[k].nonce != nonce
      {
        if rstList[x].nonce == nonce {
          EntryMatches(rstBuffer, dir, stList, caller, x);
          return Some(rstList[x]);
        }
        x := x + 1;
      }
      return None;
    }

    /** The source's getAddrAndNonceByHash: exactly the hashes of queued transactions are found, each with
        its caller and nonce. */
    method GetAddrAndNonceByHash(hash: Digest) returns (res: Option<Key>)
      requires Valid()
      ensures res.Some? ==> exists i :: 0 <= i < |stList| && stList[i].Hash() == hash && KeyOf(stList[i]) == res.value
      ensures res.None? ==> forall i :: 0 <= i < |stList| ==> stList[i].Hash() != hash
    {
      if hash !in hashBuffer {
        return None;
      }
      ghost var i :| 0 <= i < |stList| && stList[i].Hash() == hash;
      DecodeEncode(stList[i].Caller(), stList[i].Nonce());
      res := DecodeKey(hashBuffer[hash]);
    }
  }

  // ----- the loops of up and down -----

  /** In the up loop, value is in hand and its place in the list is index i + 1. */
  ghost predicate MovingUp(L0: seq<SignedTransaction>, j: int, L: seq<SignedTransaction>, D: Directory,
                           value: SignedTransaction, i: int) {
    && -1 <= i < j < |L0| == |L|
    && IndexedBut(L[i + 1 := value], D, KeyOf(value))
    && SiftUp(L[i + 1 := value], i + 1) == SiftUp(L0, j)
  }

  lemma MovingUpStart(L: seq<SignedTransaction>, D: Directory, j: int)
    requires 0 <= j < |L| && Indexed(L, D)
    ensures MovingUp(L, j, L, D, L[j], j - 1)
  {
    IndexedUnique(L, D);
    assert L[j := L[j]] == L;
  }

  lemma MovingUpStep(L0: seq<SignedTransaction>, j: int, L: seq<SignedTransaction>, D: Directory,
                     value: SignedTransaction, i: int)
    requires MovingUp(L0, j, L, D, value, i) && i >= 0
    ensures KeyOf(value) in D && KeyOf(L[i]) in D
    ensures if IndexBelow(D, L[i], i, value)
            then MovingUp(L0, j, L[i + 1 := L[i]], D[KeyOf(L[i]) := Slot(i + 1, D[KeyOf(L[i])].price)], value, i - 1)
            else SiftUp(L[i + 1 := value], i + 1) == L[i + 1 := value]
  {
    hide Wrap;
    hide IndexedBut, SiftUp, IndexBelow, Below, SwapAt;
    var M := L[i + 1 := value];
    IndexedButKeys(M, D, KeyOf(value), i);
    IndexedButKeys(M, D, KeyOf(value), i + 1);
    IndexBelowIsBelow(M, D, i, value);
    SiftUpStep(M, i + 1);
    SwapIndexed(M, D, i, KeyOf(value), KeyOf(L[i]), i + 1);
    SwapInHand(L, i, value);
  }

  lemma MovingUpEnd(L0: seq<SignedTransaction>, j: int, L: seq<SignedTransaction>, D: Directory,
                    value: SignedTransaction, i: int)
    requires MovingUp(L0, j, L, D, value, i)
    requires i < 0 || SiftUp(L[i + 1 := value], i + 1) == L[i + 1 := value]
    ensures KeyOf(value) in D
    ensures L[i + 1 := value] == SiftUp(L0, j)
    ensures Indexed(L[i + 1 := value], D[KeyOf(value) := Slot(i + 1, D[KeyOf(value)].price)])
  {
    hide IndexedBut, SiftUp, Indexed;
    var M := L[i + 1 := value];
    IndexedButKeys(M, D, KeyOf(value), i + 1);
    SiftUpStep(M, i + 1);
    PlaceIndexed(M, D, i + 1);
  }

  lemma IndexedButKeys(L: seq<SignedTransaction>, D: Directory, y: Key, i: int)
    requires IndexedBut(L, D, y) && 0 <= i < |L|
    ensures KeyOf(L[i]) in D
  {
  }

  /** In the down loop, value is in hand and its place in the list is index k - 1. */
  ghost predicate MovingDown(L0: seq<SignedTransaction>, i: int, L: seq<SignedTransaction>, D: Directory,
                             value: SignedTransaction, k: int) {
    && 0 <= i < k <= |L0| == |L|
    && IndexedBut(L[k - 1 := value], D, KeyOf(value))
    && SiftDown(L[k - 1 := value], k - 1) == SiftDown(L0, i)
  }

  lemma MovingDownStart(L: seq<SignedTransaction>, D: Directory, i: int)
    requires 0 <= i < |L| && Indexed(L, D)
    ensures MovingDown(L, i, L, D, L[i], i + 1)
  {
    IndexedUnique(L, D);
    assert L[i := L[i]] == L;
  }

  /** The neighbour L[k] takes the place of the transaction in hand. */
  lemma DownSwap(L: seq<SignedTransaction>, D: Directory, value: SignedTransaction, k: int)
    requires 0 < k < |L| && IndexedBut(L[k - 1 := value], D, KeyOf(value)) && KeyOf(L[k]) in D
    ensures SwapAt(L[k - 1 := value], k - 1) == L[k - 1 := L[k]][k := value]
    ensures IndexedBut(L[k - 1 := L[k]][k := value], D[KeyOf(L[k]) := Slot(k - 1, D[KeyOf(L[k])].price)], KeyOf(value))
  {
    hide Wrap, IndexedBut, SwapAt, KeyOf;
    SwapInHand(L, k - 1, value);
    SwapIndexed(L[k - 1 := value], D, k - 1, KeyOf(value), KeyOf(L[k]), k - 1);
  }

  lemma MovedDown(L0: seq<SignedTransaction>, i: int, L: seq<SignedTransaction>, D: Directory,
                  value: SignedTransaction, k: int)
    requires 0 <= i < k < |L0| == |L| && IndexedBut(L[k - 1 := value], D, KeyOf(value)) && KeyOf(L[k]) in D
    requires SiftDown(SwapAt(L[k - 1 := value], k - 1), k) == SiftDown(L0, i)
    ensures MovingDown(L0, i, L[k - 1 := L[k]], D[KeyOf(L[k]) := Slot(k - 1, D[KeyOf(L[k])].price)], value, k + 1)
  {
    hide Wrap, IndexedBut, SiftDown, SwapAt, KeyOf;
    DownSwap(L, D, value, k);
  }

  lemma MovingDownStep(L0: seq<SignedTransaction>, i: int, L: seq<SignedTransaction>, D: Directory,
                       value: SignedTransaction, k: int)
    requires MovingDown(L0, i, L, D, value, k) && k < |L|
    ensures KeyOf(value) in D && KeyOf(L[k]) in D
    ensures if IndexBelow(D, L[k], k, value)
            then SiftDown(L[k - 1 := value], k - 1) == L[k - 1 := value]
            else MovingDown(L0, i, L[k - 1 := L[k]], D[KeyOf(L[k]) := Slot(k - 1, D[KeyOf(L[k])].price)], value, k + 1)
  {
    hide Wrap, IndexedBut, SiftDown, IndexBelow, Below, SwapAt, KeyOf;
    var M := L[k - 1 := value];
    IndexedButKeys(M, D, KeyOf(value), k);
    IndexedButKeys(M, D, KeyOf(value), k - 1);
    IndexBelowIsBelow(M, D, k, value);
    SiftDownStep(M, k - 1);
    hide MovingDown;
    if !IndexBelow(D, L[k], k, value) {
      MovedDown(L0, i, L, D, value, k);
    }
  }

  lemma MovingDownEnd(L0: seq<SignedTransaction>, i: int, L: seq<SignedTransaction>, D: Directory,
                      value: SignedTransaction, k: int)
    requires MovingDown(L0, i, L, D, value, k)
    requires k == |L| || SiftDown(L[k - 1 := value], k - 1) == L[k - 1 := value]
    ensures KeyOf(value) in D
    ensures L[k - 1 := value] == SiftDown(L0, i)
    ensures Indexed(L[k - 1 := value], D[KeyOf(value) := Slot(k - 1, D[KeyOf(value)].price)])
  {
    hide IndexedBut, SiftDown, Indexed;
    var M := L[k - 1 := value];
    IndexedButKeys(M, D, KeyOf(value), k - 1);
    SiftDownStep(M, k - 1);
    PlaceIndexed(M, D, k - 1);
  }

  lemma OnlyOwnEntry(R: Buffer, D: Directory, y: SignedTransaction, i: int)
    requires Represents(R, D) && KeyOf(y) in D && y.Caller() in R && |R[y.Caller()]| == 1
    ensures !IndexEarlier(D, i, y)
  {
    assert HasNonce(R[y.Caller()], y.Nonce());
    forall n: U64 | Key(y.Caller(), n) in D ensures n == y.Nonce() {
      assert HasNonce(R[Key(y.Caller(), n).caller], n);
    }
  }

  lemma NoEarlierEntry(R: Buffer, D: Directory, y: SignedTransaction, i: int)
    requires Represents(R, D) && KeyOf(y) in D && y.Caller() in R
    requires forall j :: 0 <= j < |R[y.Caller()]| ==> !(R[y.Caller()][j].nonce < y.Nonce() && R[y.Caller()][j].idx < i)
    ensures !IndexEarlier(D, i, y)
  {
    forall n: U64 | Key(y.Caller(), n) in D ensures !(n < y.Nonce() && D[Key(y.Caller(), n)].idx < i) {
      var j :| 0 <= j < |R[Key(y.Caller(), n).caller]| && R[Key(y.Caller(), n).caller][j].nonce == n;
    }
  }

  lemma IndexedUnique(L: seq<SignedTransaction>, D: Directory)
    requires Indexed(L, D)
    ensures UniqueKeys(L) && forall y :: IndexedBut(L, D, y)
  {
    forall i, j | 0 <= i < j < |L| ensures KeyOf(L[i]) != KeyOf(L[j]) {
      assert D[KeyOf(L[i])].idx == i && D[KeyOf(L[j])].idx == j;
    }
  }

  function SwapIndex(i: int, k: int): int {
    if k == i then i + 1 else if k == i + 1 then i else k
  }

  lemma SwapAtIndexes(L: seq<SignedTransaction>, i: int)
    requires 0 <= i < |L| - 1
    ensures |SwapAt(L, i)| == |L|
    ensures forall k :: 0 <= k < |L| ==> 0 <= SwapIndex(i, k) < |L| && SwapAt(L, i)[k] == L[SwapIndex(i, k)]
  {
  }

  lemma SwappedKey(L: seq<SignedTransaction>, M: seq<SignedTransaction>, D: Directory, i: int, y: Key, key: Key)
    requires IndexedBut(L, D, y) && 0 <= i < |L| - 1 && key in D && |M| == |L|
    requires forall k :: 0 <= k < |L| ==> 0 <= SwapIndex(i, k) < |L| && M[k] == L[SwapIndex(i, k)]
    ensures exists k :: 0 <= k < |M| && KeyOf(M[k]) == key
  {
    hide Wrap;
    var j :| 0 <= j < |L| && KeyOf(L[j]) == key;
    assert M[SwapIndex(i, j)] == L[SwapIndex(i, SwapIndex(i, j))];
  }

  /** Swapping the moving transaction y with its neighbour x, whose entry is updated. */
  lemma SwapIndexed(L: seq<SignedTransaction>, D: Directory, i: int, y: Key, x: Key, to: int)
    requires IndexedBut(L, D, y) && 0 <= i < |L| - 1
    requires (KeyOf(L[i + 1]) == y && KeyOf(L[i]) == x && to == i + 1)
          || (KeyOf(L[i]) == y && KeyOf(L[i + 1]) == x && to == i)
    ensures x in D && IndexedBut(SwapAt(L, i), D[x := Slot(to, D[x].price)], y)
  {
    hide Wrap;
    SwapUniqueKeys(L, i);
    SwapAtIndexes(L, i);
    SwapEntry(L, D, i, y, x, to, i);
    hide SwapAt, UniqueKeys;
    var M := SwapAt(L, i);
    var D' := D[x := Slot(to, D[x].price)];
    forall k | 0 <= k < |M| ensures KeyOf(M[k]) in D' && D'[KeyOf(M[k])].price == M[k].GasCap()
      && (KeyOf(M[k]) != y ==> D'[KeyOf(M[k])].idx == k)
    {
      SwapEntry(L, D, i, y, x, to, SwapIndex(i, k));
    }
    forall key | key in D' ensures exists k :: 0 <= k < |M| && KeyOf(M[k]) == key {
      SwappedKey(L, M, D, i, y, key);
    }
  }

  lemma SwapEntry(L: seq<SignedTransaction>, D: Directory, i: int, y: Key, x: Key, to: int, j: int)
    requires IndexedBut(L, D, y) && 0 <= i < |L| - 1 && 0 <= j < |L|
    requires (KeyOf(L[i + 1]) == y && KeyOf(L[i]) == x && to == i + 1)
          || (KeyOf(L[i]) == y && KeyOf(L[i + 1]) == x && to == i)
    ensures x in D && KeyOf(L[j]) in D[x := Slot(to, D[x].price)]
    ensures D[x := Slot(to, D[x].price)][KeyOf(L[j])].price == L[j].GasCap()
    ensures KeyOf(L[j]) != y ==> D[x := Slot(to, D[x].price)][KeyOf(L[j])].idx == SwapIndex(i, j)
  {
    hide Wrap;
    var from := if to == i then i + 1 else i;
    assert KeyOf(L[from]) == x;
    if j != from {
      DistinctAt(L, from, j);
    }
  }

  lemma DistinctAt(L: seq<SignedTransaction>, i: int, j: int)
    requires UniqueKeys(L) && 0 <= i < |L| && 0 <= j < |L| && i != j
    ensures KeyOf(L[i]) != KeyOf(L[j])
  {
    assert if i < j then KeyOf(L[i]) != KeyOf(L[j]) else KeyOf(L[j]) != KeyOf(L[i]);
  }

  /** Shifting the neighbour over the hole and keeping value in hand is a swap of the list with value in place. */
  lemma SwapInHand(L: seq<SignedTransaction>, i: int, value: SignedTransaction)
    requires 0 <= i < |L| - 1
    ensures SwapAt(L[i + 1 := value], i) == L[i + 1 := L[i]][i := value]
    ensures SwapAt(L[i := value], i) == L[i := L[i + 1]][i + 1 := value]
  {
  }

  /** Recording the final index of the moved transaction restores the directory. */
  lemma PlaceIndexed(L: seq<SignedTransaction>, D: Directory, i: int)
    requires 0 <= i < |L| && IndexedBut(L, D, KeyOf(L[i]))
    ensures Indexed(L, D[KeyOf(L[i]) := Slot(i, D[KeyOf(L[i])].price)])
  {
    hide Wrap;
  }

  // ----- what push, pop and remove do to the indexes -----

  /** A caller's entry belongs to the queued transaction at its index. */
  lemma EntryMatches(R: Buffer, D: Directory, L: seq<SignedTransaction>, c: Address, k: int)
    requires Represents(R, D) && Indexed(L, D) && c in R && 0 <= k < |R[c]|
    ensures var e := R[c][k];
            && Key(c, e.nonce) in D && 0 <= e.idx < |L| && KeyOf(L[e.idx]) == Key(c, e.nonce)
            && e.price == L[e.idx].GasCap() && IndexOf(L, Key(c, e.nonce)) == e.idx
  {
    hide Wrap;
    var key := Key(c, R[c][k].nonce);
    var i :| 0 <= i < |L| && KeyOf(L[i]) == key;
    assert D[key] == Slot(i, L[i].GasCap());
    IndexOfUnique(L, D, key, i);
  }

  lemma IndexOfUnique(L: seq<SignedTransaction>, D: Directory, key: Key, i: int)
    requires Indexed(L, D) && 0 <= i < |L| && KeyOf(L[i]) == key
    ensures IndexOf(L, key) == i
  {
    hide Wrap;
    var j := IndexOf(L, key);
    assert D[KeyOf(L[j])].idx == j;
  }

  lemma EntryAtIndex(R: Buffer, D: Directory, L: seq<SignedTransaction>, idx: int)
    requires Represents(R, D) && Indexed(L, D) && 0 <= idx < |L|
    ensures L[idx].Caller() in R
    ensures exists k :: 0 <= k < |R[L[idx].Caller()]| && R[L[idx].Caller()][k].idx == idx
    ensures forall k :: 0 <= k < |R[L[idx].Caller()]| && R[L[idx].Caller()][k].idx == idx ==>
              R[L[idx].Caller()][k].nonce == L[idx].Nonce()
  {
    hide Wrap;
    var c := L[idx].Caller();
    var key := KeyOf(L[idx]);
    assert key in D && D[key].idx == idx;
    var k :| 0 <= k < |R[key.caller]| && R[key.caller][k].nonce == key.nonce;
    assert R[c][k].idx == idx;
    forall k | 0 <= k < |R[c]| && R[c][k].idx == idx ensures R[c][k].nonce == L[idx].Nonce() {
      EntryMatches(R, D, L, c, k);
    }
  }

  /** When the caller has no entry with the nonce, no such transaction is queued. */
  lemma OrderedUnique(L: seq<SignedTransaction>)
    requires Ordered(L)
    ensures UniqueKeys(L)
  {
  }

  lemma AppendUnique(L: seq<SignedTransaction>, st: SignedTransaction)
    requires UniqueKeys(L) && forall i :: 0 <= i < |L| ==> KeyOf(L[i]) != KeyOf(st)
    ensures UniqueKeys(L + [st])
  {
    hide Wrap;
  }

  lemma PushedCases(L: seq<SignedTransaction>, st: SignedTransaction)
    ensures var k := IndexOf(L, KeyOf(st));
            Pushed(L, st) == if k == |L| then SiftUp(L + [st], |L|)
                             else if L[k].GasCap() >= st.GasCap() then L
                             else SiftFrom(L[k := st], k)
  {
    hide Wrap, IndexOf, SiftUp, SiftFrom;
  }

  lemma EntryFound(R: Buffer, D: Directory, L: seq<SignedTransaction>, key: Key)
    requires Represents(R, D) && Indexed(L, D)
    ensures key !in D <==> IndexOf(L, key) == |L|
    ensures key !in D ==> forall i :: 0 <= i < |L| ==> KeyOf(L[i]) != key
    ensures key.caller !in R || (forall k :: 0 <= k < |R[key.caller]| ==> R[key.caller][k].nonce != key.nonce) ==> key !in D
  {
    hide Wrap;
    if key in D {
      var i :| 0 <= i < |L| && KeyOf(L[i]) == key;
      IndexOfUnique(L, D, key, i);
    } else {
      assert forall i :: 0 <= i < |L| ==> KeyOf(L[i]) != key;
    }
  }

  /** Replacing a transaction by one with the same key updates only its price. */
  lemma ReplaceIndexed(L: seq<SignedTransaction>, D: Directory, idx: int, st: SignedTransaction)
    requires Indexed(L, D) && 0 <= idx < |L| && KeyOf(L[idx]) == KeyOf(st)
    ensures KeyOf(st) in D && D[KeyOf(st)].idx == idx
    ensures Indexed(L[idx := st], D[KeyOf(st) := Slot(idx, st.GasCap())])
  {
    hide Wrap;
    IndexedUnique(L, D);
    var M := L[idx := st];
    var D' := D[KeyOf(st) := Slot(idx, st.GasCap())];
    forall i | 0 <= i < |M| ensures KeyOf(M[i]) in D' && D'[KeyOf(M[i])] == Slot(i, M[i].GasCap()) {
      if i != idx {
        DistinctAt(L, i, idx);
      }
    }
    forall key | key in D' ensures exists i :: 0 <= i < |M| && KeyOf(M[i]) == key {
      var i :| 0 <= i < |L| && KeyOf(L[i]) == key;
      assert KeyOf(M[i]) == key;
    }
  }

  lemma AppendIndexed(L: seq<SignedTransaction>, D: Directory, st: SignedTransaction)
    requires Indexed(L, D) && KeyOf(st) !in D
    ensures Indexed(L + [st], D[KeyOf(st) := Slot(|L|, st.GasCap())])
  {
    hide Wrap;
    var M := L + [st];
    var D' := D[KeyOf(st) := Slot(|L|, st.GasCap())];
    forall i | 0 <= i < |M| ensures KeyOf(M[i]) in D' && D'[KeyOf(M[i])] == Slot(i, M[i].GasCap()) {
      assert i < |L| ==> M[i] == L[i] && KeyOf(L[i]) in D;
    }
    forall key | key in D' ensures exists i :: 0 <= i < |M| && KeyOf(M[i]) == key {
      if key == KeyOf(st) {
        assert KeyOf(M[|L|]) == key;
      } else {
        var i :| 0 <= i < |L| && KeyOf(L[i]) == key;
        assert KeyOf(M[i]) == key;
      }
    }
  }

  lemma PopIndexed(L: seq<SignedTransaction>, D: Directory)
    requires Indexed(L, D) && L != []
    ensures Indexed(L[..|L| - 1], D - {KeyOf(L[|L| - 1])})
  {
    hide Wrap;
    IndexedUnique(L, D);
    var n := |L| - 1;
    var M, D' := L[..n], D - {KeyOf(L[n])};
    forall i | 0 <= i < |M| ensures KeyOf(M[i]) in D' && D'[KeyOf(M[i])] == Slot(i, M[i].GasCap()) {
      DistinctAt(L, i, n);
    }
    forall key | key in D' ensures exists i :: 0 <= i < |M| && KeyOf(M[i]) == key {
      var i :| 0 <= i < |L| && KeyOf(L[i]) == key;
      assert KeyOf(M[i]) == key;
    }
  }

  /** Transactions with different keys have different hashes. */
  lemma DistinctHashes(L: seq<SignedTransaction>, i: int, j: int)
    requires UniqueKeys(L) && 0 <= i < |L| && 0 <= j < |L| && i != j
    ensures L[i].Hash() != L[j].Hash()
  {
    hide Wrap;
    DistinctAt(L, i, j);
  }

  lemma ReplacedHash(L: seq<SignedTransaction>, idx: int, st: SignedTransaction, i: int)
    requires UniqueKeys(L) && 0 <= idx < |L| && KeyOf(L[idx]) == KeyOf(st) && 0 <= i < |L| && i != idx
    ensures L[i].Hash() != L[idx].Hash() && L[i].Hash() != st.Hash()
  {
    hide Wrap;
    DistinctHashes(L, i, idx);
    DistinctAt(L, i, idx);
  }

  lemma FiledReplace(L: seq<SignedTransaction>, H: map<Digest, string>, idx: int, st: SignedTransaction)
    requires Filed(L, H) && UniqueKeys(L) && 0 <= idx < |L| && KeyOf(L[idx]) == KeyOf(st)
    ensures Filed(L[idx := st], (H - {L[idx].Hash()})[st.Hash() := EncodeKey(st.Caller(), st.Nonce())])
  {
    hide UniqueKeys, Wrap, EncodeKey, KeyOf;
    var M := L[idx := st];
    var H' := (H - {L[idx].Hash()})[st.Hash() := EncodeKey(st.Caller(), st.Nonce())];
    forall i | 0 <= i < |M|
      ensures M[i].Hash() in H' && H'[M[i].Hash()] == EncodeKey(M[i].Caller(), M[i].Nonce())
    {
      if i != idx {
        ReplacedHash(L, idx, st, i);
      }
    }
    forall h | h in H' ensures exists i :: 0 <= i < |M| && M[i].Hash() == h {
      if h == st.Hash() {
        assert M[idx].Hash() == h;
      } else {
        var i :| 0 <= i < |L| && L[i].Hash() == h;
        assert M[i].Hash() == h;
      }
    }
  }

  lemma FiledAppend(L: seq<SignedTransaction>, H: map<Digest, string>, st: SignedTransaction)
    requires Filed(L, H) && UniqueKeys(L + [st])
    ensures Filed(L + [st], H[st.Hash() := EncodeKey(st.Caller(), st.Nonce())])
  {
    hide Wrap, EncodeKey;
    var M := L + [st];
    var H' := H[st.Hash() := EncodeKey(st.Caller(), st.Nonce())];
    forall i | 0 <= i < |M|
      ensures M[i].Hash() in H' && H'[M[i].Hash()] == EncodeKey(M[i].Caller(), M[i].Nonce())
    {
      if i < |L| {
        DistinctHashes(M, i, |L|);
        assert M[i] == L[i];
      }
    }
    forall h | h in H' ensures exists i :: 0 <= i < |M| && M[i].Hash() == h {
      if h == st.Hash() {
        assert M[|L|].Hash() == h;
      } else {
        var i :| 0 <= i < |L| && L[i].Hash() == h;
        assert M[i].Hash() == h;
      }
    }
  }

  lemma FiledDelete(L: seq<SignedTransaction>, H: map<Digest, string>, idx: int)
    requires Filed(L, H) && UniqueKeys(L) && 0 <= idx < |L|
    ensures Filed(Without(L, idx), H - {L[idx].Hash()})
  {
    hide UniqueKeys, Wrap, EncodeKey;
    var M, H' := Without(L, idx), H - {L[idx].Hash()};
    forall i | 0 <= i < |M|
      ensures M[i].Hash() in H' && H'[M[i].Hash()] == EncodeKey(M[i].Caller(), M[i].Nonce())
    {
      var j := if i < idx then i else i + 1;
      assert M[i] == L[j];
      DistinctHashes(L, j, idx);
    }
    forall h | h in H' ensures exists i :: 0 <= i < |M| && M[i].Hash() == h {
      var j :| 0 <= j < |L| && L[j].Hash() == h;
      var i := if j < idx then j else j - 1;
      assert M[i] == L[j];
    }
  }

  /** Moving transactions around does not concern the hash index. */
  lemma FiledPermuted(L: seq<SignedTransaction>, M: seq<SignedTransaction>, H: map<Digest, string>)
    requires Filed(L, H) && multiset(L) == multiset(M)
    ensures Filed(M, H)
  {
    hide Wrap, EncodeKey;
    forall i | 0 <= i < |M|
      ensures M[i].Hash() in H && H[M[i].Hash()] == EncodeKey(M[i].Caller(), M[i].Nonce())
    {
      assert M[i] in multiset(L);
      var j :| 0 <= j < |L| && L[j] == M[i];
    }
    forall h | h in H ensures exists i :: 0 <= i < |M| && M[i].Hash() == h {
      var j :| 0 <= j < |L| && L[j].Hash() == h;
      assert L[j] in multiset(M);
      var i :| 0 <= i < |M| && M[i] == L[j];
    }
  }

  /** In the shifting loop of remove, the transactions up to index i have moved one place forward. */
  ghost predicate Shifting(L0: seq<SignedTransaction>, idx: int, L: seq<SignedTransaction>, D: Directory, i: int) {
    && 0 <= idx < i <= |L0| == |L|
    && UniqueKeys(L0)
    && (forall m :: 0 <= m < |L| ==> L[m] == L0[if idx <= m < i - 1 then m + 1 else m])
    && (forall m :: 0 <= m < |L| && m != idx ==>
          KeyOf(L0[m]) in D && D[KeyOf(L0[m])] == Slot(if idx < m < i then m - 1 else m, L0[m].GasCap()))
    && (forall key :: key in D ==> exists m :: 0 <= m < |L| && m != idx && KeyOf(L0[m]) == key)
  }

  lemma ShiftingStart(L: seq<SignedTransaction>, D: Directory, idx: int)
    requires Indexed(L, D) && 0 <= idx < |L|
    ensures Shifting(L, idx, L, D - {KeyOf(L[idx])}, idx + 1)
  {
    hide Wrap;
    IndexedUnique(L, D);
    var D' := D - {KeyOf(L[idx])};
    forall m | 0 <= m < |L| && m != idx
      ensures KeyOf(L[m]) in D' && D'[KeyOf(L[m])] == Slot(m, L[m].GasCap())
    {
      DistinctAt(L, m, idx);
    }
  }

  lemma ShiftingStep(L0: seq<SignedTransaction>, idx: int, L: seq<SignedTransaction>, D: Directory, i: int)
    requires Shifting(L0, idx, L, D, i) && i < |L|
    ensures KeyOf(L[i]) in D
    ensures Shifting(L0, idx, L[i - 1 := L[i]], D[KeyOf(L[i]) := Slot(i - 1, D[KeyOf(L[i])].price)], i + 1)
  {
    hide Wrap;
    assert L[i] == L0[i];
    var D' := D[KeyOf(L[i]) := Slot(i - 1, D[KeyOf(L[i])].price)];
    forall m | 0 <= m < |L| && m != idx
      ensures KeyOf(L0[m]) in D' && D'[KeyOf(L0[m])] == Slot(if idx < m < i + 1 then m - 1 else m, L0[m].GasCap())
    {
      if m != i {
        DistinctAt(L0, m, i);
      }
    }
  }

  lemma ShiftingEnd(L0: seq<SignedTransaction>, idx: int, L: seq<SignedTransaction>, D: Directory)
    requires Shifting(L0, idx, L, D, |L|)
    ensures L[..|L| - 1] == Without(L0, idx)
    ensures Indexed(L[..|L| - 1], D)
  {
    assert L[..|L| - 1] == Without(L0, idx);
    WithoutIndexed(L0, idx, D);
  }

  lemma WithoutIndexed(L: seq<SignedTransaction>, idx: int, D: Directory)
    requires 0 <= idx < |L|
    requires forall m :: 0 <= m < |L| && m != idx ==>
               KeyOf(L[m]) in D && D[KeyOf(L[m])] == Slot(if idx < m then m - 1 else m, L[m].GasCap())
    requires forall key :: key in D ==> exists m :: 0 <= m < |L| && m != idx && KeyOf(L[m]) == key
    ensures Indexed(Without(L, idx), D)
  {
    hide Wrap;
    var M := Without(L, idx);
    forall m | 0 <= m < |M| ensures KeyOf(M[m]) in D && D[KeyOf(M[m])] == Slot(m, M[m].GasCap()) {
      var k := if m < idx then m else m + 1;
      assert M[m] == L[k];
    }
    forall key | key in D ensures exists m :: 0 <= m < |M| && KeyOf(M[m]) == key {
      var k :| 0 <= k < |L| && k != idx && KeyOf(L[k]) == key;
      var m := if k < idx then k else k - 1;
      assert M[m] == L[k];
    }
  }
}
