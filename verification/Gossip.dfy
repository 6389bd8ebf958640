/** Gossip messages: a ring of recently seen identifiers, by Lamport time, keeps a message from being handled twice. */
module Gossip {
  import opened Options
  import opened Transactions
  import opened Clock
  import opened Integers

  /** The hash of a payload. */
  datatype Id = Id(digest: nat)

  datatype Message = Message(time: U64, id: Id)

  /** The source's receivedMessage: the identifiers seen at one time. */
  datatype Received = Received(time: U64, ids: seq<Id>)

  type Slots = seq<Option<Received>>

  datatype State = State(clock: U64, slots: Slots)

  // ----- handleMessage as a function of the state -----

  /** The first half: the clock witnesses the time, and old messages are sent away. The source compares the
      difference of two 64-bit numbers. */
  function TooOld(clock: U64, n: nat, time: U64): bool
  {
    clock > n && time < Wrap(clock - n)
  }

  /** The second half, under the lock: whether the identifier is new, and the slots afterwards. */
  function Stored(slots: Slots, m: Message): (bool, Slots)
    requires |slots| > 0
  {
    var i := m.time % |slots|;
    match slots[i]
    case Some(seen) =>
      if seen.time == m.time then
        if m.id in seen.ids then (false, slots)
        else (true, slots[i := Some(Received(m.time, seen.ids + [m.id]))])
      else (true, slots[i := Some(Received(m.time, [m.id]))])
    case None => (true, slots[i := Some(Received(m.time, [m.id]))])
  }

  function Handled(s: State, m: Message): (bool, State)
    requires |s.slots| > 0
  {
    var clock := Witnessed(s.clock, m.time);
    if TooOld(clock, |s.slots|, m.time) then (false, State(clock, s.slots))
    else
      var (isNew, slots) := Stored(s.slots, m);
      (isNew, State(clock, slots))
  }

  class Node {
    const clock: LamportClock
    const buffer: array<Option<Received>>

    ghost predicate Valid()
      reads this
    {
      buffer.Length > 0
    }

    ghost function St(): State
      reads this, clock, buffer
    {
      State(clock.counter, buffer[..])
    }

    /** Create: an empty ring, and the clock at one. */
    constructor (size: nat)
      requires size > 0
      ensures Valid() && fresh(clock) && fresh(buffer)
      ensures St() == State(1, seq(size, i => None))
    {
      var c := new LamportClock();
      var t := c.Increment();
      clock := c;
      buffer := new Option<Received>[size](i => None);
    }

    /** handleMessage, undisturbed by other callers; true means that the payload is handled. */
    method HandleMessage(m: Message) returns (accepted: bool)
      requires Valid()
      modifies clock, buffer
      ensures Valid() && (accepted, St()) == Handled(old(St()), m)
    {
      ghost var slots := buffer[..];
      clock.Witness(m.time);
      var current := clock.Time();
      if current > buffer.Length && m.time < Wrap(current - buffer.Length) {
        return false;
      }
      var i := m.time % buffer.Length;
      var seen := buffer[i];
      assert buffer[..] == slots && seen == slots[i];
      if seen.Some? && seen.value.time == m.time {
        var k := 0;
        while k < |seen.value.ids|
          invariant 0 <= k <= |seen.value.ids| && m.id !in seen.value.ids[..k]
          invariant buffer[..] == slots && clock.counter == current
        {
          if seen.value.ids[k] == m.id {
            assert m.id in seen.value.ids;
            return false;
          }
          k := k + 1;
        }
        assert seen.value.ids[..k] == seen.value.ids;
      } else {
        seen := Some(Received(m.time, []));
        assert seen.value.ids + [m.id] == [m.id];
      }
      buffer[i] := Some(Received(m.time, seen.value.ids + [m.id]));
      assert buffer[..] == slots[i := Some(Received(m.time, seen.value.ids + [m.id]))];
      return true;
    }
  }

  // ----- runs -----

  function After(s: State, ms: seq<Message>): (s': State)
    requires |s.slots| > 0
    ensures |s'.slots| == |s.slots|
  {
    if ms == [] then s else Handled(After(s, ms[..|ms| - 1]), ms[|ms| - 1]).1
  }

  predicate AcceptedAt(s: State, ms: seq<Message>, i: nat)
    requires |s.slots| > 0 && i < |ms|
  {
    Handled(After(s, ms[..i]), ms[i]).0
  }

  ghost predicate WasAccepted(s: State, ms: seq<Message>, m: Message)
    requires |s.slots| > 0
  {
    exists i: nat :: i < |ms| && ms[i] == m && AcceptedAt(s, ms, i)
  }

  ghost predicate NoGreatestTime(ms: seq<Message>) {
    forall i :: 0 <= i < |ms| ==> ms[i].time < MaxUint64
  }

  /** Every slot holds a time that belongs there and is behind the clock. */
  ghost predicate InPlace(s: State)
    requires |s.slots| > 0
  {
    forall i :: 0 <= i < |s.slots| && s.slots[i].Some? ==>
      s.slots[i].value.time % |s.slots| == i && s.slots[i].value.time < s.clock
  }

  ghost predicate Holds(s: State, m: Message)
    requires |s.slots| > 0
  {
    var slot := s.slots[m.time % |s.slots|];
    slot.Some? && slot.value.time == m.time && m.id in slot.value.ids
  }

  /** The message is remembered, or its slot has moved on to a later time. */
  ghost predicate Remembered(s: State, m: Message)
    requires |s.slots| > 0
  {
    var slot := s.slots[m.time % |s.slots|];
    slot.Some? && slot.value.time >= m.time && (slot.value.time == m.time ==> m.id in slot.value.ids)
  }

  lemma NotLater(a: int, b: int, n: int)
    requires n > 0 && a % n == b % n && a / n >= b / n
    ensures a >= b
  {
    MonotoneProduct(b / n, a / n, n);
    assert a == n * (a / n) + a % n && b == n * (b / n) + b % n;
  }

  /** Different times in the same slot are a whole ring apart. */
  lemma MultipleApart(a: int, b: int, n: int)
    requires n > 0 && a < b && a % n == b % n
    ensures a + n <= b
  {
    if a / n >= b / n {
      NotLater(a, b, n);
      assert false;
    }
    MonotoneProduct(a / n + 1, b / n, n);
    assert a == n * (a / n) + a % n && b == n * (b / n) + b % n;
  }

  /** A slot's time is never later than that of a message that passes the age test. */
  lemma SlotNotLater(s: State, m: Message)
    requires |s.slots| > 0 && InPlace(s) && m.time < MaxUint64
    requires !TooOld(Witnessed(s.clock, m.time), |s.slots|, m.time)
    ensures var slot := s.slots[m.time % |s.slots|]; slot.Some? ==> slot.value.time <= m.time
  {
    var n := |s.slots|;
    var slot := s.slots[m.time % n];
    if slot.Some? && slot.value.time > m.time {
      MultipleApart(m.time, slot.value.time, n);
    }
  }

  /** Holding and remembering only look at the slots. */
  lemma SameSlots(s: State, s': State)
    requires |s.slots| > 0 && s'.slots == s.slots
    ensures forall x :: Holds(s', x) == Holds(s, x) && Remembered(s', x) == Remembered(s, x)
  {
  }

  lemma StoredInPlace(s: State, clock: U64, m: Message)
    requires |s.slots| > 0 && InPlace(s) && s.clock <= clock && m.time < clock
    ensures InPlace(State(clock, Stored(s.slots, m).1)) && InPlace(State(clock, s.slots))
    ensures |Stored(s.slots, m).1| == |s.slots|
  {
  }

  /** The age test in numbers: exactly the messages a whole ring behind the clock are sent away. */
  lemma OldExactly(clock: U64, n: nat, time: U64)
    requires n > 0 && time < MaxUint64
    ensures TooOld(Witnessed(clock, time), n, time) <==> time + n < clock
  {
    if n <= Witnessed(clock, time) {
      SmallDifference(Witnessed(clock, time), n);
    }
  }

  /** One message: the ring stays in place, what was remembered stays so, and exactly the messages that are
      young enough and not held are accepted; the accepted one is held afterwards. */
  lemma HandledKeeps(s: State, m: Message)
    requires |s.slots| > 0 && InPlace(s) && m.time < MaxUint64
    ensures var (accepted, s') := Handled(s, m);
            && InPlace(s') && s.clock <= s'.clock && m.time < s'.clock
            && (accepted <==> m.time + |s.slots| >= s.clock && !Holds(s, m))
            && (accepted ==> !Remembered(s, m) && Remembered(s', m))
            && (forall x :: Remembered(s, x) ==> Remembered(s', x))
            && (forall x :: Holds(s', x) ==> Holds(s, x) || (accepted && x == m))
  {
    hide InPlace, Holds, Remembered, TooOld, Witnessed, Stored;
    WitnessedAhead(s.clock, m.time);
    OldExactly(s.clock, |s.slots|, m.time);
    var clock := Witnessed(s.clock, m.time);
    StoredInPlace(s, clock, m);
    SameSlots(s, State(clock, s.slots));
    if !TooOld(clock, |s.slots|, m.time) {
      SlotNotLater(s, m);
      StoredKeeps(s, m);
      SameSlots(s.(slots := Stored(s.slots, m).1), State(clock, Stored(s.slots, m).1));
    }
  }

  lemma StoredKeeps(s: State, m: Message)
    requires |s.slots| > 0 && InPlace(s)
    requires var slot := s.slots[m.time % |s.slots|]; slot.Some? ==> slot.value.time <= m.time
    ensures var (isNew, slots) := Stored(s.slots, m); var s' := s.(slots := slots);
            && (isNew <==> !Holds(s, m)) && (isNew ==> !Remembered(s, m) && Remembered(s', m))
            && (forall x :: Remembered(s, x) ==> Remembered(s', x))
            && (forall x :: Holds(s', x) ==> Holds(s, x) || (isNew && x == m))
  {
  }

  /** After a run from an empty ring exactly the accepted messages have been held, and all are remembered. */
  lemma {:induction false} RunKeeps(s: State, ms: seq<Message>)
    requires |s.slots| > 0 && NoGreatestTime(ms) && forall i :: 0 <= i < |s.slots| ==> s.slots[i].None?
    ensures var s' := After(s, ms);
            && InPlace(s') && s.clock <= s'.clock
            && (forall i :: 0 <= i < |ms| ==> ms[i].time < s'.clock)
            && (forall x :: WasAccepted(s, ms, x) ==> Remembered(s', x))
            && (forall x :: Holds(s', x) ==> WasAccepted(s, ms, x))
    decreases |ms|
  {
    hide Handled, InPlace, Holds, Remembered, TooOld;
    if ms == [] {
      EmptyRing(s);
    } else {
      var n := |ms| - 1;
      var front := ms[..n];
      RunKeeps(s, front);
      HandledKeeps(After(s, front), ms[n]);
      forall x ensures WasAccepted(s, ms, x) <==> WasAccepted(s, front, x) || (AcceptedAt(s, ms, n) && x == ms[n]) {
        AcceptedStep(s, ms, x);
      }
    }
  }

  lemma EmptyRing(s: State)
    requires |s.slots| > 0 && forall i :: 0 <= i < |s.slots| ==> s.slots[i].None?
    ensures InPlace(s) && forall x :: !Holds(s, x)
  {
  }

  lemma AcceptedBefore(s: State, ms: seq<Message>, n: nat, i: nat)
    requires |s.slots| > 0 && i < n <= |ms|
    ensures ms[..n][i] == ms[i] && AcceptedAt(s, ms[..n], i) == AcceptedAt(s, ms, i)
  {
    hide Handled;
    assert ms[..n][..i] == ms[..i];
  }

  lemma AcceptedStep(s: State, ms: seq<Message>, x: Message)
    requires |s.slots| > 0 && ms != []
    ensures var n := |ms| - 1;
            WasAccepted(s, ms, x) <==> WasAccepted(s, ms[..n], x) || (AcceptedAt(s, ms, n) && x == ms[n])
  {
    hide AcceptedAt;
    var n := |ms| - 1;
    var front := ms[..n];
    forall i: nat | i < n ensures front[i] == ms[i] && AcceptedAt(s, front, i) == AcceptedAt(s, ms, i) {
      AcceptedBefore(s, ms, n, i);
    }
    if WasAccepted(s, front, x) {
      var i: nat :| i < n && front[i] == x && AcceptedAt(s, front, i);
      assert ms[i] == x && AcceptedAt(s, ms, i);
    }
    if WasAccepted(s, ms, x) {
      var i: nat :| i < |ms| && ms[i] == x && AcceptedAt(s, ms, i);
      assert i < n ==> front[i] == x && AcceptedAt(s, front, i);
    }
  }

  lemma HandledClock(s: State, m: Message)
    requires |s.slots| > 0
    ensures Handled(s, m).1.clock == Witnessed(s.clock, m.time)
  {
    hide TooOld, Stored, Witnessed;
  }

  /** From a clock at one, the clock stands behind the latest time seen. */
  lemma {:induction false} RunClock(s: State, ms: seq<Message>)
    requires |s.slots| > 0 && NoGreatestTime(ms) && s.clock == 1
    ensures var c := After(s, ms).clock; c == 1 || exists j :: 0 <= j < |ms| && c == ms[j].time + 1
    ensures forall j :: 0 <= j < |ms| ==> ms[j].time < After(s, ms).clock
    decreases |ms|
  {
    hide Handled;
    if ms != [] {
      var n := |ms| - 1;
      RunClock(s, ms[..n]);
      assert forall j :: 0 <= j < n ==> ms[..n][j] == ms[j];
      HandledClock(After(s, ms[..n]), ms[n]);
      WitnessedAhead(After(s, ms[..n]).clock, ms[n].time);
    }
  }

  /** The main result: in any run that never sees the greatest time, the i-th message is accepted exactly when no
      earlier one was a whole ring or more ahead of it and no earlier message with its time and identifier was
      accepted; so none is handled twice. */
  lemma AtMostOnce(size: nat, ms: seq<Message>, i: nat)
    requires size > 0 && NoGreatestTime(ms) && i < |ms|
    ensures var s := State(1, seq(size, k => None));
            && (AcceptedAt(s, ms, i) <==>
                  && (forall j :: 0 <= j < i ==> ms[j].time < ms[i].time + size)
                  && !exists j: nat :: j < i && ms[j] == ms[i] && AcceptedAt(s, ms, j))
            && After(s, ms[..i]).clock <= After(s, ms[..i + 1]).clock
            && forall j :: 0 <= j <= i ==> ms[j].time < After(s, ms[..i + 1]).clock
  {
    hide Handled, InPlace, Holds, Remembered, TooOld;
    var s := State(1, seq(size, k => None));
    var front := ms[..i];
    RunKeeps(s, front);
    RunClock(s, front);
    HandledKeeps(After(s, front), ms[i]);
    assert ms[..i + 1][..i] == front && ms[..i + 1][i] == ms[i];
    assert forall j: nat :: j < i ==> front[j] == ms[j] && front[..j] == ms[..j];
    assert WasAccepted(s, front, ms[i]) <==> exists j: nat :: j < i && ms[j] == ms[i] && AcceptedAt(s, ms, j);
    OldExactly(After(s, front).clock, size, ms[i].time);
    HeldIffAccepted(s, front, ms[i]);
  }

  /** Holding and having been accepted mean the same for a message that passes the age test. */
  lemma HeldIffAccepted(s: State, ms: seq<Message>, m: Message)
    requires |s.slots| > 0 && NoGreatestTime(ms) && m.time < MaxUint64
    requires forall i :: 0 <= i < |s.slots| ==> s.slots[i].None?
    ensures !TooOld(Witnessed(After(s, ms).clock, m.time), |s.slots|, m.time) ==>
              (Holds(After(s, ms), m) <==> WasAccepted(s, ms, m))
  {
    hide Handled, InPlace, TooOld;
    RunKeeps(s, ms);
    if !TooOld(Witnessed(After(s, ms).clock, m.time), |s.slots|, m.time) {
      SlotNotLater(After(s, ms), m);
    }
  }

  // ----- where the guarantee ends: the greatest time -----

  /** The slot of m's time still holds m, or has moved on to a later time behind the clock. */
  ghost predicate Kept(s: State, m: Message)
    requires |s.slots| > 0
  {
    var slot := s.slots[m.time % |s.slots|];
    Remembered(s, m) && slot.value.time % |s.slots| == m.time % |s.slots| && slot.value.time < s.clock
  }

  lemma AcceptedIsKept(s: State, m: Message)
    requires |s.slots| > 0 && Handled(s, m).0 && m.time < MaxUint64
    ensures Kept(Handled(s, m).1, m)
  {
    hide TooOld;
  }

  /** A message whose slot holds a later time behind the clock is too old. */
  lemma BehindIsOld(clock: U64, n: nat, time: U64, later: U64)
    requires n > 0 && time < later < clock && time % n == later % n
    ensures TooOld(Witnessed(clock, time), n, time)
  {
    MultipleApart(time, later, n);
    SmallDifference(clock, n);
  }

  lemma SmallDifference(clock: U64, n: nat)
    requires n <= clock
    ensures Wrap(clock - n) == clock - n
  {
  }

  /** Whatever the other slots hold, a kept message stays kept while the greatest time is not seen, and is refused. */
  lemma KeptStays(s: State, m: Message, x: Message)
    requires |s.slots| > 0 && Kept(s, m) && x.time < MaxUint64
    ensures Kept(Handled(s, x).1, m) && (x == m ==> !Handled(s, x).0)
  {
    var n := |s.slots|;
    var later := s.slots[m.time % n].value.time;
    WitnessedAhead(s.clock, x.time);
    if TooOld(Witnessed(s.clock, x.time), n, x.time) {
      hide TooOld, Stored, Witnessed;
    } else {
      if x.time % n == m.time % n && later > x.time {
        BehindIsOld(s.clock, n, x.time, later);
        assert false;
      }
      hide TooOld, Witnessed;
      KeptStored(s.slots, m, x);
    }
  }

  lemma KeptStored(slots: Slots, m: Message, x: Message)
    requires |slots| > 0 && Remembered(State(0, slots), m)
    requires slots[m.time % |slots|].value.time % |slots| == m.time % |slots|
    requires x.time % |slots| == m.time % |slots| ==> slots[m.time % |slots|].value.time <= x.time
    ensures var (isNew, slots') := Stored(slots, x); var i := m.time % |slots|;
            && |slots'| == |slots| && Remembered(State(0, slots'), m) && (x == m ==> !isNew)
            && (slots'[i] == slots[i]
                || (slots'[i].Some? && slots'[i].value.time == x.time && x.time % |slots| == m.time % |slots|))
  {
  }

  lemma {:induction false} KeptThrough(s: State, ms: seq<Message>, j: nat, i: nat)
    requires |s.slots| > 0 && j < i <= |ms| && AcceptedAt(s, ms, j)
    requires forall k :: j <= k < i ==> ms[k].time < MaxUint64
    ensures Kept(After(s, ms[..i]), ms[j])
    decreases i
  {
    hide Handled, Kept;
    assert ms[..i][..i - 1] == ms[..i - 1];
    if i == j + 1 {
      AcceptedIsKept(After(s, ms[..j]), ms[j]);
    } else {
      KeptThrough(s, ms, j, i - 1);
      KeptStays(After(s, ms[..i - 1]), ms[j], ms[i - 1]);
    }
  }

  /** From any state, a message that is accepted twice has the greatest time between its two acceptances. */
  lemma RepeatNeedsGreatest(s: State, ms: seq<Message>, j: nat, i: nat)
    requires |s.slots| > 0 && j < i < |ms| && ms[i] == ms[j] && AcceptedAt(s, ms, j) && AcceptedAt(s, ms, i)
    ensures exists k :: j <= k < i && ms[k].time == MaxUint64
  {
    hide Handled, Kept;
    if forall k :: j <= k < i ==> ms[k].time < MaxUint64 {
      KeptThrough(s, ms, j, i);
      KeptStays(After(s, ms[..i]), ms[j], ms[i]);
      assert false;
    }
  }

  lemma AfterOne(s: State, ms: seq<Message>, k: nat)
    requires |s.slots| > 0 && k < |ms|
    ensures After(s, ms[..k + 1]) == Handled(After(s, ms[..k]), ms[k]).1
  {
    hide Handled;
    assert ms[..k + 1][..k] == ms[..k];
  }

  /** An accepted message holds its slot, and the clock is one ahead of it or more. */
  lemma AcceptedHolds(s: State, m: Message)
    requires |s.slots| > 0 && Handled(s, m).0
    ensures Holds(Handled(s, m).1, m) && |Handled(s, m).1.slots| == |s.slots|
  {
    hide TooOld;
  }

  /** The greatest time sets the clock to zero and takes its slot. */
  lemma GreatestHandled(s: State, y: Id)
    requires |s.slots| > 0
    ensures var s' := Handled(s, Message(MaxUint64, y)).1; var i := MaxUint64 % |s.slots|;
            && s'.clock == 0 && |s'.slots| == |s.slots| && s'.slots[i].Some? && s'.slots[i].value.time == MaxUint64
            && forall k :: 0 <= k < |s.slots| && k != i ==> s'.slots[k] == s.slots[k]
  {
  }

  /** With the clock at zero a message is accepted exactly when its slot does not hold it. */
  lemma HandledAtZero(s: State, m: Message)
    requires |s.slots| > 0 && s.clock == 0 && m.time < MaxUint64
    ensures Handled(s, m).0 <==> !Holds(s, m)
  {
  }

  /** The clock wraps around to zero, so an accepted message is accepted a second time after the greatest time,
      if and only if that takes the message's slot. */
  lemma GreatestTimeRepeats(s: State, m: Message, y: Id)
    requires |s.slots| > 0 && m.time < MaxUint64 && Handled(s, m).0
    ensures var ms := [m, Message(MaxUint64, y), m];
            AcceptedAt(s, ms, 0) && (AcceptedAt(s, ms, 2) <==> m.time % |s.slots| == MaxUint64 % |s.slots|)
  {
    hide Handled, Holds;
    var ms := [m, Message(MaxUint64, y), m];
    AfterOne(s, ms, 0);
    AfterOne(s, ms, 1);
    assert ms[..0] == [];
    var s1 := Handled(s, m).1;
    var s2 := Handled(s1, Message(MaxUint64, y)).1;
    assert After(s, ms[..2]) == s2;
    AcceptedHolds(s, m);
    GreatestHandled(s1, y);
    HandledAtZero(s2, m);
    SlotDecides(s1, s2, m);
  }

  lemma SlotDecides(s1: State, s2: State, m: Message)
    requires |s1.slots| == |s2.slots| > 0 && m.time < MaxUint64 && Holds(s1, m)
    requires var i := MaxUint64 % |s1.slots|;
             && s2.slots[i].Some? && s2.slots[i].value.time == MaxUint64
             && forall k :: 0 <= k < |s1.slots| && k != i ==> s2.slots[k] == s1.slots[k]
    ensures Holds(s2, m) <==> m.time % |s1.slots| != MaxUint64 % |s1.slots|
  {
  }
}
