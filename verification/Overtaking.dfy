/** Gossip messages handled by callers that overtake each other: the age test and the slot are separate steps. */
module Overtaking {
  import opened Options
  import opened Transactions
  import opened Gossip
  import opened Integers
  import Clock

  /** A caller of handleMessage, before the clock has witnessed its message, after that, after the age test, and
      at the end. */
  datatype Caller = Fresh(m: Message) | Seen(m: Message) | Young(m: Message) | Done(m: Message, accepted: bool)

  datatype System = System(clock: U64, slots: Slots, callers: seq<Caller>)

  datatype Action = Arrive(m: Message) | Go(i: nat)

  /** One step of one caller: witness, age test, or the slot under the lock. */
  function Step(s: System, a: Action): System
    requires |s.slots| > 0
  {
    match a
    case Arrive(m) => s.(callers := s.callers + [Fresh(m)])
    case Go(i) =>
      if i >= |s.callers| then s
      else
        match s.callers[i]
        case Fresh(m) => s.(clock := Clock.Witnessed(s.clock, m.time), callers := s.callers[i := Seen(m)])
        case Seen(m) =>
          s.(callers := s.callers[i := if TooOld(s.clock, |s.slots|, m.time) then Done(m, false) else Young(m)])
        case Young(m) =>
          var (isNew, slots) := Stored(s.slots, m);
          s.(slots := slots, callers := s.callers[i := Done(m, isNew)])
        case Done(m, accepted) => s
  }

  function Run(s: System, actions: seq<Action>): (s': System)
    requires |s.slots| > 0
    ensures |s'.slots| == |s.slots|
  {
    if actions == [] then s else Step(Run(s, actions[..|actions| - 1]), actions[|actions| - 1])
  }

  ghost predicate SlotRemembers(slots: Slots, m: Message)
    requires |slots| > 0
  {
    Gossip.Remembered(Gossip.State(0, slots), m)
  }

  /** Every slot holds a time that belongs there and at least one identifier. */
  ghost predicate Filled(slots: Slots)
    requires |slots| > 0
  {
    forall i :: 0 <= i < |slots| && slots[i].Some? ==> slots[i].value.time % |slots| == i && slots[i].value.ids != []
  }

  /** The slot of m's time holds a later one. */
  predicate MeetsLater(slots: Slots, m: Message)
    requires |slots| > 0
  {
    var slot := slots[m.time % |slots|];
    slot.Some? && slot.value.time > m.time
  }

  /** Storing keeps everything remembered if and only if it does not meet a later time; otherwise a message that was
      remembered would be accepted again at once. */
  lemma StoringKeeps(slots: Slots, m: Message)
    requires |slots| > 0 && Filled(slots)
    ensures var (isNew, slots') := Stored(slots, m);
            && |slots'| == |slots| && Filled(slots') && (isNew ==> SlotRemembers(slots', m))
            && ((forall x :: SlotRemembers(slots, x) ==> SlotRemembers(slots', x)) <==> !MeetsLater(slots, m))
            && (MeetsLater(slots, m) ==> exists x :: SlotRemembers(slots, x) && Stored(slots', x).0)
            && (!MeetsLater(slots, m) && SlotRemembers(slots, m) ==> !isNew)
  {
    var (isNew, slots') := Stored(slots, m);
    if MeetsLater(slots, m) {
      var seen := slots[m.time % |slots|].value;
      var x := Message(seen.time, seen.ids[0]);
      assert SlotRemembers(slots, x) && !SlotRemembers(slots', x) && Stored(slots', x).0;
    }
  }

  /** No storing step of the run meets a later time. */
  ghost predicate NoneOvertaken(s: System, actions: seq<Action>)
    requires |s.slots| > 0
  {
    forall k, i :: 0 <= k < |actions| && actions[k] == Go(i) ==> !Overtaken(Run(s, actions[..k]), i)
  }

  predicate Overtaken(s: System, i: nat)
    requires |s.slots| > 0
  {
    i < |s.callers| && s.callers[i].Young? && MeetsLater(s.slots, s.callers[i].m)
  }

  /** Two callers have both had the same message accepted. */
  ghost predicate TwiceAccepted(s: System) {
    exists i, j :: 0 <= i < j < |s.callers| && s.callers[i].Done? && s.callers[j].Done?
                   && s.callers[i].accepted && s.callers[j].accepted && s.callers[i].m == s.callers[j].m
  }

  ghost predicate AllRemembered(s: System)
    requires |s.slots| > 0
  {
    && Filled(s.slots)
    && (forall i :: 0 <= i < |s.callers| && s.callers[i].Done? && s.callers[i].accepted ==>
          SlotRemembers(s.slots, s.callers[i].m))
  }

  lemma StepRemembers(s: System, a: Action)
    requires |s.slots| > 0 && AllRemembered(s) && !TwiceAccepted(s)
    requires a.Go? ==> !Overtaken(s, a.i)
    ensures AllRemembered(Step(s, a)) && !TwiceAccepted(Step(s, a))
  {
    if a.Go? && a.i < |s.callers| && s.callers[a.i].Young? {
      StoringKeeps(s.slots, s.callers[a.i].m);
      hide Stored, Filled, SlotRemembers;
      var s' := Step(s, a);
      assert forall k :: 0 <= k < |s.callers| && k != a.i ==> s'.callers[k] == s.callers[k];
    } else {
      hide Stored, Filled, SlotRemembers, TooOld;
    }
  }

  /** However callers interleave, and whatever the times, no message is accepted twice in a run from an empty ring
      in which no storing step meets a later time. */
  lemma {:induction false} InterleavedOnce(s: System, actions: seq<Action>)
    requires |s.slots| > 0 && AllRemembered(s) && !TwiceAccepted(s) && NoneOvertaken(s, actions)
    ensures AllRemembered(Run(s, actions)) && !TwiceAccepted(Run(s, actions))
    decreases |actions|
  {
    hide Step, AllRemembered, TwiceAccepted, Overtaken;
    if actions != [] {
      var n := |actions| - 1;
      var front := actions[..n];
      assert forall k :: 0 <= k < n ==> front[..k] == actions[..k] && front[k] == actions[k];
      InterleavedOnce(s, front);
      StepRemembers(Run(s, front), actions[n]);
    }
  }

  lemma EmptyRemembers(clock: U64, slots: Slots)
    requires |slots| > 0 && forall i :: 0 <= i < |slots| ==> slots[i].None?
    ensures var s := System(clock, slots, []); AllRemembered(s) && !TwiceAccepted(s)
  {
  }

  // ----- an early caller overtaken by a late one -----

  lemma {:induction false} RunAppend(s: System, a: seq<Action>, b: seq<Action>)
    requires |s.slots| > 0
    ensures Run(s, a + b) == Run(Run(s, a), b)
    decreases |b|
  {
    hide Step;
    if b == [] {
      assert a + b == a;
    } else {
      var n := |b| - 1;
      assert (a + b)[..|a + b| - 1] == a + b[..n];
      RunAppend(s, a, b[..n]);
    }
  }

  lemma RunOne(s: System, a: Action)
    requires |s.slots| > 0
    ensures Run(s, [a]) == Step(s, a)
  {
    hide Step;
    assert [a][..0] == [];
  }

  /** A caller passes the age test undisturbed. */
  lemma Entering(s: System, i: nat, m: Message)
    requires |s.slots| > 0 && i < |s.callers| && s.callers[i] == Fresh(m)
    requires !TooOld(Clock.Witnessed(s.clock, m.time), |s.slots|, m.time)
    ensures Run(s, [Go(i), Go(i)]) ==
              System(Clock.Witnessed(s.clock, m.time), s.slots, s.callers[i := Young(m)])
  {
    hide TooOld, Clock.Witnessed;
    RunOne(s, Go(i));
    RunOne(Step(s, Go(i)), Go(i));
    RunAppend(s, [Go(i)], [Go(i)]);
    assert [Go(i)] + [Go(i)] == [Go(i), Go(i)];
    assert s.callers[i := Seen(m)][i := Young(m)] == s.callers[i := Young(m)];
    hide Run;
  }

  lemma Storing(s: System, i: nat, m: Message)
    requires |s.slots| > 0 && i < |s.callers| && s.callers[i] == Young(m)
    ensures Run(s, [Go(i)]) == System(s.clock, Stored(s.slots, m).1, s.callers[i := Done(m, Stored(s.slots, m).0)])
  {
    hide Stored;
    RunOne(s, Go(i));
  }

  /** A message at the time before the clock is never too old. */
  lemma RecentEnough(n: nat, time: U64)
    requires n > 0 && time < MaxUint64
    ensures !TooOld(time + 1, n, time)
  {
    if time + 1 > n {
      SmallDifference(time + 1, n);
    }
  }

  lemma SameSlot(t: int, n: int)
    requires n > 0
    ensures (t + n) % n == t % n
  {
    assert t == n * (t / n) + t % n;
    assert n * (t / n + 1) == n * (t / n) + n;
    QuotientUnique(t + n, n, t / n + 1);
  }

  /** The ring after one message at its place. */
  function Only(n: nat, m: Message): Slots
    requires n > 0
  {
    var none: Option<Received> := None;
    seq(n, k => none)[m.time % n := Some(Received(m.time, [m.id]))]
  }

  lemma StoredOnly(n: nat, slots: Slots, m: Message)
    requires n > 0 && |slots| == n && (forall k :: 0 <= k < n && k != m.time % n ==> slots[k].None?)
    requires slots[m.time % n].Some? ==> slots[m.time % n].value.time != m.time
    ensures Stored(slots, m) == (true, Only(n, m))
  {
    assert slots[m.time % n := Some(Received(m.time, [m.id]))] == Only(n, m);
  }

  function StartOf(n: nat, early: Message, late: Message): System
    requires n > 0
  {
    var none: Option<Received> := None;
    System(0, seq(n, k => none), [Fresh(early), Fresh(late), Fresh(late)])
  }

  const Before: seq<Action> := [Go(0), Go(0), Go(1), Go(1), Go(1)]
  const Behind: seq<Action> := [Go(0), Go(2), Go(2), Go(2)]

  /** The early caller has passed the age test when the late one takes its slot. */
  lemma LateStored(n: nat, early: Message, late: Message)
    requires n > 0 && late.time == early.time + n < MaxUint64
    ensures Run(StartOf(n, early, late), Before) ==
              System(late.time + 1, Only(n, late), [Young(early), Done(late, true), Fresh(late)])
  {
    var s := StartOf(n, early, late);
    RecentEnough(n, early.time);
    RecentEnough(n, late.time);
    WitnessedNext(0, early.time);
    WitnessedNext(early.time + 1, late.time);
    hide Run, Step, TooOld, Stored, Clock.Witnessed;
    Entering(s, 0, early);
    var s1 := Run(s, [Go(0), Go(0)]);
    Entering(s1, 1, late);
    var s2 := Run(s1, [Go(1), Go(1)]);
    Storing(s2, 1, late);
    StoredOnly(n, s2.slots, late);
    RunAppend(s, [Go(0), Go(0)], [Go(1), Go(1)]);
    RunAppend(s, [Go(0), Go(0)] + [Go(1), Go(1)], [Go(1)]);
    assert [Go(0), Go(0)] + [Go(1), Go(1)] + [Go(1)] == Before;
  }

  /** The early caller puts its own time into the slot, and another caller has the late message accepted again. */
  lemma LateAgain(n: nat, early: Message, late: Message)
    requires n > 0 && late.time == early.time + n < MaxUint64
    ensures TwiceAccepted(Run(System(late.time + 1, Only(n, late), [Young(early), Done(late, true), Fresh(late)]), Behind))
  {
    var s := System(late.time + 1, Only(n, late), [Young(early), Done(late, true), Fresh(late)]);
    RecentEnough(n, late.time);
    SameSlot(early.time, n);
    WitnessedNext(late.time + 1, late.time);
    hide Run, Step, TooOld, Stored, TwiceAccepted, Clock.Witnessed;
    Storing(s, 0, early);
    StoredOnly(n, s.slots, early);
    var s1 := Run(s, [Go(0)]);
    Entering(s1, 2, late);
    var s2 := Run(s1, [Go(2), Go(2)]);
    Storing(s2, 2, late);
    StoredOnly(n, s2.slots, late);
    RunAppend(s, [Go(0)], [Go(2), Go(2)]);
    RunAppend(s, [Go(0)] + [Go(2), Go(2)], [Go(2)]);
    assert [Go(0)] + [Go(2), Go(2)] + [Go(2)] == Behind;
    TwiceBy(Run(s, Behind), 1, 2, late);
  }

  /** In every ring, a caller overtaken between its two steps by a message one ring later meets that later time,
      and in the end the later message has been accepted twice. */
  lemma OvertakenRepeats(n: nat, early: Message, late: Message)
    requires n > 0 && late.time == early.time + n < MaxUint64
    ensures var s := StartOf(n, early, late);
            Overtaken(Run(s, Before), 0) && TwiceAccepted(Run(s, Before + Behind))
  {
    hide Run, Overtaken, TwiceAccepted, Only;
    var s := StartOf(n, early, late);
    LateStored(n, early, late);
    LateAgain(n, early, late);
    RunAppend(s, Before, Behind);
    SameSlot(early.time, n);
    OvertakenBy(Run(s, Before), 0, early, late);
  }

  lemma WitnessedNext(clock: U64, time: U64)
    requires time < MaxUint64 && clock <= time + 1
    ensures Clock.Witnessed(clock, time) == time + 1
  {
  }

  lemma OvertakenBy(s: System, i: nat, early: Message, late: Message)
    requires |s.slots| > 0 && i < |s.callers| && s.callers[i] == Young(early) && early.time < late.time
    requires early.time % |s.slots| == late.time % |s.slots| && s.slots == Only(|s.slots|, late)
    ensures Overtaken(s, i)
  {
  }

  lemma TwiceBy(s: System, i: nat, j: nat, m: Message)
    requires i < j < |s.callers| && s.callers[i] == Done(m, true) && s.callers[j] == Done(m, true)
    ensures TwiceAccepted(s)
  {
  }
}
