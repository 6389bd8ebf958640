/** The Lamport clock: one caller at a time, and any number of callers interleaved at the atomic operations. */
module Clock {
  import opened Transactions

  /** The counter after witnessing the time v; the successor of the greatest time is zero. */
  function Witnessed(current: U64, v: U64): U64 {
    if v < current then current else Wrap(v + 1)
  }

  /** Witnessing never turns the clock back and puts it ahead of v, unless v is the greatest time there is. */
  lemma WitnessedAhead(current: U64, v: U64)
    ensures v < Witnessed(current, v) <==> v != MaxUint64
    ensures current <= Witnessed(current, v) <==> v != MaxUint64 || current == 0
  {
  }

  class LamportClock {
    var counter: U64

    constructor ()
      ensures counter == 0
    {
      counter := 0;
    }

    method Time() returns (t: U64)
      ensures t == counter
    {
      t := counter;
    }

    method Increment() returns (t: U64)
      modifies this
      ensures counter == Wrap(old(counter) + 1) && t == counter
    {
      counter := Wrap(counter + 1);
      t := counter;
    }

    method CompareAndSwap(old': U64, new': U64) returns (swapped: bool)
      modifies this
      ensures swapped == (old(counter) == old')
      ensures counter == if swapped then new' else old(counter)
    {
      swapped := counter == old';
      if swapped {
        counter := new';
      }
    }

    /** Undisturbed, the loop ends after one turn. */
    method Witness(v: U64)
      modifies this
      ensures counter == Witnessed(old(counter), v)
    {
      var done := false;
      while !done
        invariant !done ==> counter == old(counter)
        invariant done ==> counter == Witnessed(old(counter), v)
        decreases !done
      {
        var current := counter;
        if v < current {
          return;
        }
        done := CompareAndSwap(current, Wrap(v + 1));
      }
    }
  }

  // ----- any number of callers -----

  /** Where a caller of Witness stands: before reading the counter, having read it, or finished. */
  datatype Caller = Start(v: U64) | Loaded(v: U64, current: U64) | Done(v: U64)

  datatype System = System(counter: U64, callers: seq<Caller>)

  /** One atomic operation: caller i goes on, or somebody increments the clock, or a new caller arrives. */
  datatype Action = Go(i: nat) | Tick | Arrive(v: U64)

  function Step(s: System, a: Action): System {
    match a
    case Arrive(v) => s.(callers := s.callers + [Start(v)])
    case Tick => s.(counter := Wrap(s.counter + 1))
    case Go(i) =>
      if i >= |s.callers| then s
      else
        match s.callers[i]
        case Start(v) => s.(callers := s.callers[i := Loaded(v, s.counter)])
        case Loaded(v, current) =>
          if v < current then s.(callers := s.callers[i := Done(v)])
          else if s.counter == current then System(Wrap(v + 1), s.callers[i := Done(v)])
          else s.(callers := s.callers[i := Start(v)])
        case Done(v) => s
  }

  function Run(s: System, actions: seq<Action>): System {
    if actions == [] then s else Step(Run(s, actions[..|actions| - 1]), actions[|actions| - 1])
  }

  /** The step puts the clock back to zero: an increment of the greatest value, or the exchange of a caller that
      witnesses the greatest time. */
  predicate Wraps(s: System, a: Action) {
    match a
    case Arrive(v) => false
    case Tick => s.counter == MaxUint64
    case Go(i) => i < |s.callers| && s.callers[i] == Loaded(MaxUint64, s.counter)
  }

  ghost predicate NeverWraps(s: System, actions: seq<Action>) {
    forall k :: 0 <= k < |actions| ==> !Wraps(Run(s, actions[..k]), actions[k])
  }

  /** What was read is not ahead of the clock, and whoever has finished has put the clock ahead of its time. */
  ghost predicate Ahead(s: System) {
    forall i :: 0 <= i < |s.callers| ==>
      match s.callers[i]
      case Start(v) => true
      case Loaded(v, current) => current <= s.counter
      case Done(v) => v < s.counter
  }

  /** Each atomic operation keeps the clock from going back and finished callers behind it if and only if it does
      not put the clock back to zero. */
  lemma StepAhead(s: System, a: Action)
    requires Ahead(s)
    ensures s.counter <= Step(s, a).counter && Ahead(Step(s, a)) <==> !Wraps(s, a)
  {
    var s' := Step(s, a);
    if a.Go? && Wraps(s, a) {
      assert s'.callers[a.i] == Done(MaxUint64);
    }
    if !Wraps(s, a) {
      forall i | 0 <= i < |s'.callers|
        ensures match s'.callers[i]
                case Start(v) => true
                case Loaded(v, current) => current <= s'.counter
                case Done(v) => v < s'.counter
      {
        assert i < |s.callers| ==> s.callers[i].v <= MaxUint64;
      }
    }
  }

  /** However the callers interleave, the clock never goes back and ends ahead of every time witnessed. */
  lemma {:induction false} RunAhead(s: System, actions: seq<Action>)
    requires Ahead(s) && NeverWraps(s, actions)
    ensures s.counter <= Run(s, actions).counter && Ahead(Run(s, actions))
    decreases |actions|
  {
    hide Wrap, Step, Ahead, Wraps;
    if actions != [] {
      var n := |actions| - 1;
      var front := actions[..n];
      assert forall k :: 0 <= k <= n ==> front[..k] == actions[..k];
      assert forall k :: 0 <= k < n ==> front[k] == actions[k];
      RunAhead(s, front);
      assert !Wraps(Run(s, actions[..n]), actions[n]);
      StepAhead(Run(s, front), actions[n]);
    }
  }

  /** A failed exchange means that somebody else moved the clock on: the loop of Witness is lock-free. */
  lemma FailureIsProgress(s: System, i: nat)
    requires Ahead(s) && i < |s.callers| && s.callers[i].Loaded? && Step(s, Go(i)).callers[i].Start?
    ensures s.counter > s.callers[i].current
  {
  }
}
