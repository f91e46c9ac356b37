/** `DMThreadQueue`: a ring of 50 events behind a lock. The class gives the critical sections; the state
    machine lets any number of threads run them in any order. */
module ThreadQueue {

  const MAX_LEN := 50

  datatype Event = Event(id: nat, data: nat)

  // ---------- the ring ----------

  /** Where the `i`-th oldest of `size` events is. */
  function Slot(head: nat, size: nat, i: nat): (k: nat)
    requires head < MAX_LEN && i <= size <= MAX_LEN
    ensures k < MAX_LEN
  {
    (head + MAX_LEN - size + i) % MAX_LEN
  }

  /** What a `Wait` brings back. */
  datatype Outcome = Nothing | Timeout | Taken(event: Event)

  class DMThreadQueue {
    const events: array<Event>
    var head: nat
    var size: nat
    var timerSet: bool

    ghost predicate Valid()
      reads this
    {
      events.Length == MAX_LEN && head < MAX_LEN && size <= MAX_LEN
    }

    /** The queued events, oldest first. */
    ghost function Contents(): (s: seq<Event>)
      reads this, events
      requires Valid()
      ensures |s| == size
    {
      seq(size, i requires 0 <= i < size && Valid() reads this, events => events[Slot(head, size, i)])
    }

    /** The ring is in the state the state machine says it is. */
    ghost predicate Matches(s: State)
      reads this, events
    {
      Valid() && s.contents == Contents() && s.timerSet == timerSet
    }

    constructor (none: Event)
      ensures Valid() && Contents() == [] && !timerSet && fresh(events)
    {
      events := new Event[MAX_LEN](_ => none);
      head, size, timerSet := 0, 0, false;
    }

    /** The first critical section of `Post`, which ends in the unlocked wait when the ring is full. */
    method PostFirst(e: Event) returns (accepted: bool)
      requires Valid()
      modifies this`head, this`size, events
      ensures Valid() && accepted == (|old(Contents())| < 50)
      ensures Contents() == if accepted then old(Contents()) + [e] else old(Contents())
      ensures forall s, t | old(Matches(s)) && PhaseOf(s, t) == Idle ::
                var r := Next(s, Post(t, e));
                Matches(r) && r.accepted == if accepted then s.accepted + [e] else s.accepted
    {
      if size == MAX_LEN {
        return false;
      }
      accepted := PostAgain(e);
    }

    /** The rest of `Post`, after the lock has been taken again: the recheck and the store. */
    method PostAgain(e: Event) returns (accepted: bool)
      requires Valid()
      modifies this`head, this`size, events
      ensures Valid() && accepted == (|old(Contents())| < 50)
      ensures Contents() == if accepted then old(Contents()) + [e] else old(Contents())
      ensures forall s, t | old(Matches(s)) && PhaseOf(s, t) == InGap(e) ::
                var r := Next(s, PostRetry(t));
                Matches(r) && r.accepted == if accepted then s.accepted + [e] else s.accepted
    {
      if size == MAX_LEN {
        return false;
      }
      hide Slot;
      ghost var was, h, n := Contents(), head, size;
      assert forall i :: 0 <= i < n ==> was[i] == events[Slot(h, n, i)];
      events[head] := e;
      head := (head + 1) % MAX_LEN;
      size := size + 1;
      forall i | 0 <= i < n ensures Slot(head, size, i) == Slot(h, n, i) && Slot(h, n, i) != h {
        SlotsStay(h, n, i);
      }
      NewestSlot(h, n);
      return true;
    }

    /** The end of `Wait`, under the lock. A timer that has fired goes first and takes no event. */
    method Finish(timerReady: bool) returns (outcome: Outcome)
      requires Valid()
      modifies this`size, this`timerSet
      ensures Valid()
      ensures old(timerSet) && timerReady ==> outcome == Timeout && !timerSet && Contents() == old(Contents())
      ensures !(old(timerSet) && timerReady) ==> timerSet == old(timerSet)
      ensures !(old(timerSet) && timerReady) && old(Contents()) == [] ==> outcome == Nothing && Contents() == []
      ensures !(old(timerSet) && timerReady) && old(Contents()) != [] ==>
                outcome == Taken(old(Contents())[0]) && Contents() == old(Contents())[1..]
      ensures forall s, t | old(Matches(s)) ::
                Matches(Finished(s, t, timerReady)) && Tells(s, Finished(s, t, timerReady), outcome)
    {
      if timerSet && timerReady {
        timerSet := false;
        return Timeout;
      }
      if size == 0 {
        return Nothing;
      }
      ghost var was, n := Contents(), size;
      var index := (head + MAX_LEN - size) % MAX_LEN;
      size := size - 1;
      forall i | 0 <= i < size ensures Slot(head, size, i) == Slot(head, n, i + 1) {
      }
      return Taken(events[index]);
    }

    /** The first critical section of `Wait`, up to the wait for the condition or to the end. */
    method WaitFirst(mayBlock: bool, timerReady: bool) returns (blocked: bool, outcome: Outcome)
      requires Valid()
      modifies this`size, this`timerSet
      ensures Valid() && blocked == (old(Contents()) == [] && mayBlock)
      ensures forall s, t | old(Matches(s)) && PhaseOf(s, t) == Idle ::
                var r := Next(s, Wait(t, mayBlock, timerReady));
                && Matches(r) && PhaseOf(r, t) == (if blocked then Asleep else Idle) && Tells(s, r, outcome)
    {
      blocked, outcome := size == 0 && mayBlock, Nothing;
      if !blocked {
        outcome := Finish(timerReady);
      }
    }

    /** After the condition was signalled or a time ran out: back to the wait, or to the end. `giveUp` is the
        verdict of the clock that leaves the loop. */
    method WaitAgain(giveUp: bool, timerReady: bool) returns (blocked: bool, outcome: Outcome)
      requires Valid()
      modifies this`size, this`timerSet
      ensures Valid() && blocked == (old(Contents()) == [] && !giveUp)
      ensures forall s, t | old(Matches(s)) && PhaseOf(s, t) == Asleep ::
                var r := Next(s, Wake(t, giveUp, timerReady));
                && Matches(r) && PhaseOf(r, t) == (if blocked then Asleep else Idle) && Tells(s, r, outcome)
    {
      blocked, outcome := size == 0 && !giveUp, Nothing;
      if !blocked {
        outcome := Finish(timerReady);
      }
    }

    method SetTimer()
      modifies this`timerSet
      ensures timerSet && forall s | old(Matches(s)) :: Matches(Next(s, Step.SetTimer))
    {
      timerSet := true;
    }

    method KillTimer()
      modifies this`timerSet
      ensures !timerSet && forall s | old(Matches(s)) :: Matches(Next(s, Step.KillTimer))
    {
      timerSet := false;
    }
  }

  /** Storing at the head leaves the slots of the queued events alone. */
  lemma SlotsStay(head: nat, size: nat, i: nat)
    requires head < MAX_LEN && i < size < MAX_LEN
    ensures Slot((head + 1) % MAX_LEN, size + 1, i) == Slot(head, size, i)
    ensures Slot(head, size, i) != head
  {
    var k := head + MAX_LEN - size + i;
    assert head < MAX_LEN <= k + size - i < 2 * MAX_LEN;
    if head + 1 < MAX_LEN {
      assert (head + 1) % MAX_LEN == head + 1;
    } else {
      assert (head + 1) % MAX_LEN == 0;
    }
  }

  lemma NewestSlot(head: nat, size: nat)
    requires head < MAX_LEN && size < MAX_LEN
    ensures Slot((head + 1) % MAX_LEN, size + 1, size) == head
  {
  }

  // ---------- every interleaving ----------

  type Thread = nat

  /** Where a thread is between two critical sections. */
  datatype Phase = Idle | InGap(event: Event) | Asleep

  /** The queue, the threads, and all events accepted and delivered so far. */
  datatype State = State(contents: seq<Event>, timerSet: bool, phases: map<Thread, Phase>,
                         accepted: seq<Event>, delivered: seq<Event>, timeouts: nat)

  /** One critical section of one thread. The booleans are the verdicts of the clock. */
  datatype Step =
    | Post(t: Thread, event: Event)
    | PostRetry(t: Thread)
    | Wait(t: Thread, mayBlock: bool, timerReady: bool)
    | Wake(t: Thread, giveUp: bool, timerReady: bool)
    | SetTimer
    | KillTimer

  function PhaseOf(s: State, t: Thread): Phase {
    if t in s.phases then s.phases[t] else Idle
  }

  function Accept(s: State, e: Event): State {
    s.(contents := s.contents + [e], accepted := s.accepted + [e])
  }

  function Finished(s: State, t: Thread, timerReady: bool): State {
    var awake := s.(phases := s.phases[t := Idle]);
    if s.timerSet && timerReady then awake.(timerSet := false, timeouts := s.timeouts + 1)
    else if s.contents == [] then awake
    else awake.(contents := s.contents[1..], delivered := s.delivered + [s.contents[0]])
  }

  /** The outcome of a `Wait` says what has been delivered. */
  ghost predicate Tells(s: State, r: State, outcome: Outcome) {
    match outcome
    case Nothing => r.delivered == s.delivered && r.timeouts == s.timeouts
    case Timeout => r.delivered == s.delivered && r.timeouts == s.timeouts + 1
    case Taken(event) => r.delivered == s.delivered + [event] && r.timeouts == s.timeouts
  }

  /** A step of a thread that is not at the right place does nothing. */
  function Next(s: State, step: Step): State {
    match step
    case Post(t, e) =>
      if PhaseOf(s, t) != Idle then s
      else if |s.contents| == MAX_LEN then s.(phases := s.phases[t := InGap(e)])
      else Accept(s, e)
    case PostRetry(t) =>
      if !PhaseOf(s, t).InGap? then s
      else
        var back := s.(phases := s.phases[t := Idle]);
        if |s.contents| == MAX_LEN then back else Accept(back, PhaseOf(s, t).event)
    case Wait(t, mayBlock, timerReady) =>
      if PhaseOf(s, t) != Idle then s
      else if s.contents == [] && mayBlock then s.(phases := s.phases[t := Asleep])
      else Finished(s, t, timerReady)
    case Wake(t, giveUp, timerReady) =>
      if PhaseOf(s, t) != Asleep then s
      else if s.contents == [] && !giveUp then s
      else Finished(s, t, timerReady)
    case SetTimer => s.(timerSet := true)
    case KillTimer => s.(timerSet := false)
  }

  function Run(s: State, steps: seq<Step>): State
    decreases |steps|
  {
    if steps == [] then s else Next(Run(s, steps[..|steps| - 1]), steps[|steps| - 1])
  }

  const EMPTY := State([], false, map[], [], [], 0)

  ghost predicate Conserved(s: State) {
    s.delivered + s.contents == s.accepted && |s.contents| <= MAX_LEN
  }

  lemma AcceptConserves(s: State, e: Event)
    requires Conserved(s) && |s.contents| < MAX_LEN
    ensures Conserved(Accept(s, e))
  {
    assert s.delivered + (s.contents + [e]) == (s.delivered + s.contents) + [e];
  }

  lemma FinishConserves(s: State, t: Thread, timerReady: bool)
    requires Conserved(s)
    ensures Conserved(Finished(s, t, timerReady))
  {
    if s.contents != [] {
      assert s.contents == [s.contents[0]] + s.contents[1..];
      assert (s.delivered + [s.contents[0]]) + s.contents[1..] == s.delivered + ([s.contents[0]] + s.contents[1..]);
    }
  }

  lemma StepConserves(s: State, step: Step)
    requires Conserved(s)
    ensures Conserved(Next(s, step))
  {
    hide Accept, Finished;
    match step
    case Post(t, e) => if |s.contents| < MAX_LEN { AcceptConserves(s, e); }
    case PostRetry(t) =>
      if PhaseOf(s, t).InGap? && |s.contents| < MAX_LEN {
        AcceptConserves(s.(phases := s.phases[t := Idle]), PhaseOf(s, t).event);
      }
    case Wait(t, _, timerReady) => FinishConserves(s, t, timerReady);
    case Wake(t, _, timerReady) => FinishConserves(s, t, timerReady);
    case _ =>
  }

  /** In every interleaving the events delivered so far, followed by those in the ring, are the events
      accepted so far, in order: nothing is lost, doubled or overtaken, and the ring never overflows. */
  lemma {:induction false} EveryRunConserves(steps: seq<Step>)
    ensures Conserved(Run(EMPTY, steps)) && |Run(EMPTY, steps).contents| <= 50
    decreases |steps|
  {
    if steps != [] {
      EveryRunConserves(steps[..|steps| - 1]);
      StepConserves(Run(EMPTY, steps[..|steps| - 1]), steps[|steps| - 1]);
    }
  }

  /** An event that a `Wait` delivers is the oldest one accepted and not yet delivered, and a timer event
      delivers none. */
  lemma DeliveredInOrder(steps: seq<Step>, step: Step)
    ensures var s, r := Run(EMPTY, steps), Next(Run(EMPTY, steps), step);
            && (r.delivered == s.delivered ||
                (|s.delivered| < |s.accepted| && r.delivered == s.delivered + [s.accepted[|s.delivered|]]))
            && (r.timeouts > s.timeouts ==> r.delivered == s.delivered && r.contents == s.contents)
  {
    EveryRunConserves(steps);
    var s := Run(EMPTY, steps);
    if s.contents != [] {
      assert s.accepted[|s.delivered|] == s.contents[0];
    }
  }

  /** The thread posted this event at step `i`, met a full ring, and has been in the unlocked wait since. */
  ghost predicate FirstLook(steps: seq<Step>, t: Thread, e: Event, i: nat) {
    && i < |steps| && steps[i] == Post(t, e)
    && |Run(EMPTY, steps[..i]).contents| == 50
    && forall j :: i < j <= |steps| ==> PhaseOf(Run(EMPTY, steps[..j]), t) == InGap(e)
  }

  /** Only that way does a thread get into the unlocked wait. */
  lemma {:induction false} GapBeganFull(steps: seq<Step>, t: Thread, e: Event)
    requires PhaseOf(Run(EMPTY, steps), t) == InGap(e)
    ensures exists i :: FirstLook(steps, t, e, i)
    decreases |steps|
  {
    hide Finished, Accept;
    assert steps != [];
    var n := |steps| - 1;
    var before := steps[..n];
    assert steps[..|steps|] == steps;
    assert forall j :: 0 <= j <= n ==> steps[..j] == before[..j];
    if PhaseOf(Run(EMPTY, before), t) == InGap(e) {
      GapBeganFull(before, t, e);
      var i :| FirstLook(before, t, e, i);
      assert FirstLook(steps, t, e, i);
    } else {
      EnteredGap(Run(EMPTY, before), steps[n], t, e);
      assert FirstLook(steps, t, e, n);
    }
  }

  lemma EnteredGap(s: State, step: Step, t: Thread, e: Event)
    requires PhaseOf(s, t) != InGap(e) && PhaseOf(Next(s, step), t) == InGap(e)
    ensures step == Post(t, e) && |s.contents| == MAX_LEN
  {
  }

  /** In every interleaving a post is refused, without a trace, exactly if the ring is full when the thread
      looks again, and the ring was full too when it first looked. */
  lemma RefusedOnlyWhenFull(steps: seq<Step>, t: Thread, e: Event)
    requires PhaseOf(Run(EMPTY, steps), t) == InGap(e)
    ensures var s, r := Run(EMPTY, steps), Next(Run(EMPTY, steps), PostRetry(t));
            && (r.accepted == s.accepted <==> |s.contents| == 50)
            && (r.accepted == s.accepted ==> r == s.(phases := s.phases[t := Idle]))
            && (r.accepted != s.accepted ==> r.accepted == s.accepted + [e])
    ensures exists i :: FirstLook(steps, t, e, i)
  {
    var s := Run(EMPTY, steps);
    assert |s.accepted + [e]| == |s.accepted| + 1;
    GapBeganFull(steps, t, e);
  }
}
