/** The single-producer queue: the protocol without its lock. Every run of it is a run of
    QueueProtocol in which the one producer takes the lock on the way. */
module SpscProtocol {
  import opened Options
  import opened QueueProtocol

  /** The push of the single-producer queue starts with the load of head; `Enter` does not exist, and
      `Leave` is just the return. The two lock fields are never looked at nor changed. */
  predicate LockFree<T>(s: State<T>, a: Action<T>) {
    match a
    case Enter(_) => false
    case LoadHead(p, k) => IsProducer(s, p) && s.producers[p].Calling? && s.views[p].heads <= k <= s.H() && s.N() > 0
    case _ => Enabled(s, a)
  }

  function LockFreeStep<T>(s: State<T>, a: Action<T>): State<T>
    requires LockFree(s, a)
  {
    match a
    case LoadHead(p, k) =>
      s.(producers := s.producers[p := HaveHead(s.producers[p].value, Slot(k, s.N()))],
         views := s.views[p := s.views[p].(heads := k)])
    case Leave(p) =>
      var me := s.producers[p];
      s.(producers := s.producers[p := Idle],
         accepted := if me.Published? then s.accepted[p := s.accepted[p] + [me.value]] else s.accepted)
    case _ => Step(s, a)
  }

  ghost predicate IsLockFreeRun<T>(states: seq<State<T>>, actions: seq<Action<T>>) {
    && |states| == |actions| + 1
    && Init(states[0]) && |states[0].producers| == 1
    && forall i | 0 <= i < |actions| ::
         LockFree(states[i], actions[i]) && states[i + 1] == LockFreeStep(states[i], actions[i])
  }

  predicate OneProducer<T>(s: State<T>) {
    |s.producers| == |s.views| == |s.accepted| == 1
  }

  /** The state with the lock held by the producer while it is past its first load; `released` is
      what the lock was last released with. */
  function Locked<T>(s: State<T>, released: View): State<T>
    requires OneProducer(s)
  {
    s.(holder := if InSection(s.producers[0]) then Some(0) else None, lockView := released)
  }

  /** The lock knows no more than the only thread that takes it. */
  predicate Matches<T>(s: State<T>, released: View) {
    OneProducer(s) && (!InSection(s.producers[0]) ==> released == s.views[0])
  }

  lemma EnterFirst<T>(s: State<T>, a: Action<T>, released: View)
    requires Matches(s, released) && LockFree(s, a) && a.LoadHead?
    ensures Enabled(Locked(s, released), Enter(0))
    ensures var mid := Step(Locked(s, released), Enter(0));
      Enabled(mid, a) && Step(mid, a) == Locked(LockFreeStep(s, a), released)
    ensures Matches(LockFreeStep(s, a), released)
  {
    assert Join(s.views[0], released) == s.views[0];
    assert s.views[0 := s.views[0]] == s.views;
  }

  function Released<T>(s: State<T>, a: Action<T>, released: View): View
    requires OneProducer(s)
  {
    if a.Leave? then s.views[0] else released
  }

  lemma SameStep<T>(s: State<T>, a: Action<T>, released: View)
    requires Matches(s, released) && LockFree(s, a) && !a.LoadHead?
    ensures Enabled(Locked(s, released), a)
    ensures Matches(LockFreeStep(s, a), Released(s, a, released))
    ensures Step(Locked(s, released), a) == Locked(LockFreeStep(s, a), Released(s, a, released))
  {
  }

  lemma RunGrows<T>(states: seq<State<T>>, actions: seq<Action<T>>, a: Action<T>)
    requires IsRun(states, actions) && Enabled(states[|states| - 1], a)
    ensures IsRun(states + [Step(states[|states| - 1], a)], actions + [a])
  {
  }

  /** Every state of a lock-free run is, lock aside, the last one of a run with the lock. */
  lemma {:induction false} IsInstance<T>(states: seq<State<T>>, actions: seq<Action<T>>, i: nat)
    returns (locked: seq<State<T>>, steps: seq<Action<T>>, released: View)
    requires IsLockFreeRun(states, actions) && i < |states|
    ensures IsRun(locked, steps) && Matches(states[i], released)
    ensures locked[|locked| - 1] == Locked(states[i], released)
  {
    if i == 0 {
      locked, steps, released := [states[0]], [], View(0, 0);
    } else {
      locked, steps, released := IsInstance(states, actions, i - 1);
      var s, a := states[i - 1], actions[i - 1];
      if a.LoadHead? {
        EnterFirst(s, a, released);
        RunGrows(locked, steps, Enter(0));
        var mid := Step(Locked(s, released), Enter(0));
        RunGrows(locked + [mid], steps + [Enter(0)], a);
        locked, steps := locked + [mid] + [Step(mid, a)], steps + [Enter(0)] + [a];
      } else {
        SameStep(s, a, released);
        RunGrows(locked, steps, a);
        locked, steps, released := locked + [Step(Locked(s, released), a)], steps + [a], Released(s, a, released);
      }
    }
  }

  /** The invariant of QueueProtocol, lock aside. */
  ghost predicate Good<T>(s: State<T>) {
    exists released: View :: Matches(s, released) && Inv(Locked(s, released))
  }

  lemma InitGood<T>(s: State<T>)
    requires Init(s) && |s.producers| == 1
    ensures Good(s)
  {
    InitInv(s);
    assert Locked(s, View(0, 0)) == s;
    assert Matches(s, View(0, 0));
  }

  lemma StepGood<T>(s: State<T>, a: Action<T>)
    requires Good(s) && LockFree(s, a)
    ensures Good(LockFreeStep(s, a))
  {
    var released: View :| Matches(s, released) && Inv(Locked(s, released));
    var locked := Locked(s, released);
    if a.LoadHead? {
      EnterFirst(s, a, released);
      StepInv(locked, Enter(0));
      StepInv(Step(locked, Enter(0)), a);
    } else {
      SameStep(s, a, released);
      StepInv(locked, a);
    }
  }

  lemma LockFreeInv<T>(states: seq<State<T>>, actions: seq<Action<T>>, i: nat) returns (released: View)
    requires IsLockFreeRun(states, actions) && i < |states|
    ensures Matches(states[i], released) && Inv(Locked(states[i], released))
  {
    var locked, steps;
    locked, steps, released := IsInstance(states, actions, i);
    RunInv(locked, steps, |locked| - 1);
  }

  /** So without the lock, too, nothing is lost, duplicated or reordered, within the capacity. */
  lemma LockFreeFifo<T>(states: seq<State<T>>, actions: seq<Action<T>>, i: nat)
    requires IsLockFreeRun(states, actions) && i < |states|
    ensures var s := states[i];
      && s.T() <= s.H()
      && Values(s.pushed) == s.popped + Contents(s)
      && |Contents(s)| <= s.N() - 1
      && (forall j | 0 <= j < |Contents(s)| && (j > 0 || !s.consumer.Taken?) ::
            s.slots[Slot(s.T() + j, s.N())] == Contents(s)[j])
  {
    var locked, steps, released := IsInstance(states, actions, i);
    FifoAlways(locked, steps, |locked| - 1);
  }

  /** Every step is one of a bounded FIFO. */
  lemma LockFreeRefinesFifo<T>(states: seq<State<T>>, actions: seq<Action<T>>, i: nat)
    requires IsLockFreeRun(states, actions) && i < |actions|
    ensures states[i].T() <= states[i].H() && states[i + 1].T() <= states[i + 1].H()
    ensures IsFifoStep(states[i].N() - 1, Contents(states[i]), Contents(states[i + 1]), actions[i], states[i])
  {
    LockFreeFifo(states, actions, i + 1);
    var released := LockFreeInv(states, actions, i);
    var s, a := states[i], actions[i];
    if !a.LoadHead? {
      SameStep(s, a, released);
      StepIsFifoStep(Locked(s, released), a);
    }
  }

  /** The producer's load of its own index returns the current value; the two threads never use a slot
      at once, and each access is ordered after the other thread's previous one of that slot. */
  lemma LockFreeAccesses<T>(states: seq<State<T>>, actions: seq<Action<T>>, i: nat)
    requires IsLockFreeRun(states, actions) && i < |actions|
    ensures OneProducer(states[i])
    ensures var s, a := states[i], actions[i];
      var writing := s.producers[0].HaveRoom? || s.producers[0].Written?;
      var reading := s.consumer.Ready? || s.consumer.Taken?;
      && (a.LoadHead? ==> a.k == s.H())
      && (writing && reading ==> s.producers[0].currentHead != s.consumer.currentTail)
      && (writing ==> s.H() - s.N() < s.views[0].tails)
      && (reading ==> s.T() < s.seen)
  {
    var s := states[i];
    var locked, steps, released := IsInstance(states, actions, i);
    var n := |locked| - 1;
    SlotAccessesOrdered(locked, steps, n, 0);
    RunInv(locked, steps, n);
  }

  /** push reports full exactly when the tail it loaded leaves no room, pop and empty report nothing
      exactly when the head they loaded is the number removed. */
  lemma LockFreeVerdicts<T>(states: seq<State<T>>, actions: seq<Action<T>>, i: nat)
    requires IsLockFreeRun(states, actions) && i < |actions|
    ensures OneProducer(states[i + 1])
    ensures var s, a, after := states[i], actions[i], states[i + 1];
      && (a.LoadTail? ==> (after.producers[0].SawFull? <==> s.H() - a.k == s.N() - 1))
      && (a.LoadPublished? && s.consumer.popping ==> (after.consumer.Resting? <==> a.k == s.T()))
      && (a.LoadPublished? && !s.consumer.popping ==> (after.sawItem <==> a.k != s.T()))
  {
    var next := LockFreeInv(states, actions, i + 1);
    var released := LockFreeInv(states, actions, i);
    var s, a := states[i], actions[i];
    if a.LoadTail? {
      FullVerdict(Locked(s, released), a);
    }
    if a.LoadPublished? {
      SlotsDiffer(s.T(), a.k, s.N());
    }
  }
}
