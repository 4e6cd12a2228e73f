/** The lock-free ring as a transition system: one step per atomic access, any interleaving, and
    acquire loads that may be stale. Any number of producers take turns under the mutex; with one
    producer the mutex drops out (SpscProtocol) and this is the single-producer queue.

    Memory model. A thread that loads an index may see any value its modification order holds
    from the last one the thread knows of up to the current one (coherence); a load-acquire hands
    over what the storing thread knew (release/acquire), and so does the mutex. Since `head` only
    ever takes the values Slot(0), Slot(1), ..., a thread's knowledge of it is a number of
    publications, and likewise a number of removals for `tail`. */
module QueueProtocol {
  import opened Options
  import opened Ring

  /** The slot of the i-th value: where `i` applications of `next` lead from slot 0. */
  function Slot(i: nat, slotCount: nat): (r: nat)
    requires slotCount > 0
    ensures r < slotCount
  {
    if i == 0 then 0 else Next(Slot(i - 1, slotCount), slotCount)
  }

  lemma {:induction false} SlotDistance(a: nat, b: nat, n: nat)
    requires n > 0 && a <= b < a + n
    ensures Slot(b, n) == Wrap(Slot(a, n) + (b - a), n)
  {
    if a < b {
      SlotDistance(a, b - 1, n);
    }
  }

  /** Within one turn of the ring, equal indices mean equal counts. */
  lemma SlotsDiffer(a: nat, b: nat, n: nat)
    requires n > 0 && a < n + b && b < n + a
    ensures Slot(a, n) == Slot(b, n) <==> a == b
  {
    if a <= b { SlotDistance(a, b, n); } else { SlotDistance(b, a, n); }
  }

  /** ... and a full turn apart they are equal: the reason for the spare slot. */
  lemma SlotsMeet(a: nat, n: nat)
    requires n > 0
    ensures Slot(a + n, n) == Slot(a, n)
  {
    SlotDistance(a, a + n - 1, n);
  }

  /** Where a producer stands inside emplace. */
  datatype Producer<T> =
    | Idle
    | Calling(value: T)
    | Entered(value: T)
    | HaveHead(value: T, currentHead: nat)
    | HaveRoom(value: T, currentHead: nat)
    | Written(value: T, currentHead: nat)
    | Published(value: T)
    | SawFull(value: T)

  /** Where the consumer stands inside pop (or empty, when not popping). */
  datatype Consumer<T> =
    | Resting
    | HaveTail(currentTail: nat, popping: bool)
    | Ready(currentTail: nat)
    | Taken(currentTail: nat, value: T)

  /** How many publications and removals a thread knows of. */
  datatype View = View(heads: nat, tails: nat)

  function Join(a: View, b: View): View {
    View(if a.heads < b.heads then b.heads else a.heads, if a.tails < b.tails then b.tails else a.tails)
  }

  datatype State<T> = State(
    slots: seq<T>, head: nat, tail: nat,
    producers: seq<Producer<T>>, holder: Option<nat>, views: seq<View>, lockView: View,
    consumer: Consumer<T>, seen: nat, sawItem: bool,
    pushed: seq<(nat, T)>, popped: seq<T>, accepted: seq<seq<T>>)
  {
    function N(): nat { |slots| }
    function H(): nat { |pushed| }
    function T(): nat { |popped| }
  }

  /** Capacity + 1 default slots, nothing queued, nobody calling. */
  ghost predicate Init<T>(s: State<T>) {
    && |s.slots| >= 2 && s.head == 0 && s.tail == 0
    && |s.views| == |s.producers| == |s.accepted|
    && (forall p | 0 <= p < |s.producers| ::
          s.producers[p] == Idle && s.views[p] == View(0, 0) && s.accepted[p] == [])
    && s.holder == None && s.lockView == View(0, 0)
    && s.consumer == Resting && s.seen == 0 && !s.sawItem
    && s.pushed == [] && s.popped == []
  }

  datatype Action<T> =
    | Call(p: nat, value: T)       // a thread calls push(value)
    | Enter(p: nat)                // lock
    | LoadHead(p: nat, k: nat)     // head.load, returning the k-th value of head
    | LoadTail(p: nat, k: nat)     // tail.load acquire, and the full test
    | Write(p: nat)                // buffer[currentHead] = value
    | Publish(p: nat)              // head.store release
    | Leave(p: nat)                // unlock and return
    | LoadOwnTail(popping: bool)   // the consumer's tail.load, in pop or in empty
    | LoadPublished(k: nat)        // its head.load acquire, and the empty test
    | Take(moved: T)               // move out of the slot, which keeps some moved-from value
    | Release                      // tail.store release

  predicate IsProducer<T>(s: State<T>, p: nat) {
    p < |s.producers| && p < |s.views| && p < |s.accepted|
  }

  predicate Enabled<T>(s: State<T>, a: Action<T>) {
    match a
    case Call(p, _) => IsProducer(s, p) && s.producers[p].Idle?
    case Enter(p) => IsProducer(s, p) && s.producers[p].Calling? && s.holder == None
    case LoadHead(p, k) => IsProducer(s, p) && s.producers[p].Entered? && s.views[p].heads <= k <= s.H() && s.N() > 0
    case LoadTail(p, k) => IsProducer(s, p) && s.producers[p].HaveHead? && s.views[p].tails <= k <= s.T()
                           && s.producers[p].currentHead < s.N()
    case Write(p) => IsProducer(s, p) && s.producers[p].HaveRoom? && s.producers[p].currentHead < s.N()
    case Publish(p) => IsProducer(s, p) && s.producers[p].Written? && s.producers[p].currentHead < s.N()
    case Leave(p) => IsProducer(s, p) && (s.producers[p].Published? || s.producers[p].SawFull?)
    case LoadOwnTail(_) => s.consumer.Resting?
    case LoadPublished(k) => s.consumer.HaveTail? && s.seen <= k <= s.H() && s.N() > 0
    case Take(_) => s.consumer.Ready? && s.consumer.currentTail < s.N()
    case Release => s.consumer.Taken? && s.consumer.currentTail < s.N()
  }

  function Step<T>(s: State<T>, a: Action<T>): State<T>
    requires Enabled(s, a)
  {
    match a
    case Call(p, v) => s.(producers := s.producers[p := Calling(v)])
    case Enter(p) =>
      s.(producers := s.producers[p := Entered(s.producers[p].value)], holder := Some(p),
         views := s.views[p := Join(s.views[p], s.lockView)])
    case LoadHead(p, k) =>
      s.(producers := s.producers[p := HaveHead(s.producers[p].value, Slot(k, s.N()))],
         views := s.views[p := s.views[p].(heads := k)])
    case LoadTail(p, k) =>
      var me := s.producers[p];
      s.(producers := s.producers[p := if Next(me.currentHead, s.N()) == Slot(k, s.N())
                                       then SawFull(me.value) else HaveRoom(me.value, me.currentHead)],
         views := s.views[p := s.views[p].(tails := k)])
    case Write(p) =>
      var me := s.producers[p];
      s.(producers := s.producers[p := Written(me.value, me.currentHead)],
         slots := s.slots[me.currentHead := me.value])
    case Publish(p) =>
      var me := s.producers[p];
      s.(producers := s.producers[p := Published(me.value)], head := Next(me.currentHead, s.N()),
         pushed := s.pushed + [(p, me.value)], views := s.views[p := s.views[p].(heads := s.H() + 1)])
    case Leave(p) =>
      var me := s.producers[p];
      s.(producers := s.producers[p := Idle], holder := None, lockView := s.views[p],
         accepted := if me.Published? then s.accepted[p := s.accepted[p] + [me.value]] else s.accepted)
    case LoadOwnTail(popping) => s.(consumer := HaveTail(s.tail, popping))
    case LoadPublished(k) =>
      var me := s.consumer;
      var nothing := me.currentTail == Slot(k, s.N());
      s.(consumer := if me.popping && !nothing then Ready(me.currentTail) else Resting,
         seen := k, sawItem := !me.popping && !nothing)
    case Take(moved) =>
      var t := s.consumer.currentTail;
      s.(consumer := Taken(t, s.slots[t]), slots := s.slots[t := moved])
    case Release =>
      s.(consumer := Resting, tail := Next(s.consumer.currentTail, s.N()),
         popped := s.popped + [s.consumer.value])
  }

  ghost predicate IsRun<T>(states: seq<State<T>>, actions: seq<Action<T>>) {
    && |states| == |actions| + 1
    && Init(states[0])
    && forall i | 0 <= i < |actions| :: Enabled(states[i], actions[i]) && states[i + 1] == Step(states[i], actions[i])
  }

  // ---- The invariant ----

  predicate InSection<T>(p: Producer<T>) {
    !p.Idle? && !p.Calling?
  }

  /** Everything that concerns the ring itself: indices, bounds, histories and slot contents. */
  ghost predicate RingInv<T>(s: State<T>) {
    && s.N() >= 2
    && s.T() <= s.H() < s.T() + s.N()
    && s.head == Slot(s.H(), s.N()) && s.tail == Slot(s.T(), s.N())
    && (forall i | 0 <= i < s.T() :: s.popped[i] == s.pushed[i].1)
    && (forall i | s.T() <= i < s.H() && !(i == s.T() && s.consumer.Taken?) ::
          s.slots[Slot(i, s.N())] == s.pushed[i].1)
  }

  ghost predicate ConsumerInv<T>(s: State<T>)
    requires s.N() >= 2
  {
    && s.T() <= s.seen <= s.H()
    && (s.sawItem ==> s.T() < s.seen)
    && (!s.consumer.Resting? ==> s.consumer.currentTail == Slot(s.T(), s.N()))
    && (s.consumer.Ready? || s.consumer.Taken? ==> s.T() < s.seen && !s.sawItem)
    && (s.consumer.Taken? ==> s.consumer.value == s.pushed[s.T()].1)
  }

  /** What the thread in the critical section knows; what the lock will hand over if there is none. */
  function JointView<T>(s: State<T>): View
    requires s.holder.Some? ==> s.holder.value < |s.views|
  {
    match s.holder
    case Some(p) => s.views[p]
    case None => s.lockView
  }

  ghost predicate LockInv<T>(s: State<T>) {
    && |s.views| == |s.producers| == |s.accepted|
    && (s.holder.Some? ==> s.holder.value < |s.producers|)
    && (forall p | 0 <= p < |s.producers| :: InSection(s.producers[p]) <==> s.holder == Some(p))
    && (var v := JointView(s);
        && v.heads == s.H() && v.tails <= s.T() && s.H() < v.tails + s.N()
        && (forall p | 0 <= p < |s.views| :: s.views[p].heads <= v.heads && s.views[p].tails <= v.tails))
    && (|s.views| == 1 && s.holder == None ==> s.lockView == s.views[0])
  }

  ghost predicate HolderInv<T>(s: State<T>)
    requires LockInv(s) && s.N() >= 2
  {
    s.holder.Some? ==>
      var me := s.producers[s.holder.value];
      && (me.HaveHead? || me.HaveRoom? || me.Written? ==> me.currentHead == Slot(s.H(), s.N()))
      && (me.HaveRoom? || me.Written? ==> s.H() + 1 < s.views[s.holder.value].tails + s.N())
      && (me.Written? ==> s.slots[me.currentHead] == me.value)
      && (me.Published? ==> s.H() > 0 && s.pushed[s.H() - 1] == (s.holder.value, me.value))
  }

  /** The values producer `p` has published, in publication order. */
  function Project<T>(pushed: seq<(nat, T)>, p: nat): seq<T> {
    if |pushed| == 0 then []
    else
      var k := |pushed| - 1;
      Project(pushed[..k], p) + (if pushed[k].0 == p then [pushed[k].1] else [])
  }

  /** What `p` has published is what it was told was accepted, and maybe one it is yet to be told. */
  ghost predicate OrderInv<T>(s: State<T>)
    requires |s.producers| == |s.accepted|
  {
    && (forall i | 0 <= i < s.H() :: s.pushed[i].0 < |s.producers|)
    && forall p | 0 <= p < |s.producers| ::
      Project(s.pushed, p) == s.accepted[p] + (if s.producers[p].Published? then [s.producers[p].value] else [])
  }

  ghost predicate Inv<T>(s: State<T>) {
    RingInv(s) && ConsumerInv(s) && LockInv(s) && HolderInv(s) && OrderInv(s)
  }

  lemma InitInv<T>(s: State<T>)
    requires Init(s)
    ensures Inv(s)
  {
  }

  predicate IsProducerAction<T>(a: Action<T>) {
    a.Call? || a.Enter? || a.LoadHead? || a.LoadTail? || a.Write? || a.Publish? || a.Leave?
  }

  lemma CallInv<T>(s: State<T>, a: Action<T>)
    requires Inv(s) && Enabled(s, a) && a.Call?
    ensures Inv(Step(s, a))
  {
  }

  lemma EnterInv<T>(s: State<T>, a: Action<T>)
    requires Inv(s) && Enabled(s, a) && a.Enter?
    ensures Inv(Step(s, a))
  {
    assert Join(s.views[a.p], s.lockView) == s.lockView;
  }

  lemma LoadHeadInv<T>(s: State<T>, a: Action<T>)
    requires Inv(s) && Enabled(s, a) && a.LoadHead?
    ensures Inv(Step(s, a))
  {
    assert s.holder == Some(a.p) && a.k == s.H();
  }

  lemma LoadTailInv<T>(s: State<T>, a: Action<T>)
    requires Inv(s) && Enabled(s, a) && a.LoadTail?
    ensures Inv(Step(s, a))
  {
    FullVerdict(s, a);
  }

  /** The full test compares counts: full exactly when the tail value loaded leaves no room. */
  lemma FullVerdict<T>(s: State<T>, a: Action<T>)
    requires Inv(s) && Enabled(s, a) && a.LoadTail?
    ensures s.holder == Some(a.p) && s.H() - a.k <= s.N() - 1
    ensures Step(s, a).producers[a.p].SawFull? <==> s.H() - a.k == s.N() - 1
    ensures Step(s, a).producers[a.p].HaveRoom? <==> s.H() - a.k < s.N() - 1
  {
    assert s.holder == Some(a.p);
    assert Slot(s.H() + 1, s.N()) == Next(s.producers[a.p].currentHead, s.N());
    if s.H() + 1 == a.k + s.N() {
      SlotsMeet(a.k, s.N());
    } else {
      SlotsDiffer(s.H() + 1, a.k, s.N());
    }
  }

  lemma WriteInv<T>(s: State<T>, a: Action<T>)
    requires Inv(s) && Enabled(s, a) && a.Write?
    ensures Inv(Step(s, a))
  {
    assert s.holder == Some(a.p);
    WriteRing(s, a);
  }

  lemma WriteRing<T>(s: State<T>, a: Action<T>)
    requires Inv(s) && Enabled(s, a) && a.Write? && s.holder == Some(a.p)
    ensures RingInv(Step(s, a))
  {
    forall i | s.T() <= i < s.H() ensures Slot(i, s.N()) != Slot(s.H(), s.N()) {
      SlotsDiffer(i, s.H(), s.N());
    }
  }

  lemma PublishInv<T>(s: State<T>, a: Action<T>)
    requires Inv(s) && Enabled(s, a) && a.Publish?
    ensures Inv(Step(s, a))
  {
    assert s.holder == Some(a.p);
    PublishRing(s, a);
    PublishOrder(s, a);
  }

  lemma PublishRing<T>(s: State<T>, a: Action<T>)
    requires Inv(s) && Enabled(s, a) && a.Publish? && s.holder == Some(a.p)
    ensures RingInv(Step(s, a)) && ConsumerInv(Step(s, a))
  {
  }

  lemma PublishOrder<T>(s: State<T>, a: Action<T>)
    requires Inv(s) && Enabled(s, a) && a.Publish?
    ensures OrderInv(Step(s, a))
  {
    var s' := Step(s, a);
    assert s'.pushed[..s.H()] == s.pushed;
  }

  lemma LeaveInv<T>(s: State<T>, a: Action<T>)
    requires Inv(s) && Enabled(s, a) && a.Leave?
    ensures Inv(Step(s, a))
  {
    assert s.holder == Some(a.p);
    LeaveLock(s, a);
    LeaveOrder(s, a);
  }

  lemma LeaveLock<T>(s: State<T>, a: Action<T>)
    requires LockInv(s) && Enabled(s, a) && a.Leave? && s.holder == Some(a.p)
    ensures LockInv(Step(s, a))
  {
  }

  lemma LeaveOrder<T>(s: State<T>, a: Action<T>)
    requires |s.producers| == |s.accepted| && OrderInv(s) && Enabled(s, a) && a.Leave?
    ensures OrderInv(Step(s, a))
  {
  }

  lemma ConsumerLoadInv<T>(s: State<T>, a: Action<T>)
    requires Inv(s) && Enabled(s, a) && (a.LoadOwnTail? || a.LoadPublished?)
    ensures Inv(Step(s, a))
  {
    if a.LoadPublished? {
      SlotsDiffer(s.T(), a.k, s.N());
    }
  }

  lemma TakeInv<T>(s: State<T>, a: Action<T>)
    requires Inv(s) && Enabled(s, a) && a.Take?
    ensures Inv(Step(s, a))
  {
    forall i | s.T() < i <= s.H() && i < s.T() + s.N() ensures Slot(i, s.N()) != Slot(s.T(), s.N()) {
      SlotsDiffer(i, s.T(), s.N());
    }
  }

  lemma ReleaseInv<T>(s: State<T>, a: Action<T>)
    requires Inv(s) && Enabled(s, a) && a.Release?
    ensures Inv(Step(s, a))
  {
    ReleaseRing(s, a);
  }

  lemma ReleaseRing<T>(s: State<T>, a: Action<T>)
    requires Inv(s) && Enabled(s, a) && a.Release?
    ensures RingInv(Step(s, a)) && ConsumerInv(Step(s, a))
  {
  }

  lemma StepInv<T>(s: State<T>, a: Action<T>)
    requires Inv(s) && Enabled(s, a)
    ensures Inv(Step(s, a))
  {
    match a {
      case LoadTail(_, _) => LoadTailInv(s, a);
      case Write(_) => WriteInv(s, a);
      case Publish(_) => PublishInv(s, a);
      case Leave(_) => LeaveInv(s, a);
      case Take(_) => TakeInv(s, a);
      case Release => ReleaseInv(s, a);
      case LoadOwnTail(_) => ConsumerLoadInv(s, a);
      case LoadPublished(_) => ConsumerLoadInv(s, a);
      case Call(_, _) => CallInv(s, a);
      case Enter(_) => EnterInv(s, a);
      case LoadHead(_, _) => LoadHeadInv(s, a);
    }
  }

  lemma {:induction false} RunInv<T>(states: seq<State<T>>, actions: seq<Action<T>>, i: nat)
    requires IsRun(states, actions) && i < |states|
    ensures Inv(states[i])
  {
    if i == 0 {
      InitInv(states[0]);
    } else {
      RunInv(states, actions, i - 1);
      StepInv(states[i - 1], actions[i - 1]);
    }
  }

  // ---- What the invariant gives ----

  function Values<T>(pairs: seq<(nat, T)>): seq<T> {
    seq(|pairs|, i requires 0 <= i < |pairs| => pairs[i].1)
  }

  /** The queue's contents: published and not yet removed. */
  function Contents<T>(s: State<T>): seq<T>
    requires s.T() <= s.H()
  {
    Values(s.pushed[s.T()..])
  }

  /** Nothing is lost, duplicated or reordered, and the ring never holds more than its capacity:
      what was published is what was removed followed by the contents, slot by slot. */
  lemma FifoAlways<T>(states: seq<State<T>>, actions: seq<Action<T>>, i: nat)
    requires IsRun(states, actions) && i < |states|
    ensures var s := states[i];
      && s.T() <= s.H()
      && Values(s.pushed) == s.popped + Contents(s)
      && |Contents(s)| <= s.N() - 1
      && (forall j | 0 <= j < |Contents(s)| && (j > 0 || !s.consumer.Taken?) ::
            s.slots[Slot(s.T() + j, s.N())] == Contents(s)[j])
  {
    RunInv(states, actions, i);
  }

  /** The abstract queue an action performs: append, remove the front, or nothing. */
  ghost predicate IsFifoStep<T>(capacity: int, before: seq<T>, after: seq<T>, a: Action<T>, s: State<T>) {
    if a.Publish? && a.p < |s.producers| && s.producers[a.p].Written? then
      |before| < capacity && after == before + [s.producers[a.p].value]
    else if a.Release? && s.consumer.Taken? then
      before == [s.consumer.value] + after
    else
      after == before
  }

  /** Every step of every interleaving is a step of a bounded FIFO. */
  lemma RefinesBoundedFifo<T>(states: seq<State<T>>, actions: seq<Action<T>>, i: nat)
    requires IsRun(states, actions) && i < |actions|
    ensures states[i].T() <= states[i].H() && states[i + 1].T() <= states[i + 1].H()
    ensures IsFifoStep(states[i].N() - 1, Contents(states[i]), Contents(states[i + 1]), actions[i], states[i])
  {
    RunInv(states, actions, i);
    RunInv(states, actions, i + 1);
    StepIsFifoStep(states[i], actions[i]);
  }

  lemma ContentsGrow<T>(pushed: seq<(nat, T)>, from: nat, item: (nat, T))
    requires from <= |pushed|
    ensures Values((pushed + [item])[from..]) == Values(pushed[from..]) + [item.1]
  {
    assert (pushed + [item])[from..] == pushed[from..] + [item];
  }

  lemma ContentsShrink<T>(pushed: seq<(nat, T)>, from: nat)
    requires from < |pushed|
    ensures Values(pushed[from..]) == [pushed[from].1] + Values(pushed[from + 1..])
  {
    assert pushed[from..] == [pushed[from]] + pushed[from + 1..];
  }

  lemma StepIsFifoStep<T>(s: State<T>, a: Action<T>)
    requires Inv(s) && Enabled(s, a) && Step(s, a).T() <= Step(s, a).H()
    ensures IsFifoStep(s.N() - 1, Contents(s), Contents(Step(s, a)), a, s)
  {
    match a {
      case Publish(p) =>
        assert s.holder == Some(p);
        ContentsGrow(s.pushed, s.T(), (p, s.producers[p].value));
      case Release =>
        ContentsShrink(s.pushed, s.T());
      case _ =>
    }
  }

  /** A producer about to write and a consumer about to read or reading never share a slot; and
      each access is ordered after the other thread's previous one by what its thread has acquired:
      the writer of value H knows that value H - N was removed, the reader of value T knows it was
      published. So the plain accesses to the slots do not race. */
  lemma SlotAccessesOrdered<T>(states: seq<State<T>>, actions: seq<Action<T>>, i: nat, p: nat)
    requires IsRun(states, actions) && i < |states| && p < |states[i].producers| == |states[i].views|
    ensures states[i].N() > 0
    ensures var s := states[i];
      var writing := s.producers[p].HaveRoom? || s.producers[p].Written?;
      var reading := s.consumer.Ready? || s.consumer.Taken?;
      && (writing && reading ==> s.producers[p].currentHead != s.consumer.currentTail)
      && (writing ==> s.producers[p].currentHead == Slot(s.H(), s.N()) && s.H() - s.N() < s.views[p].tails)
      && (reading ==> s.consumer.currentTail == Slot(s.T(), s.N()) && s.T() < s.seen)
  {
    RunInv(states, actions, i);
    var s := states[i];
    if s.producers[p].HaveRoom? || s.producers[p].Written? {
      assert s.holder == Some(p);
      SlotsDiffer(s.H(), s.T(), s.N());
    }
  }

  /** The relaxed load of head inside the critical section can only return the current value: the
      lock has handed over every earlier publication. */
  lemma HeadLoadIsExact<T>(states: seq<State<T>>, actions: seq<Action<T>>, i: nat)
    requires IsRun(states, actions) && i < |actions| && actions[i].LoadHead?
    ensures actions[i].k == states[i].H()
  {
    RunInv(states, actions, i);
    assert states[i].holder == Some(actions[i].p);
  }

  /** push reports full exactly when the tail it loaded, possibly stale, leaves no room: never
      while there is none, and with a current tail exactly when the queue holds `capacity` values. */
  lemma PushVerdict<T>(states: seq<State<T>>, actions: seq<Action<T>>, i: nat)
    requires IsRun(states, actions) && i < |actions| && actions[i].LoadTail?
    ensures var s, a := states[i], actions[i];
      var full := states[i + 1].producers[a.p].SawFull?;
      && (full <==> s.H() - a.k == s.N() - 1)
      && (!full ==> s.H() - s.T() < s.N() - 1)
      && (a.k == s.T() ==> (full <==> s.H() - s.T() == s.N() - 1))
  {
    RunInv(states, actions, i);
    FullVerdict(states[i], actions[i]);
  }

  /** pop and empty report nothing exactly when the head they loaded is the number removed so far;
      with a current head, exactly when the queue is empty. */
  lemma PopVerdict<T>(states: seq<State<T>>, actions: seq<Action<T>>, i: nat)
    requires IsRun(states, actions) && i < |actions| && actions[i].LoadPublished?
    ensures states[i].T() <= states[i].H()
    ensures var s, a, after := states[i], actions[i], states[i + 1];
      && (s.consumer.popping ==> (after.consumer.Resting? <==> a.k == s.T()))
      && (!s.consumer.popping ==> (after.sawItem <==> a.k != s.T()))
      && (a.k == s.H() ==> (a.k == s.T() <==> Contents(s) == []))
  {
    RunInv(states, actions, i);
    SlotsDiffer(states[i].T(), actions[i].k, states[i].N());
  }

  /** Once the sole consumer has seen the queue non-empty, no producer can take that back: however
      stale the head its next pop loads, it gets a value, and it is the front of the queue. */
  lemma SeenItemIsPopped<T>(states: seq<State<T>>, actions: seq<Action<T>>, i: nat)
    requires IsRun(states, actions) && i < |actions| && states[i].sawItem
    ensures IsProducerAction(actions[i]) || actions[i].LoadOwnTail? ==> states[i + 1].sawItem
    ensures actions[i].LoadPublished? && states[i].consumer.popping ==> states[i + 1].consumer.Ready?
    ensures states[i].T() < states[i].H()
  {
    RunInv(states, actions, i);
    if actions[i].LoadPublished? {
      SlotsDiffer(states[i].T(), actions[i].k, states[i].N());
    }
  }

  lemma TakenIsFront<T>(states: seq<State<T>>, actions: seq<Action<T>>, i: nat)
    requires IsRun(states, actions) && i < |actions| && actions[i].Take?
    ensures states[i].T() < states[i].H()
    ensures states[i + 1].consumer.value == Contents(states[i])[0]
  {
    RunInv(states, actions, i);
  }

  /** Each producer's values are published in the order it pushed them, each once per push that
      returned true; and what is removed is a prefix of what is published. */
  lemma ProducerOrderKept<T>(states: seq<State<T>>, actions: seq<Action<T>>, i: nat, p: nat)
    requires IsRun(states, actions) && i < |states| && p < |states[i].producers| == |states[i].accepted|
    ensures var s := states[i];
      && Project(s.pushed, p)
           == s.accepted[p] + (if s.producers[p].Published? then [s.producers[p].value] else [])
      && s.popped <= Values(s.pushed)
  {
    RunInv(states, actions, i);
  }

  /** If all publications are `p`'s, its projection is the whole history. */
  lemma {:induction false} ProjectAll<T>(pushed: seq<(nat, T)>, p: nat)
    requires forall i | 0 <= i < |pushed| :: pushed[i].0 == p
    ensures Project(pushed, p) == Values(pushed)
  {
    if |pushed| > 0 {
      var k := |pushed| - 1;
      ProjectAll(pushed[..k], p);
      assert Values(pushed) == Values(pushed[..k]) + [pushed[k].1];
    }
  }

  /** With one producer the mutex neither blocks nor passes on any knowledge: entering is the same
      as just going ahead. SpscProtocol carries this to whole runs without a lock. */
  lemma SingleProducerNeedsNoLock<T>(states: seq<State<T>>, actions: seq<Action<T>>, i: nat)
    requires IsRun(states, actions) && i < |states| && |states[i].producers| == 1
    requires states[i].producers[0].Calling?
    ensures var s := states[i];
      && Enabled(s, Enter(0))
      && Step(s, Enter(0)) == s.(producers := [Entered(s.producers[0].value)], holder := Some(0))
  {
    RunInv(states, actions, i);
    var s := states[i];
    assert Join(s.views[0], s.lockView) == s.views[0];
    assert s.views[0 := s.views[0]] == s.views;
  }
}
