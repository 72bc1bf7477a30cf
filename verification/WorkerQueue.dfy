/**
 One CWorkerThread and any number of pushers, as a machine whose steps are the atomic actions of
 Execute and PushTask: the critical section protects the list but not Wait and Reset, so both can
 fall between a push_back and its SetEvent.  The event is manual-reset and starts unsignalled.
 */
module WorkerQueue {
  import opened Bytes

  /** Where Execute is: Locked before the pop, Popped after it and still inside the critical section. */
  datatype Pc<T> = Waiting | AfterWait | AfterReset | Locked | Popped(task: Option<T>) | Running(task: Option<T>)

  /** Who is inside the critical section, and how far a pusher has come. */
  datatype Holder<T> = Free | Entered(t: T) | Pushed | Signalled | Worker

  /**
   The worker's fields, followed by the history the properties speak of: tasks finished and pushed,
   SetEvents, SetEvents that found the event already set, resets, pops that found no task, and
   whether a SetEvent has not yet been followed by a pop.
   */
  datatype State<T> = State(
    queue: seq<T>, signalled: bool, holder: Holder<T>, pc: Pc<T>, taskCnt: uint32,
    finished: seq<T>, pushed: seq<T>, sets: nat, coalesced: nat, resets: nat, empties: nat, unserved: bool)

  datatype Event<T> =
    | PushLock(t: T) | PushBack | PushSignal | PushUnlock
    | WaitReturns | Reset | PopLock | PopFront | PopUnlock | Finish

  function Init<T>(): State<T> {
    State([], false, Free, Waiting, 0, [], [], 0, 0, 0, 0, false)
  }

  /** An action whose thread is not at it, or that would block, changes nothing. */
  function Step<T>(s: State<T>, e: Event<T>): State<T> {
    match e
    case PushLock(t) => if s.holder.Free? then s.(holder := Entered(t)) else s
    case PushBack =>
      if s.holder.Entered? then
        s.(queue := s.queue + [s.holder.t], pushed := s.pushed + [s.holder.t], holder := Pushed)
      else s
    case PushSignal =>
      if s.holder.Pushed? then
        s.(signalled := true, sets := s.sets + 1, coalesced := s.coalesced + One(s.signalled),
           unserved := true, holder := Signalled)
      else s
    case PushUnlock => if s.holder.Signalled? then s.(holder := Free) else s
    case WaitReturns => if s.pc.Waiting? && s.signalled then s.(pc := AfterWait) else s
    case Reset =>
      if s.pc.AfterWait? then s.(signalled := false, resets := s.resets + 1, pc := AfterReset) else s
    case PopLock =>
      if s.pc.AfterReset? && s.holder.Free? then s.(pc := Locked, holder := Worker) else s
    case PopFront =>
      if !s.pc.Locked? then s
      else if s.queue == [] then s.(pc := Popped(None), empties := s.empties + 1, unserved := false)
      else s.(pc := Popped(Some(s.queue[0])), queue := s.queue[1..], unserved := false)
    case PopUnlock => if s.pc.Popped? then s.(pc := Running(s.pc.task), holder := Free) else s
    case Finish =>
      if !s.pc.Running? then s
      else if s.pc.task.None? then s.(pc := Waiting)
      else s.(pc := Waiting, finished := s.finished + [s.pc.task.value], taskCnt := (s.taskCnt + 1) % TWO_32)
  }

  function Run<T>(events: seq<Event<T>>): State<T> {
    if events == [] then Init() else Step(Run(events[..|events| - 1]), events[|events| - 1])
  }

  function One(b: bool): nat {
    if b then 1 else 0
  }

  /** The worker has left Wait and Reset behind and has not popped yet. */
  predicate BeforePop<T>(s: State<T>) {
    s.pc.AfterReset? || s.pc.Locked?
  }

  function InHand<T>(s: State<T>): seq<T> {
    if (s.pc.Popped? || s.pc.Running?) && s.pc.task.Some? then [s.pc.task.value] else []
  }

  ghost predicate InControl<T>(s: State<T>) {
    && (s.pc.AfterWait? ==> s.signalled)
    && (s.holder.Worker? <==> s.pc.Locked? || s.pc.Popped?)
    && (s.pc.Popped? || s.pc.Running? ==> s.pc.task.Some?)
    && (s.unserved ==> s.signalled || BeforePop(s))
  }

  /**
   The queue holds one task for each SetEvent that was lost in an already set event, one for a wake that
   is still to be used, and one for a push under way.
   */
  ghost predicate Counted<T>(s: State<T>) {
    && |s.queue| == s.coalesced + One(s.signalled) + One(BeforePop(s)) + One(s.holder.Pushed?)
    && s.sets == s.resets + One(s.signalled) + s.coalesced
    && |s.pushed| == s.sets + One(s.holder.Pushed?)
    && s.empties == 0
  }

  ghost predicate InOrder<T>(s: State<T>) {
    s.finished + InHand(s) + s.queue == s.pushed && s.taskCnt == Wrap32(|s.finished|)
  }

  function Wrap32(n: nat): uint32 {
    n % TWO_32
  }

  ghost predicate Inv<T>(s: State<T>) {
    InControl(s) && Counted(s) && InOrder(s)
  }

  lemma StepControl<T>(s: State<T>, e: Event<T>)
    requires InControl(s) && (s.pc.Locked? ==> s.queue != [])
    ensures InControl(Step(s, e))
  {
  }

  lemma LockedFindsTask<T>(s: State<T>)
    requires Counted(s)
    ensures s.pc.Locked? || s.signalled ==> s.queue != []
  {
  }

  lemma StepCounted<T>(s: State<T>, e: Event<T>)
    requires InControl(s) && Counted(s)
    ensures Counted(Step(s, e))
  {
    LockedFindsTask(s);
    StepBacklog(s, e);
    hide BeforePop;
  }

  lemma StepBacklog<T>(s: State<T>, e: Event<T>)
    requires InControl(s) && (s.pc.Locked? ==> s.queue != [])
    requires |s.queue| == s.coalesced + One(s.signalled) + One(BeforePop(s)) + One(s.holder.Pushed?)
    ensures var s' := Step(s, e);
            |s'.queue| == s'.coalesced + One(s'.signalled) + One(BeforePop(s')) + One(s'.holder.Pushed?)
  {
  }

  lemma StepInOrder<T>(s: State<T>, e: Event<T>)
    requires InControl(s) && Counted(s) && InOrder(s)
    ensures InOrder(Step(s, e))
  {
    match e
    case PushBack =>
      if s.holder.Entered? {
        hide Counted;
        assert s.finished + InHand(s) + (s.queue + [s.holder.t]) == s.finished + InHand(s) + s.queue + [s.holder.t];
      }
    case PopFront =>
      if s.pc.Locked? {
        assert s.queue == [s.queue[0]] + s.queue[1..];
        assert s.finished + [] + s.queue == s.finished + [s.queue[0]] + s.queue[1..];
      }
    case Finish =>
      if s.pc.Running? {
        hide Counted;
        assert s.finished + InHand(s) + [] + s.queue == s.finished + InHand(s) + s.queue;
        ModNext(|s.finished|);
        hide Wrap32;
      }
    case _ => hide Counted;
  }

  lemma StepInv<T>(s: State<T>, e: Event<T>)
    requires Inv(s)
    ensures Inv(Step(s, e))
  {
    LockedFindsTask(s);
    StepControl(s, e);
    StepCounted(s, e);
    StepInOrder(s, e);
    hide Step, InControl, Counted, InOrder;
  }

  lemma ModNext(n: nat)
    ensures (Wrap32(n) + 1) % TWO_32 == Wrap32(n + 1)
  {
  }

  lemma WrapZero()
    ensures Wrap32(0) == 0
  {
  }

  lemma NoTasks<T>(a: seq<T>, b: seq<T>, c: seq<T>)
    requires |a| == |b| == |c| == 0
    ensures a + b + c == []
  {
  }

  lemma FreshInv<T>(s: State<T>)
    requires s.queue == s.finished == s.pushed == [] && s.taskCnt == 0
    requires s.sets == s.coalesced == s.resets == s.empties == 0
    requires s.holder.Free? && s.pc.Waiting? && !s.signalled && !s.unserved
    ensures Inv(s)
  {
    hide Wrap32;
    WrapZero();
    NoTasks(s.finished, InHand(s), s.queue);
  }

  lemma InitInv<T>()
    ensures Inv<T>(Init())
  {
    hide Inv;
    FreshInv<T>(Init());
  }

  lemma {:induction false} RunInv<T>(events: seq<Event<T>>)
    ensures Inv(Run(events))
  {
    hide Step, Inv;
    if events == [] {
      InitInv<T>();
    } else {
      RunInv(events[..|events| - 1]);
      StepInv(Run(events[..|events| - 1]), events[|events| - 1]);
    }
  }

  /** No wake is ever wasted: whenever Execute reaches its pop, the list has a task. */
  lemma PopFindsTask<T>(events: seq<Event<T>>)
    ensures var s := Run(events); s.pc.Locked? ==> s.queue != []
  {
    RunInv(events);
  }

  // ---- an unserved push is served ----

  /** What unserved records: SetEvent j of the run has not been followed by a pop. */
  lemma {:induction false} UnservedSince<T>(events: seq<Event<T>>) returns (j: nat)
    requires Run(events).unserved
    ensures j < |events| && events[j].PushSignal? && Run(events[..j]).holder.Pushed?
    ensures forall k | j < k < |events| && events[k].PopFront? :: !Run(events[..k]).pc.Locked?
  {
    var n := |events| - 1;
    var pre, e := events[..n], events[n];
    UnservedStep(Run(pre), e);
    if e.PushSignal? && Run(pre).holder.Pushed? {
      j := n;
    } else {
      j := UnservedSince(pre);
      hide Run, Step;
      assert pre[..j] == events[..j];
      forall k | j < k < |events| && events[k].PopFront? ensures !Run(events[..k]).pc.Locked? {
        if k < n { assert pre[..k] == events[..k]; }
      }
    }
  }

  /** And conversely. */
  lemma {:induction false} StaysUnserved<T>(events: seq<Event<T>>, j: nat)
    requires j < |events| && events[j].PushSignal? && Run(events[..j]).holder.Pushed?
    requires forall k | j < k < |events| && events[k].PopFront? :: !Run(events[..k]).pc.Locked?
    ensures Run(events).unserved
  {
    var n := |events| - 1;
    var pre, e := events[..n], events[n];
    UnservedStep(Run(pre), e);
    if j < n {
      assert pre[..j] == events[..j];
      forall k | j < k < n && pre[k].PopFront? ensures !Run(pre[..k]).pc.Locked? {
        assert pre[..k] == events[..k] && pre[k] == events[k];
      }
      StaysUnserved(pre, j);
    }
    hide Step;
  }

  lemma UnservedStep<T>(s: State<T>, e: Event<T>)
    ensures Step(s, e).unserved <==>
            (e.PushSignal? && s.holder.Pushed?) || (s.unserved && !(e.PopFront? && s.pc.Locked?))
  {
  }

  /** What the worker does up to and including its next pop, if nobody else gets in between. */
  function ToPop<T>(pc: Pc<T>): seq<Event<T>> {
    match pc
    case Waiting => [WaitReturns, Reset, PopLock, PopFront]
    case AfterWait => [Reset, PopLock, PopFront]
    case AfterReset => [PopLock, PopFront]
    case Locked => [PopFront]
    case Popped(_) => [PopUnlock, Finish, WaitReturns, Reset, PopLock, PopFront]
    case Running(_) => [Finish, WaitReturns, Reset, PopLock, PopFront]
  }

  /** Moving on is one step of the worker, and what remains is what it does from where it then is. */
  lemma ToPopStep<T>(s: State<T>)
    requires Inv(s) && s.unserved && (s.holder.Free? || s.holder.Worker?) && !s.pc.Locked?
    ensures var s' := Step(s, ToPop(s.pc)[0]);
            && Inv(s') && s'.unserved && (s'.holder.Free? || s'.holder.Worker?)
            && ToPop(s'.pc) == ToPop(s.pc)[1..]
            && s'.queue == s.queue
  {
    StepInv(s, ToPop(s.pc)[0]);
  }

  lemma {:induction false} WorkerPops<T>(s: State<T>)
    requires Inv(s) && s.unserved && (s.holder.Free? || s.holder.Worker?)
    ensures s.queue != []
    ensures var s' := Do(s, ToPop(s.pc));
            !s'.unserved && s'.pc == Popped(Some(s.queue[0])) && s'.queue == s.queue[1..]
    decreases |ToPop(s.pc)|
  {
    if s.pc.Locked? {
      assert ToPop(s.pc)[1..] == [];
    } else {
      ToPopStep(s);
      hide Step, Inv;
      WorkerPops(Step(s, ToPop(s.pc)[0]));
    }
  }

  /**
   No push is overlooked: from every reachable state with a SetEvent that no pop has followed, as soon as
   no pusher is inside the critical section, the worker's own next steps take the front task off the
   list.
   */
  lemma UnservedPushIsServed<T>(events: seq<Event<T>>)
    requires var s := Run(events); s.unserved && (s.holder.Free? || s.holder.Worker?)
    ensures Run(events).queue != []
    ensures var s := Run(events);
            var s' := Run(events + ToPop(s.pc));
            !s'.unserved && s'.pc == Popped(Some(s.queue[0])) && s'.queue == s.queue[1..]
  {
    RunInv(events);
    WorkerPops(Run(events));
    RunConcat(events, ToPop(Run(events).pc));
  }

  predicate OfPusher<T>(e: Event<T>) {
    e.PushLock? || e.PushBack? || e.PushSignal? || e.PushUnlock?
  }

  predicate Pops<T>(s: State<T>, e: Event<T>) {
    e.PopFront? && s.pc.Locked?
  }

  /** The steps, out of events, at which the worker moves. */
  ghost function WorkerMoves<T>(s: State<T>, events: seq<Event<T>>): set<nat> {
    set k: nat | k < |events| && MovesAt(s, events, k)
  }

  ghost predicate MovesAt<T>(s: State<T>, events: seq<Event<T>>, k: nat)
    requires k < |events|
  {
    !OfPusher(events[k]) && Step(Do(s, events[..k]), events[k]) != Do(s, events[..k])
  }

  /** An action that is no pop leaves a push unserved, and one of the worker takes it nearer to its pop. */
  lemma StepNearer<T>(s: State<T>, e: Event<T>)
    requires Inv(s) && s.unserved && !Pops(s, e)
    ensures Step(s, e).unserved && 0 < |ToPop(Step(s, e).pc)|
    ensures |ToPop(Step(s, e).pc)| == |ToPop(s.pc)| - One(!OfPusher(e) && Step(s, e) != s)
  {
    hide Counted, InOrder;
  }

  lemma {:induction false} DoSnoc<T>(s: State<T>, events: seq<Event<T>>, e: Event<T>)
    ensures Do(s, events + [e]) == Step(Do(s, events), e)
    decreases events
  {
    hide Step;
    if events == [] {
      assert (events + [e])[1..] == [];
    } else {
      DoSnoc(Step(s, events[0]), events[1..], e);
      assert (events + [e])[1..] == events[1..] + [e];
    }
  }

  lemma {:induction false} WorkerMovesSnoc<T>(s: State<T>, events: seq<Event<T>>, e: Event<T>)
    ensures var d := Do(s, events);
            |WorkerMoves(s, events + [e])| == |WorkerMoves(s, events)| + One(!OfPusher(e) && Step(d, e) != d)
  {
    hide Step, Do, OfPusher;
    var all, n := events + [e], |events|;
    forall k: nat | k < n ensures MovesAt(s, all, k) <==> MovesAt(s, events, k) {
      assert all[..k] == events[..k];
    }
    assert all[..n] == events;
    var moves := !OfPusher(e) && Step(Do(s, events), e) != Do(s, events);
    assert MovesAt(s, all, n) <==> moves;
    hide MovesAt;
    assert WorkerMoves(s, all) == WorkerMoves(s, events) + if moves then {n} else {};
    assert n !in WorkerMoves(s, events);
  }

  lemma {:induction false} FewMoves<T>(s: State<T>, events: seq<Event<T>>)
    requires Inv(s) && s.unserved
    requires forall k | 0 <= k < |events| :: !Pops(Do(s, events[..k]), events[k])
    ensures var d := Do(s, events);
            && Inv(d) && d.unserved && 0 < |ToPop(d.pc)|
            && |WorkerMoves(s, events)| + |ToPop(d.pc)| == |ToPop(s.pc)|
  {
    hide Step, Inv, OfPusher, ToPop, Pops;
    if events == [] {
      assert WorkerMoves(s, events) == {};
      ToPopNonempty(s.pc);
    } else {
      var pre, e := events[..|events| - 1], events[|events| - 1];
      forall k | 0 <= k < |pre| ensures !Pops(Do(s, pre[..k]), pre[k]) {
        assert pre[..k] == events[..k];
      }
      FewMoves(s, pre);
      assert pre + [e] == events;
      DoSnoc(s, pre, e);
      WorkerMovesSnoc(s, pre, e);
      hide Do, WorkerMoves;
      StepInv(Do(s, pre), e);
      StepNearer(Do(s, pre), e);
    }
  }

  lemma ToPopNonempty<T>(pc: Pc<T>)
    ensures 0 < |ToPop(pc)| <= 6
  {
  }

  /**
   No push is overlooked under any interleaving: from every reachable state with a SetEvent that no pop
   has followed, fewer than six steps that are not a pusher's change the state before the next pop,
   whatever pushers do in between.
   */
  lemma PopWithinSixMoves<T>(events: seq<Event<T>>, more: seq<Event<T>>) returns (moves: set<nat>)
    requires Run(events).unserved
    requires forall k | 0 <= k < |more| && more[k].PopFront? :: !Run(events + more[..k]).pc.Locked?
    ensures forall k: nat :: k in moves <==>
              && k < |more| && Run(events + more[..k + 1]) != Run(events + more[..k])
              && !more[k].PushLock? && !more[k].PushBack? && !more[k].PushSignal? && !more[k].PushUnlock?
    ensures |moves| < 6
  {
    var s := Run(events);
    RunInv(events);
    hide Run, Step, Inv;
    forall k: nat | k <= |more| ensures Run(events + more[..k]) == Do(s, more[..k]) {
      RunConcat(events, more[..k]);
    }
    assert more[..|more|] == more;
    FewMoves(s, more);
    ToPopNonempty(s.pc);
    moves := WorkerMoves(s, more);
    forall k: nat | k < |more|
      ensures Run(events + more[..k + 1]) == Step(Do(s, more[..k]), more[k])
    {
      assert more[..k] + [more[k]] == more[..k + 1];
      DoSnoc(s, more[..k], more[k]);
    }
    hide Do;
  }

  // ---- what a push can strand ----

  /** Nobody is pushing and the worker sleeps: only a new push can change anything. */
  predicate Quiescent<T>(s: State<T>) {
    s.pc.Waiting? && !s.signalled && s.holder.Free?
  }

  /** At rest the queue holds exactly the lost signals, and only another push can move it. */
  lemma QuiescentBacklog<T>(events: seq<Event<T>>, e: Event<T>)
    requires Quiescent(Run(events))
    ensures var s := Run(events);
            && |s.queue| == s.coalesced
            && (s.queue == [] <==> s.coalesced == 0)
            && (Step(s, e) != s ==> e.PushLock?)
  {
    RunInv(events);
  }

  lemma StepCoalesced<T>(s: State<T>, e: Event<T>)
    ensures s.coalesced <= Step(s, e).coalesced
  {
  }

  lemma {:induction false} CoalescedGrows<T>(events: seq<Event<T>>, i: nat)
    requires i <= |events|
    ensures Run(events[..i]).coalesced <= Run(events).coalesced
  {
    hide Step;
    if i == |events| {
      assert events[..i] == events;
    } else {
      var pre := events[..|events| - 1];
      assert pre[..i] == events[..i];
      CoalescedGrows(pre, i);
      StepCoalesced(Run(pre), events[|events| - 1]);
    }
  }

  /** Between two states at rest the queue never shrinks: what is stranded stays stranded. */
  lemma StrandedStays<T>(events: seq<Event<T>>, i: nat)
    requires i <= |events| && Quiescent(Run(events[..i])) && Quiescent(Run(events))
    ensures |Run(events[..i]).queue| <= |Run(events).queue|
  {
    RunInv(events[..i]);
    RunInv(events);
    CoalescedGrows(events, i);
  }

  function Push<T>(t: T): seq<Event<T>> {
    [PushLock(t), PushBack, PushSignal, PushUnlock]
  }

  function OneLoop<T>(): seq<Event<T>> {
    [WaitReturns, Reset, PopLock, PopFront, PopUnlock, Finish]
  }

  function Do<T>(s: State<T>, events: seq<Event<T>>): State<T>
    decreases events
  {
    if events == [] then s else Do(Step(s, events[0]), events[1..])
  }

  lemma {:induction false} RunConcat<T>(a: seq<Event<T>>, b: seq<Event<T>>)
    ensures Run(a + b) == Do(Run(a), b)
    decreases b
  {
    if b == [] {
      assert a + b == a;
    } else {
      assert (a + [b[0]])[..|a|] == a;
      assert a + b == a + [b[0]] + b[1..];
      RunConcat(a + [b[0]], b[1..]);
    }
  }

  /** Two pushes before one wake: the second task is left behind with the worker asleep. */
  lemma TwoPushesOneWake<T>(t: T, u: T)
    ensures var s := Run(Push(t) + Push(u) + OneLoop());
            Quiescent(s) && s.queue == [u] && s.finished == [t]
  {
    var s0: State<T> := Init();
    var s1 := s0.(queue := [t], pushed := [t], signalled := true, sets := 1, unserved := true);
    assert Do(s0, Push(t)) == s1 by { DoPush(s0, t); }
    var s2 := s1.(queue := [t, u], pushed := [t, u], sets := 2, coalesced := 1);
    assert Do(s1, Push(u)) == s2 by { DoPush(s1, u); }
    DoLoop(s2);
    RunConcat([], Push(t));
    assert [] + Push(t) == Push(t);
    RunConcat(Push(t), Push(u));
    RunConcat(Push(t) + Push(u), OneLoop());
  }

  lemma DoPush<T>(s: State<T>, t: T)
    requires s.holder.Free?
    ensures Do(s, Push(t)) == s.(queue := s.queue + [t], pushed := s.pushed + [t], signalled := true,
                                 sets := s.sets + 1, coalesced := s.coalesced + One(s.signalled), unserved := true)
  {
    DoPushSteps(s, t);
  }

  lemma DoCons<T>(s: State<T>, e: Event<T>, rest: seq<Event<T>>)
    ensures Do(s, [e] + rest) == Do(Step(s, e), rest)
  {
  }

  lemma DoLoop<T>(s: State<T>)
    requires s.holder.Free? && s.pc.Waiting? && s.signalled && s.queue != []
    ensures var s' := Do(s, OneLoop());
            && Quiescent(s') && s'.queue == s.queue[1..] && s'.finished == s.finished + [s.queue[0]]
            && s'.taskCnt == (s.taskCnt + 1) % TWO_32
  {
    DoLoopSteps(s);
  }

  // ---- the class ----

  /** CWorkerThread with its CThreadNotify; one method for each atomic action, run by the thread that is at it. */
  class WorkerThread<T> {
    var taskList: seq<T>
    var taskCnt: uint32
    var eventSet: bool
    var holder: Holder<T>
    var pc: Pc<T>
    ghost var hist: State<T>

    /** The machine state: the fields, with the history kept in hist. */
    ghost function View(): State<T>
      reads this
    {
      hist.(queue := taskList, signalled := eventSet, holder := holder, pc := pc, taskCnt := taskCnt)
    }

    /** The laws about runs hold of the object: every method keeps them. */
    ghost predicate Valid()
      reads this
    {
      Inv(View())
    }

    constructor ()
      ensures Valid() && View() == Init()
    {
      taskList, taskCnt, eventSet, holder, pc := [], 0, false, Free, Waiting;
      hist := Init();
      new;
      hide Inv;
      assert View() == Init();
      InitInv<T>();
    }

    method EnterForPush(t: T)
      requires Valid() && holder.Free?
      modifies this
      ensures Valid() && View() == Step(old(View()), PushLock(t))
    {
      StepInv(View(), PushLock(t));
      hist := Step(View(), PushLock(t));
      holder := Entered(t);
    }

    method PushBackTask()
      requires Valid() && holder.Entered?
      modifies this
      ensures Valid() && View() == Step(old(View()), PushBack)
    {
      StepInv(View(), PushBack);
      hist := Step(View(), PushBack);
      taskList := taskList + [holder.t];
      holder := Pushed;
    }

    method SignalEvent()
      requires Valid() && holder.Pushed?
      modifies this
      ensures Valid() && View() == Step(old(View()), PushSignal)
    {
      StepInv(View(), PushSignal);
      hist := Step(View(), PushSignal);
      eventSet := true;
      holder := Signalled;
    }

    method LeaveAfterPush()
      requires Valid() && holder.Signalled?
      modifies this
      ensures Valid() && View() == Step(old(View()), PushUnlock)
    {
      StepInv(View(), PushUnlock);
      hist := Step(View(), PushUnlock);
      holder := Free;
    }

    /** PushTask with no other thread in between. */
    method PushTask(t: T)
      requires Valid() && holder.Free?
      modifies this
      ensures Valid() && View() == Do(old(View()), Push(t))
    {
      ghost var s := View();
      DoPushSteps(s, t);
      EnterForPush(t);
      PushBackTask();
      SignalEvent();
      LeaveAfterPush();
    }

    method WaitEvent()
      requires Valid() && pc.Waiting? && eventSet
      modifies this
      ensures Valid() && View() == Step(old(View()), WaitReturns)
      ensures pc == AfterWait && holder == old(holder)
    {
      StepInv(View(), WaitReturns);
      hist := Step(View(), WaitReturns);
      pc := AfterWait;
    }

    method ResetEvent()
      requires Valid() && pc.AfterWait?
      modifies this
      ensures Valid() && View() == Step(old(View()), Reset)
      ensures pc == AfterReset && holder == old(holder)
    {
      StepInv(View(), Reset);
      hist := Step(View(), Reset);
      eventSet := false;
      pc := AfterReset;
    }

    method EnterForPop()
      requires Valid() && pc.AfterReset? && holder.Free?
      modifies this
      ensures Valid() && View() == Step(old(View()), PopLock)
      ensures pc == Locked
    {
      StepInv(View(), PopLock);
      hist := Step(View(), PopLock);
      holder, pc := Worker, Locked;
    }

    method PopTask()
      requires Valid() && pc.Locked?
      modifies this
      ensures Valid() && View() == Step(old(View()), PopFront)
      ensures old(taskList) != [] && pc == Popped(Some(old(taskList)[0]))
    {
      StepInv(View(), PopFront);
      hist := Step(View(), PopFront);
      var task: Option<T> := None;
      if taskList != [] {
        task := Some(taskList[0]);
        taskList := taskList[1..];
      }
      pc := Popped(task);
    }

    method LeaveAfterPop()
      requires Valid() && pc.Popped?
      modifies this
      ensures Valid() && View() == Step(old(View()), PopUnlock)
      ensures pc.Running?
    {
      StepInv(View(), PopUnlock);
      hist := Step(View(), PopUnlock);
      pc, holder := Running(pc.task), Free;
    }

    method RunTask()
      requires Valid() && pc.Running?
      modifies this
      ensures Valid() && View() == Step(old(View()), Finish)
    {
      StepInv(View(), Finish);
      hist := Step(View(), Finish);
      if pc.task.Some? {
        taskCnt := (taskCnt + 1) % TWO_32;
      }
      pc := Waiting;
    }

    /** Wait and Reset, with the event already set. */
    method Wake()
      requires Valid() && pc.Waiting? && eventSet
      modifies this
      ensures Valid() && View() == Step(Step(old(View()), WaitReturns), Reset)
      ensures pc == AfterReset && holder == old(holder)
    {
      WaitEvent();
      ResetEvent();
    }

    /** The critical section of Execute. */
    method TakeTask()
      requires Valid() && pc.AfterReset? && holder.Free?
      modifies this
      ensures Valid() && View() == Step(Step(Step(old(View()), PopLock), PopFront), PopUnlock)
      ensures pc.Running?
    {
      hide Inv, Step;
      EnterForPop();
      PopTask();
      LeaveAfterPop();
    }

    /** One iteration of Execute with no other thread in between. */
    method ExecuteOnce()
      requires Valid() && pc.Waiting? && eventSet && holder.Free?
      modifies this
      ensures Valid() && View() == Do(old(View()), OneLoop())
      ensures old(taskList) != [] && taskList == old(taskList)[1..]
      ensures taskCnt == (old(taskCnt) + 1) % TWO_32
    {
      ghost var s := View();
      LockedFindsTask(s);
      hide Inv, Step, Do;
      DoLoopSteps(s);
      DoLoop(s);
      Wake();
      TakeTask();
      RunTask();
    }
  }

  lemma DoPushSteps<T>(s: State<T>, t: T)
    ensures Do(s, Push(t)) == Step(Step(Step(Step(s, PushLock(t)), PushBack), PushSignal), PushUnlock)
  {
    hide Step;
    var s1 := Step(s, PushLock(t));
    var s2 := Step(s1, PushBack);
    DoCons(s, PushLock(t), [PushBack, PushSignal, PushUnlock]);
    DoCons(s1, PushBack, [PushSignal, PushUnlock]);
    DoCons(s2, PushSignal, [PushUnlock]);
    DoCons(Step(s2, PushSignal), PushUnlock, []);
  }

  lemma DoLoopSteps<T>(s: State<T>)
    ensures Do(s, OneLoop())
         == Step(Step(Step(Step(Step(Step(s, WaitReturns), Reset), PopLock), PopFront), PopUnlock), Finish)
  {
    hide Step;
    var s1 := Step(s, WaitReturns);
    var s2 := Step(s1, Reset);
    var s3 := Step(s2, PopLock);
    var s4 := Step(s3, PopFront);
    DoCons(s, WaitReturns, [Reset, PopLock, PopFront, PopUnlock, Finish]);
    DoCons(s1, Reset, [PopLock, PopFront, PopUnlock, Finish]);
    DoCons(s2, PopLock, [PopFront, PopUnlock, Finish]);
    DoCons(s3, PopFront, [PopUnlock, Finish]);
    DoCons(s4, PopUnlock, [Finish]);
    DoCons(Step(s4, PopUnlock), Finish, []);
  }
}
