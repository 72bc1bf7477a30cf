/** CThreadPool: AddTask hands each task to one worker picked by rand() modulo the pool size. */
module ThreadPool {
  import opened WorkerQueue

  /** log: for every AddTask that got into its worker's critical section, the worker and the task. */
  datatype Pool<T> = Pool(workers: seq<State<T>>, log: seq<(nat, T)>)

  datatype PoolEvent<T> = AddTask(t: T, rand: nat) | At(worker: nat, e: Event<T>)

  function PoolInit<T>(size: nat): Pool<T> {
    Pool(seq(size, _ => Init()), [])
  }

  function PoolStep<T>(p: Pool<T>, e: PoolEvent<T>): Pool<T>
    requires p.workers != []
  {
    match e
    case AddTask(t, rand) =>
      var i := rand % |p.workers|;
      if p.workers[i].holder.Free?
      then Pool(p.workers[i := Step(p.workers[i], PushLock(t))], p.log + [(i, t)])
      else p
    case At(i, ev) =>
      if |p.workers| <= i || ev.PushLock? then p
      else p.(workers := p.workers[i := Step(p.workers[i], ev)])
  }

  function PoolRun<T>(size: nat, events: seq<PoolEvent<T>>): (p: Pool<T>)
    requires 0 < size
    ensures |p.workers| == size
  {
    if events == [] then PoolInit(size)
    else PoolStep(PoolRun(size, events[..|events| - 1]), events[|events| - 1])
  }

  /** The tasks given to worker i, in order. */
  function Given<T>(i: nat, log: seq<(nat, T)>): seq<T> {
    if log == [] then []
    else Given(i, log[..|log| - 1]) + (if log[|log| - 1].0 == i then [log[|log| - 1].1] else [])
  }

  function Entering<T>(s: State<T>): seq<T> {
    if s.holder.Entered? then [s.holder.t] else []
  }

  /** Everywhere a worker can have a task: done, in hand, queued, being pushed. */
  function Places<T>(s: State<T>): seq<T> {
    s.finished + InHand(s) + s.queue + Entering(s)
  }

  lemma StepPushed<T>(s: State<T>, e: Event<T>)
    requires !e.PushLock? && Inv(s)
    ensures Step(s, e).pushed + Entering(Step(s, e)) == s.pushed + Entering(s)
  {
  }

  /** Every worker of the pool keeps the worker invariant and has exactly the tasks given to it. */
  lemma {:induction false} PoolInv<T>(size: nat, events: seq<PoolEvent<T>>, i: nat)
    requires i < size
    ensures var p := PoolRun(size, events);
            && Inv(p.workers[i])
            && p.workers[i].pushed + Entering(p.workers[i]) == Given(i, p.log)
  {
    hide Inv, Step;
    if events == [] {
      RunInv<T>([]);
      assert PoolRun(size, events).workers[i] == Run<T>([]);
      EmptyPlaces<T>();
    } else {
      var p, e := PoolRun(size, events[..|events| - 1]), events[|events| - 1];
      PoolInv(size, events[..|events| - 1], i);
      var w := p.workers[i];
      match e
      case AddTask(t, rand) =>
        if rand % size == i && w.holder.Free? {
          StepInv(w, PushLock(t));
          EnterPlaces(w, t);
        }
        assert (p.log + [(rand % size, t)])[..|p.log|] == p.log;
      case At(j, ev) =>
        if j == i {
          StepInv(w, ev);
          if !ev.PushLock? { StepPushed(w, ev); }
        }
    }
  }

  lemma EmptyPlaces<T>()
    ensures Run<T>([]).pushed + Entering(Run<T>([])) == []
  {
  }

  lemma EnterPlaces<T>(s: State<T>, t: T)
    requires s.holder.Free?
    ensures var s' := Step(s, PushLock(t)); s'.pushed + Entering(s') == s.pushed + Entering(s) + [t]
  {
  }

  lemma {:induction false} PoolSnoc<T>(size: nat, events: seq<PoolEvent<T>>, e: PoolEvent<T>)
    requires 0 < size
    ensures PoolRun(size, events + [e]) == PoolStep(PoolRun(size, events), e)
  {
    assert (events + [e])[..|events|] == events;
  }

  /**
   Who gets a task: AddTask gives it to the worker rand modulo size and to no other, behind everything that
   worker has, provided its critical section is free; no action of a worker or a pusher adds, drops or
   reorders any.
   */
  lemma {:induction false} TaskGoesToRand<T>(size: nat, events: seq<PoolEvent<T>>, e: PoolEvent<T>, i: nat)
    requires i < size
    ensures var w, w' := PoolRun(size, events).workers[i], PoolRun(size, events + [e]).workers[i];
            Places(w') == Places(w) +
              if e.AddTask? && i == e.rand % size && w.holder.Free? then [e.t] else []
    ensures Places(PoolRun<T>(size, []).workers[i]) == []
  {
    hide PoolRun, Places, PoolStep;
    PlacesArePushed(size, events, i);
    PlacesArePushed(size, events + [e], i);
    PoolSnoc(size, events, e);
    StepPlaces(PoolRun(size, events), e, i);
    NothingYet<T>(size, i);
  }

  lemma {:induction false} NothingYet<T>(size: nat, i: nat)
    requires i < size
    ensures Places(PoolRun<T>(size, []).workers[i]) == []
  {
    PlacesArePushed<T>(size, [], i);
    assert PoolRun<T>(size, []).log == [];
    hide Places;
  }

  lemma {:induction false} StepPlaces<T>(p: Pool<T>, e: PoolEvent<T>, i: nat)
    requires i < |p.workers| && Inv(p.workers[i])
    ensures var w, w' := p.workers[i], PoolStep(p, e).workers[i];
            w'.pushed + Entering(w') == w.pushed + Entering(w) +
              if e.AddTask? && i == e.rand % |p.workers| && w.holder.Free? then [e.t] else []
  {
    var w := p.workers[i];
    hide Step, Inv;
    assert w.pushed + Entering(w) + [] == w.pushed + Entering(w);
    match e
    case AddTask(t, rand) => if w.holder.Free? { EnterPlaces(w, t); }
    case At(j, ev) => if !ev.PushLock? { StepPushed(w, ev); }
  }

  lemma {:induction false} PlacesArePushed<T>(size: nat, events: seq<PoolEvent<T>>, i: nat)
    requires i < size
    ensures var w := PoolRun(size, events).workers[i];
            Inv(w) && Places(w) == w.pushed + Entering(w) == Given(i, PoolRun(size, events).log)
  {
    PoolInv(size, events, i);
    hide PoolRun;
  }

  /** For any number of workers and any choices of rand: worker i has its tasks, in the order given. */
  lemma ConservationAndOrder<T>(size: nat, events: seq<PoolEvent<T>>, i: nat)
    requires i < size
    ensures var p := PoolRun(size, events); Places(p.workers[i]) == Given(i, p.log)
  {
    PoolInv(size, events, i);
  }

  lemma {:induction false} GivenAbsent<T>(i: nat, log: seq<(nat, T)>, t: T)
    requires forall a | 0 <= a < |log| :: log[a].1 != t
    ensures t !in Given(i, log)
  {
    if log != [] {
      GivenAbsent(i, log[..|log| - 1], t);
    }
  }

  lemma {:induction false} GivenCount<T>(i: nat, log: seq<(nat, T)>, k: nat)
    requires k < |log|
    requires forall a | 0 <= a < |log| && a != k :: log[a].1 != log[k].1
    ensures multiset(Given(i, log))[log[k].1] == if log[k].0 == i then 1 else 0
  {
    var n, t := |log| - 1, log[k].1;
    var pre := log[..n];
    if k < n {
      GivenCount(i, pre, k);
    } else {
      GivenAbsent(i, pre, t);
    }
    assert multiset(Given(i, log))[t] ==
           multiset(Given(i, pre))[t] + if log[n].0 == i && log[n].1 == t then 1 else 0;
  }

  /**
   When all tasks are different, each one is in exactly one place of the worker it was given to and
   nowhere in any other worker; in particular it is finished at most once.
   */
  lemma ExactlyOnePlace<T>(size: nat, events: seq<PoolEvent<T>>, k: nat, i: nat)
    requires i < size && k < |PoolRun(size, events).log|
    requires var log := PoolRun(size, events).log; forall a, b | 0 <= a < b < |log| :: log[a].1 != log[b].1
    ensures var p := PoolRun(size, events);
            multiset(Places(p.workers[i]))[p.log[k].1] == if p.log[k].0 == i then 1 else 0
  {
    ConservationAndOrder(size, events, i);
    GivenCount(i, PoolRun(size, events).log, k);
  }

  function PoolDo<T>(p: Pool<T>, events: seq<PoolEvent<T>>): Pool<T>
    requires p.workers != []
    decreases events
  {
    if events == [] then p else PoolDo(PoolStep(p, events[0]), events[1..])
  }

  lemma {:induction false} PoolRunDo<T>(size: nat, a: seq<PoolEvent<T>>, b: seq<PoolEvent<T>>)
    requires 0 < size
    ensures PoolRun(size, a + b) == PoolDo(PoolRun(size, a), b)
    decreases b
  {
    if b == [] {
      assert a + b == a;
    } else {
      PoolSnoc(size, a, b[0]);
      hide PoolStep, PoolRun;
      assert a + b == a + [b[0]] + b[1..];
      PoolRunDo(size, a + [b[0]], b[1..]);
    }
  }

  /** AddTask and the three actions the pusher then has left, at the worker rand modulo size. */
  function Handover<T>(t: T, rand: nat, size: nat): seq<PoolEvent<T>>
    requires 0 < size
  {
    var w := rand % size;
    [AddTask(t, rand), At(w, PushBack), At(w, PushSignal), At(w, PushUnlock)]
  }

  lemma {:induction false} HandoverSteps<T>(views: seq<State<T>>, t: T, rand: nat)
    requires views != [] && views[rand % |views|].holder.Free?
    ensures var w := rand % |views|;
            PoolDo(Pool(views, []), Handover(t, rand, |views|)) == Pool(views[w := Do(views[w], Push(t))], [(w, t)])
  {
    var w := rand % |views|;
    var p1 := PoolStep(Pool(views, []), AddTask(t, rand));
    var p2 := PoolStep(p1, At(w, PushBack));
    var p3 := PoolStep(p2, At(w, PushSignal));
    var events := Handover(t, rand, |views|);
    DoPushSteps(views[w], t);
    hide Step, Do;
    assert PoolDo(PoolStep(p3, At(w, PushUnlock)), events[1..][1..][1..][1..]) == PoolStep(p3, At(w, PushUnlock));
    assert PoolDo(p3, events[1..][1..][1..]) == PoolStep(p3, At(w, PushUnlock));
    assert PoolDo(p2, events[1..][1..]) == PoolStep(p3, At(w, PushUnlock));
    assert PoolDo(p1, events[1..]) == PoolStep(p3, At(w, PushUnlock));
  }

  class WorkerPool<T> {
    var workers: seq<WorkerThread<T>>

    ghost predicate Valid()
      reads this, workers
    {
      && workers != []
      && (forall i, j | 0 <= i < j < |workers| :: workers[i] != workers[j])
      && (forall i | 0 <= i < |workers| :: workers[i].Valid())
    }

    ghost function Views(): (views: seq<State<T>>)
      reads this, workers
      ensures |views| == |workers| && forall i | 0 <= i < |workers| :: views[i] == workers[i].View()
    {
      seq(|workers|, i requires 0 <= i < |workers| reads this, workers => workers[i].View())
    }

    /**
     The choice is what rand() returned; the call waits until the worker's critical section is free.  It is
     the machine's AddTask and the three actions the pusher then has left at that worker.
     */
    method AddTask(t: T, rand: nat)
      requires Valid() && workers[rand % |workers|].holder.Free?
      modifies workers
      ensures Valid()
      ensures forall i | 0 <= i < |workers| ::
                workers[i].View() ==
                if i == rand % |workers| then Do(old(workers[i].View()), Push(t)) else old(workers[i].View())
      ensures var done := PoolDo(Pool(old(Views()), []), Handover(t, rand, |workers|));
              Views() == done.workers && done.log == [(rand % |workers|, t)]
    {
      var threadIdx := rand % |workers|;
      ghost var views := Views();
      HandoverSteps(views, t, rand);
      hide Step, Do, PoolDo, Handover, Views, WorkerThread.View, WorkerThread.Valid;
      workers[threadIdx].PushTask(t);
      assert Views() == views[threadIdx := Do(views[threadIdx], Push(t))];
    }
  }
}
