/** The interest sets against the socket map: what a close undoes, and when every socket is watched. */
module Coverage {
  import opened Bytes
  import opened Framing
  import opened FdSets
  import opened ServerModel
  import opened ServerLaws

  /**
   Closing a freshly accepted connection puts back both maps and all three interest sets, order
   included; only the deleted object's id is used up.
   */
  lemma CloseUndoesAccept(events: seq<Event>, fd: int)
    requires fd !in Run(events).open
    ensures var s := Run(events);
            && fd in AcceptOne(s, fd).socks
            && CloseSock(AcceptOne(s, fd), fd) == s.(nextId := s.nextId + 1)
  {
    RunInv(events);
    RegisterKeys(Run(events), fd, Connected);
    CloseUndoesMaps(Run(events), fd);
    CloseUndoesSets(Run(events), fd);
    hide Run, AcceptOne, CloseSock, Inv, FdClr;
  }

  lemma CloseUndoesMaps(s: Srv, fd: int)
    requires MapsAgree(s) && ObjectsAgree(s) && fd !in s.open
    ensures var s' := AcceptOne(s, fd);
            && fd in s'.socks
            && CloseSock(s', fd) == s.(nextId := s.nextId + 1, readSet := FdClr(s'.readSet, fd),
                                       writeSet := FdClr(s.writeSet, fd), excepSet := FdClr(s'.excepSet, fd))
  {
    assert fd !in s.socks && fd !in s.conns && s.nextId !in s.alive;
    InsertRemove(s.socks, fd, Sock(s.nextId, Connected));
    InsertRemove(s.conns, fd, Conn(s.nextId, []));
    AddRemove(s.open, fd);
    AddRemove(s.alive, s.nextId);
    AcceptFields(s, fd);
    hide FdAdd, FdClr, MapsAgree, ObjectsAgree, Insert, AcceptOne;
  }

  lemma InsertRemove<V>(m: map<int, V>, k: int, v: V)
    requires k !in m
    ensures Insert(m, k, v)[k] == v && Insert(m, k, v) - {k} == m
  {
  }

  lemma AddRemove<T>(s: set<T>, x: T)
    requires x !in s
    ensures s + {x} - {x} == s
  {
  }

  lemma CloseUndoesSets(s: Srv, fd: int)
    requires MapsAgree(s) && SetsAgree(s) && fd !in s.open
    ensures var s' := AcceptOne(s, fd);
            && FdClr(s'.readSet, fd) == s.readSet && FdClr(s.writeSet, fd) == s.writeSet
            && FdClr(s'.excepSet, fd) == s.excepSet
  {
    assert fd !in Members(s.readSet) && fd !in Members(s.writeSet) && fd !in Members(s.excepSet);
    ClrAfterAdd(s.readSet, fd);
    ClrAfterAdd(s.excepSet, fd);
    ClrAbsent(s.writeSet, fd);
    hide FdAdd, FdClr;
  }

  lemma RegisterKeys(s: Srv, fd: int, state: SockState)
    requires MapsAgree(s) && fd !in s.open
    ensures Register(s, fd, state).socks.Keys == s.socks.Keys + {fd}
    ensures |Register(s, fd, state).socks| == |s.socks| + 1
    ensures AcceptOne(s, fd).socks == Register(s, fd, Connected).socks
  {
    hide FdAdd;
    var s1 := Register(s, fd, state);
    assert s1.socks.Keys == s.socks.Keys + {fd} && fd !in s.socks.Keys;
    assert |s1.socks| == |s1.socks.Keys| == |s.socks.Keys| + 1;
  }

  /** Every mapped socket is in the sets select is given for reading and for exceptions. */
  ghost predicate Covered(s: Srv) {
    Members(s.readSet) == s.socks.Keys == Members(s.excepSet)
  }

  lemma CoveredFits(s: Srv)
    requires Inv(s) && Covered(s)
    ensures |s.readSet| == |s.excepSet| == |s.socks| <= FD_SETSIZE
  {
    MembersCount(s.readSet);
    MembersCount(s.excepSet);
    assert |s.socks| == |s.socks.Keys|;
  }

  lemma RegisterCovered(s: Srv, fd: int, state: SockState)
    requires Inv(s) && Covered(s) && fd !in s.open && |s.socks| < FD_SETSIZE
    ensures Covered(Register(s, fd, state)) && |Register(s, fd, state).socks| == |s.socks| + 1
  {
    CoveredFits(s);
    AddMembers(s.readSet, fd);
    AddMembers(s.excepSet, fd);
    RegisterKeys(s, fd, state);
    hide FdAdd, Members, Inv;
  }

  lemma {:induction false} AcceptAllCovered(s: Srv, fds: seq<int>)
    requires Inv(s) && Covered(s) && |AcceptAll(s, fds).socks| <= FD_SETSIZE
    ensures Covered(AcceptAll(s, fds))
  {
    if fds != [] {
      var pre, fd := fds[..|fds| - 1], fds[|fds| - 1];
      var s1 := AcceptAll(s, pre);
      AcceptAllInv(s, pre);
      if fd !in s1.open {
        hide Covered, AcceptAll, Inv;
        RegisterKeys(s1, fd, Connected);
        AcceptAllCovered(s, pre);
        RegisterCovered(s1, fd, Connected);
        CoveredFrame(Register(s1, fd, Connected), AcceptOne(s1, fd));
      } else {
        AcceptAllCovered(s, pre);
      }
    }
  }

  lemma CoveredFrame(s: Srv, s': Srv)
    requires Covered(s) && s'.socks == s.socks && s'.readSet == s.readSet && s'.excepSet == s.excepSet
    ensures Covered(s')
  {
  }

  lemma StepCovered(s: Srv, e: Event)
    requires Inv(s) && Covered(s) && |Step(s, e).socks| <= FD_SETSIZE
    ensures Covered(Step(s, e))
  {
    hide Register, CloseSock, ReadConn, AcceptAll, Covered, FdAdd, FdClr, ObjectsAgree, SetsAgree, LogAgrees;
    match e
    case Listen(fd) =>
      if fd !in s.open {
        RegisterKeys(s, fd, Listening);
        RegisterCovered(s, fd, Listening);
      }
    case Readable(fd, accepted, avail, chunk) =>
      if fd in s.socks {
        if s.socks[fd].state == Listening { AcceptAllCovered(s, accepted); }
        CloseCovered(s, fd);
        if fd in s.conns { ReadCovered(s, fd, chunk); }
      }
    case Exceptional(fd) => if fd in s.socks { CloseCovered(s, fd); }
    case _ => CoveredFrame(s, Step(s, e));
  }

  lemma ReadCovered(s: Srv, fd: int, chunk: seq<byte>)
    requires Covered(s) && fd in s.conns
    ensures Covered(ReadConn(s, fd, chunk))
  {
    hide ReadCall;
    CoveredFrame(s, ReadConn(s, fd, chunk));
  }

  lemma CloseCovered(s: Srv, fd: int)
    requires Inv(s) && Covered(s) && fd in s.socks
    ensures Covered(CloseSock(s, fd))
  {
    ClrMembers(s.readSet, fd);
    ClrMembers(s.excepSet, fd);
    hide FdClr, Members;
    assert CloseSock(s, fd).socks.Keys == s.socks.Keys - {fd};
  }

  /**
   Every socket has been watched at every step of a run if and only if the server never had more than
   FD_SETSIZE sockets.
   */
  lemma {:induction false} CoverageIff(events: seq<Event>)
    ensures (forall k | 0 <= k <= |events| :: Covered(Run(events[..k]))) <==>
            (forall k | 0 <= k <= |events| :: |Run(events[..k]).socks| <= FD_SETSIZE)
  {
    hide Step;
    if forall k | 0 <= k <= |events| :: Covered(Run(events[..k])) {
      forall k | 0 <= k <= |events| ensures |Run(events[..k]).socks| <= FD_SETSIZE {
        RunInv(events[..k]);
        CoveredFits(Run(events[..k]));
      }
    }
    if forall k | 0 <= k <= |events| :: |Run(events[..k]).socks| <= FD_SETSIZE {
      forall k | 0 <= k <= |events| ensures Covered(Run(events[..k])) {
        CoveredUpTo(events, k);
      }
    }
  }

  lemma {:induction false} CoveredUpTo(events: seq<Event>, k: nat)
    requires k <= |events|
    requires forall k | 0 <= k <= |events| :: |Run(events[..k]).socks| <= FD_SETSIZE
    ensures Covered(Run(events[..k]))
  {
    hide Step, Covered, Inv, Register;
    if k == 0 {
      StartCovered();
      assert events[..0] == [];
    } else {
      CoveredUpTo(events, k - 1);
      RunInv(events[..k - 1]);
      RunAt(events, k - 1);
      StepCovered(Run(events[..k - 1]), events[k - 1]);
    }
  }

  lemma StartCovered()
    ensures Covered(START)
  {
  }

  // ---- a socket that was never put into the sets ----

  /** What a step does to other sockets leaves fd in the read and exception sets, or out of them. */
  ghost predicate SameWatch(s: Srv, s': Srv, fd: int) {
    (fd in s'.readSet <==> fd in s.readSet) && (fd in s'.excepSet <==> fd in s.excepSet)
  }

  lemma {:induction false} AcceptWatch(s: Srv, fds: seq<int>, fd: int)
    requires Inv(s) && fd in s.socks
    ensures fd in AcceptAll(s, fds).socks && SameWatch(s, AcceptAll(s, fds), fd)
  {
    if fds != [] {
      AcceptWatch(s, fds[..|fds| - 1], fd);
      AcceptAllInv(s, fds[..|fds| - 1]);
      hide AcceptAll, ObjectsAgree, SetsAgree, LogAgrees;
    }
  }

  lemma CloseWatch(s: Srv, other: int, fd: int)
    requires Inv(s) && other in s.socks && fd != other
    ensures SameWatch(s, CloseSock(s, other), fd)
  {
    ClrIn(s.readSet, other, fd);
    ClrIn(s.excepSet, other, fd);
  }

  lemma StepWatch(s: Srv, e: Event, fd: int)
    requires Inv(s) && fd in s.socks && fd in Step(s, e).socks
    ensures SameWatch(s, Step(s, e), fd)
  {
    hide AcceptAll, ReadCall, ObjectsAgree, SetsAgree, LogAgrees, FdClr;
    match e
    case Listen(f) =>
    case Readable(f, accepted, avail, chunk) =>
      AcceptWatch(s, accepted, fd);
      if f in s.socks && f != fd { CloseWatch(s, f, fd); }
    case Exceptional(f) =>
      if f in s.socks && f != fd { CloseWatch(s, f, fd); }
    case _ =>
  }

  /** As long as a socket stays mapped, select sees it at every step or at none. */
  lemma {:induction false} WatchedForLife(events: seq<Event>, i: nat, j: nat, fd: int)
    requires i <= j <= |events| && OpenThroughout(events, i, j, fd)
    ensures SameWatch(Run(events[..i]), Run(events[..j]), fd)
    decreases j
  {
    hide Step, Run, Inv;
    if i < j {
      WatchedForLife(events, i, j - 1, fd);
      RunInv(events[..j - 1]);
      RunAt(events, j - 1);
      StepWatch(Run(events[..j - 1]), events[j - 1], fd);
    }
  }

  lemma {:induction false} AcceptTail(s: Srv, fds: seq<int>, k: nat, fd: int)
    requires k <= |fds| && Inv(s) && fd in AcceptAll(s, fds[..k]).socks
    ensures fd in AcceptAll(s, fds).socks && SameWatch(AcceptAll(s, fds[..k]), AcceptAll(s, fds), fd)
  {
    if k == |fds| {
      assert fds[..k] == fds;
    } else {
      var pre := fds[..|fds| - 1];
      assert pre[..k] == fds[..k];
      AcceptTail(s, pre, k, fd);
      AcceptAllInv(s, pre);
      hide AcceptAll, ObjectsAgree, SetsAgree, LogAgrees;
    }
  }

  lemma AcceptRoom(s: Srv, fd: int)
    requires Inv(s) && fd !in s.open
    ensures fd in AcceptOne(s, fd).socks
    ensures fd in AcceptOne(s, fd).readSet <==> |s.readSet| < 64
  {
    assert fd !in Members(s.readSet);
  }

  /**
   A connection accepted as the k-th of a batch is in the set select is given for reading, at every
   later step up to its close, if and only if that set had room when it was accepted.
   */
  lemma WatchedIffRoom(events: seq<Event>, i: nat, j: nat, k: nat)
    requires i < j <= |events|
    requires var s, e := Run(events[..i]), events[i];
             && e.Readable? && e.fd in s.socks && s.socks[e.fd].state == Listening && k < |e.accepted|
             && e.accepted[k] !in AcceptAll(s, e.accepted[..k]).open
             && OpenThroughout(events, i + 1, j, e.accepted[k])
    ensures events[i].accepted[k] in Run(events[..j]).readSet <==>
            |AcceptAll(Run(events[..i]), events[i].accepted[..k]).readSet| < FD_SETSIZE
  {
    hide Run, FdAdd, FdClr, Inv;
    var s, fds := Run(events[..i]), events[i].accepted;
    RunInv(events[..i]);
    RunAt(events, i);
    AcceptAllInv(s, fds[..k]);
    AcceptRoom(AcceptAll(s, fds[..k]), fds[k]);
    assert fds[..k + 1][..k] == fds[..k];
    AcceptTail(s, fds, k + 1, fds[k]);
    WatchedForLife(events, i + 1, j, fds[k]);
  }

  // ---- a run with one socket too many ----

  function UpTo(n: nat): (fds: seq<int>)
    ensures |fds| == n
  {
    seq(n, i => i + 1)
  }

  lemma ListenState()
    ensures Run([Listen(0)]) == Register(START, 0, Listening)
  {
    assert [Listen(0)][..0] == [];
  }

  /** A listener on descriptor 0 and connections on 1..n. */
  ghost predicate Filled(s: Srv, n: nat) {
    && s.open == s.socks.Keys && (forall f :: f in s.socks <==> 0 <= f <= n)
    && s.socks[0].state == Listening
    && (forall f | 1 <= f <= n :: s.socks[f].state == Connected && f in s.conns)
    && (forall f | f in s.conns :: f <= n)
    && |s.readSet| == Min(n + 1, FD_SETSIZE)
    && (forall f | f in s.readSet :: f <= n)
    && (forall f | 0 <= f <= n && f < FD_SETSIZE :: f in s.readSet)
  }

  lemma FillOne(s: Srv, n: nat)
    requires Filled(s, n)
    ensures Filled(AcceptOne(s, n + 1), n + 1)
  {
    var fd := n + 1;
    assert fd !in s.socks && fd !in s.conns;
    var s' := AcceptOne(s, fd);
    assert s'.socks.Keys == s.socks.Keys + {fd};
  }

  lemma {:induction false} FillUp(n: nat)
    ensures n == 0 ==> AcceptAll(Register(START, 0, Listening), UpTo(n)) == Register(START, 0, Listening)
    ensures Filled(AcceptAll(Register(START, 0, Listening), UpTo(n)), n)
  {
    var s0 := Register(START, 0, Listening);
    if n == 0 {
      assert UpTo(n) == [] && s0.readSet == [0];
      assert s0.socks.Keys == {0};
    } else {
      hide Filled, AcceptOne;
      assert UpTo(n)[..n - 1] == UpTo(n - 1) && UpTo(n)[n - 1] == n;
      FillUp(n - 1);
      FillOne(AcceptAll(s0, UpTo(n - 1)), n - 1);
    }
  }

  const FULL: seq<Event> := [Listen(0), Readable(0, UpTo(FD_SETSIZE), true, [])]

  lemma FullRun()
    ensures Run(FULL[..1]) == Register(START, 0, Listening)
    ensures Run(FULL) == AcceptAll(Register(START, 0, Listening), UpTo(FD_SETSIZE))
  {
    assert FULL[..1] == [Listen(0)] && FULL[..2] == FULL;
    ListenState();
    RunAt(FULL, 1);
    hide UpTo, AcceptAll;
  }

  /**
   A listener and 64 connections: the last connection is open and mapped, and as long as it stays so
   select is never asked about it, whatever else happens.
   */
  lemma SixtyFifthSocket(more: seq<Event>, j: nat)
    requires 2 <= j <= |more| + 2
    ensures 64 in Run(FULL).conns
    ensures (forall m | 2 <= m <= j :: 64 in Run((FULL + more)[..m]).socks) ==> 64 !in Run((FULL + more)[..j]).readSet
  {
    OpenIff(FULL + more, 2, j, FD_SETSIZE);
    hide FULL, Run, AcceptAll, UpTo, Register, Step, Inv;
    var events := FULL + more;
    FullAccepts(more);
    FullRun();
    FillUp(0);
    FillUp(FD_SETSIZE);
    FillUp(FD_SETSIZE - 1);
    if OpenThroughout(events, 2, j, FD_SETSIZE) {
      WatchedIffRoom(events, 1, j, FD_SETSIZE - 1);
    }
  }

  /** FULL opens a listener on 0, and a read notice then accepts 1, 2, ..., 64. */
  lemma FullIs()
    ensures FULL[0] == Listen(0) && FULL[1].Readable? && FULL[1].fd == 0
    ensures |FULL| == 2 && |FULL[1].accepted| == 64 && forall k | 0 <= k < 64 :: FULL[1].accepted[k] == k + 1
  {
  }

  lemma FullAccepts(more: seq<Event>)
    ensures var fds := UpTo(FD_SETSIZE);
            && |FULL| == 2 && (FULL + more)[..1] == FULL[..1] && (FULL + more)[1] == Readable(0, fds, true, [])
            && fds[..FD_SETSIZE - 1] == UpTo(FD_SETSIZE - 1) && fds[FD_SETSIZE - 1] == FD_SETSIZE
  {
  }

  // ---- how such a socket can be read all the same ----

  /**
   A connection outside the read set is read only through a notice raised before it got there: as long
   as it stays open and every read notice handled for its descriptor was raised since, it hears nothing.
   */
  lemma {:induction false} UnwatchedHearsNothing(events: seq<Event>, i: nat, j: nat, fd: int)
    requires i <= j <= |events| && OpenThroughout(events, i, j, fd)
    requires fd in Run(events[..i]).socks && fd !in Run(events[..i]).readSet
    requires forall k | i <= k < j && events[k].Readable? && events[k].fd == fd ::
               exists m: nat | i <= m <= k :: fd in Run(events[..m]).readSet
    ensures var id := Run(events[..i]).socks[fd].id; Heard(events[..j], id) == Heard(events[..i], id)
    decreases j
  {
    hide Step, Run, Heard;
    if i < j {
      var id, s, e := Run(events[..i]).socks[fd].id, Run(events[..j - 1]), events[j - 1];
      UnwatchedHearsNothing(events, i, j - 1, fd);
      FateRun(events, i, j - 1, fd);
      RunInv(events[..j - 1]);
      NotSeen(events, i, j - 1, fd);
      assert events[..j] == events[..j - 1] + [e];
      HeardSnoc(events[..j - 1], e, id);
      OtherDescriptor(s, e, fd);
      hide Inv;
    }
  }

  lemma {:induction false} NotSeen(events: seq<Event>, i: nat, k: nat, fd: int)
    requires i <= k <= |events| && OpenThroughout(events, i, k, fd) && fd !in Run(events[..i]).readSet
    ensures forall m: nat | i <= m <= k :: fd !in Run(events[..m]).readSet
  {
    hide Run;
    forall m: nat | i <= m <= k ensures fd !in Run(events[..m]).readSet {
      OpenPrefix(events, i, m, k, fd);
      WatchedForLife(events, i, m, fd);
    }
  }

  lemma {:induction false} OpenPrefix(events: seq<Event>, i: nat, m: nat, k: nat, fd: int)
    requires i <= m <= k <= |events| && OpenThroughout(events, i, k, fd)
    ensures OpenThroughout(events, i, m, fd)
    decreases k
  {
    hide Run;
    if m < k {
      OpenPrefix(events, i, m, k - 1, fd);
    }
  }

  lemma OtherDescriptor(s: Srv, e: Event, fd: int)
    requires Inv(s) && fd in s.socks && !(e.Readable? && e.fd == fd)
    ensures ChunkFor(s, e, s.socks[fd].id) == []
  {
    hide MapsAgree, SetsAgree, LogAgrees;
  }

  /**
   The exception: a read notice is still waiting in a snapshot for fd, fd is closed, and a batch of two
   is accepted in which another descriptor takes the only room and fd comes second.  The new connection
   is not in the read set, and the old notice reads it.
   */
  lemma StaleSnapshotReads(events: seq<Event>, listener: int, fd: int, other: int, chunk: seq<byte>)
    requires var s := Run(events);
             && listener in s.socks && s.socks[listener].state == Listening
             && fd in s.conns && fd in s.readSet && |s.readSet| == FD_SETSIZE && other !in s.open
    ensures var again := events + [Exceptional(fd), Readable(listener, [other, fd], true, [])];
            && fd in Run(again).conns && fd !in Run(again).readSet
            && Heard(again + [Readable(fd, [], true, chunk)], Run(again).conns[fd].base) == [chunk]
  {
    var s := Run(events);
    var close, accept := Exceptional(fd), Readable(listener, [other, fd], true, []);
    var read := Readable(fd, [], true, chunk);
    var again := events + [close, accept];
    RunInv(events);
    assert again == events + [close] + [accept];
    RunSnoc(events, close);
    RunSnoc(events + [close], accept);
    RunInv(events + [close]);
    RunInv(again);
    TakesTheRoom(s, listener, fd, other);
    Isolation(events + [close], Run(again).conns[fd].base);
    HeardSnoc(events + [close], accept, Run(again).conns[fd].base);
    HeardSnoc(again, read, Run(again).conns[fd].base);
    hide Run, Heard, Step, Inv, ReadCalls;
  }

  /** Such a run: with a listener and 64 connections, descriptor 7 is closed and accepted again. */
  lemma StaleSnapshotRun(chunk: seq<byte>)
    ensures var again := FULL + [Exceptional(7), Readable(0, [FD_SETSIZE + 1, 7], true, [])];
            && 7 in Run(FULL).readSet
            && 7 in Run(again).conns && 7 !in Run(again).readSet
            && Heard(again + [Readable(7, [], true, chunk)], Run(again).conns[7].base) == [chunk]
  {
    hide FULL, Run, Heard, AcceptAll, UpTo, Register, Step;
    FullRun();
    FillUp(FD_SETSIZE);
    StaleSnapshotReads(FULL, 0, 7, FD_SETSIZE + 1, chunk);
  }

  lemma CloseFrees(s: Srv, fd: int)
    requires Inv(s) && fd in s.socks && fd in s.readSet
    ensures var s1 := CloseSock(s, fd);
            && Inv(s1) && |s1.readSet| == |s.readSet| - 1 && s1.nextId == s.nextId
            && s1.socks == s.socks - {fd} && s1.open == s.open - {fd}
  {
    CloseSockInv(s, fd);
    ClrLength(s.readSet, fd);
    hide FdClr, Inv;
  }

  /** Accepting fd: where it ends up, and what it does to the size of the read set. */
  lemma AcceptEffect(s: Srv, fd: int)
    requires Inv(s) && fd !in s.open
    ensures var s' := AcceptOne(s, fd);
            && Inv(s') && s'.open == s.open + {fd}
            && s'.socks == s.socks[fd := Sock(s.nextId, Connected)]
            && fd in s'.conns && s'.conns[fd].base == s.nextId && s'.nextId == s.nextId + 1
            && |s'.readSet| == Min(|s.readSet| + 1, FD_SETSIZE)
            && (fd in s'.readSet <==> |s.readSet| < FD_SETSIZE)
  {
    RegisterInv(s, fd);
    AcceptRoom(s, fd);
    assert fd !in s.socks && fd !in s.conns && fd !in Members(s.readSet);
    hide Inv, Members;
  }

  lemma TakesTheRoom(s: Srv, listener: int, fd: int, other: int)
    requires Inv(s) && listener in s.socks && s.socks[listener].state == Listening
    requires fd in s.conns && fd in s.readSet && |s.readSet| == FD_SETSIZE && other !in s.open
    ensures var s1 := Step(s, Exceptional(fd));
            var s2 := Step(s1, Readable(listener, [other, fd], true, []));
            && fd in s2.conns && fd in s2.socks && fd !in s2.readSet && s1.nextId <= s2.conns[fd].base
            && s2.socks[fd] == Sock(s2.conns[fd].base, Connected)
            && listener in s1.socks && s1.socks[listener].state == Listening
  {
    var s1 := CloseSock(s, fd);
    var s2 := AcceptOne(s1, other);
    assert fd in s.socks && s.socks[fd].state == Connected && s.socks.Keys == s.open;
    TwoSteps(s, listener, fd, other);
    CloseFrees(s, fd);
    AcceptEffect(s1, other);
    AcceptEffect(s2, fd);
    hide Inv, CloseSock, AcceptOne, AcceptAll, Step;
  }

  lemma TwoSteps(s: Srv, listener: int, fd: int, other: int)
    requires listener in s.socks && s.socks[listener].state == Listening && fd in s.socks && fd != listener
    ensures var s1 := Step(s, Exceptional(fd));
            && s1 == CloseSock(s, fd)
            && Step(s1, Readable(listener, [other, fd], true, [])) == AcceptOne(AcceptOne(s1, other), fd)
  {
    var s1 := CloseSock(s, fd);
    assert listener in s1.socks && s1.socks[listener] == s.socks[listener];
    AcceptTwo(s1, other, fd);
    hide CloseSock, AcceptOne, AcceptAll;
  }

  lemma AcceptTwo(s: Srv, f: int, g: int)
    ensures AcceptAll(s, [f, g]) == AcceptOne(AcceptOne(s, f), g)
  {
    hide AcceptOne;
    assert [f, g][..1] == [f] && [f][..0] == [];
    assert AcceptAll(s, [f]) == AcceptOne(AcceptAll(s, []), f);
  }

  // ---- what a close takes with it ----

  /**
   For every run, every connection and every event that closes it: the connection never delivers again,
   and everything complete that it received has been delivered if and only if, counted back from its
   last read call, frames completed no faster than one for each call.
   */
  lemma CloseLosesNothingIff(events: seq<Event>, fd: int, e: Event, more: seq<Event>)
    requires fd in Run(events).conns && fd !in Run(events + [e]).socks
    ensures var id := Run(events).conns[fd].base;
            var calls, got := Heard(events, id), DeliveriesOf(Run(events + [e] + more).log, id);
            && got == DeliveriesOf(Run(events).log, id)
            && ((forall limit: nat :: Frames(limit, Flatten(calls)) <= got) <==>
                forall i: nat | i <= |calls| ::
                  |Frames(|calls| + 1, Flatten(calls))| <= Allowance(calls, i))
  {
    var id := Run(events).conns[fd].base;
    RunInv(events);
    CloseIsDeaf(events, fd, e);
    GoneHearsNothing(events + [e], more, id);
    Isolation(events, id);
    Isolation(events + [e] + more, id);
    NothingLostIff(Heard(events, id));
    BacklogEmptyIff(Heard(events, id));
  }

  /** The event that closes a connection is not a read call on it, and its socket object is deleted. */
  lemma CloseIsDeaf(events: seq<Event>, fd: int, e: Event)
    requires fd in Run(events).conns && fd !in Run(events + [e]).socks
    ensures var id := Run(events).conns[fd].base;
            && id !in Run(events + [e]).alive && id < Run(events + [e]).nextId
            && Heard(events + [e], id) == Heard(events, id)
  {
    var s := Run(events);
    RunInv(events);
    RunSnoc(events, e);
    StepSameOrGone(s, e);
    assert (events + [e])[..|events|] == events;
    hide ReadCall, AcceptAll, SetsAgree, LogAgrees, FdAdd, FdClr, Run;
    assert ChunkFor(s, e, s.conns[fd].base) == [];
  }

  /**
   Frames still in the buffer when the peer closes are lost: with two frames in its only read call, a
   connection delivers one and takes the other with it.
   */
  lemma CloseLosesBacklog(events: seq<Event>, fd: int, m: Msg)
    requires ValidMsg(m)
    requires var s := Run(events); fd in s.conns && s.conns[fd].buf == []
    ensures var s := Run(events);
            var read := events + [Readable(fd, [], true, Encode(m) + Encode(m))];
            var closed := read + [Readable(fd, [], false, [])];
            && Run(read).log == s.log + [Entry(s.conns[fd].base, Delivered(m))]
            && Run(closed).log == Run(read).log
            && fd !in Run(closed).conns
  {
    var s := Run(events);
    var chunk := Encode(m) + Encode(m);
    var e := Readable(fd, [], true, chunk);
    RunInv(events);
    RunSnoc(events, e);
    RunSnoc(events + [e], Readable(fd, [], false, []));
    assert s.conns[fd].buf + chunk == chunk;
    ParseEncoded(m, Encode(m));
    hide ParseOne, Encode, FdClr, SetsAgree, LogAgrees, Run;
    assert Run(events + [e]) == ReadConn(s, fd, chunk);
  }
}
