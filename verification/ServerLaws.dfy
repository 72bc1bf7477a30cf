/** What holds over whole runs of the server: handler targets, stale notices, isolation, counting. */
module ServerLaws {
  import opened Bytes
  import opened Framing
  import opened FdSets
  import opened ServerModel

  lemma RunAt(events: seq<Event>, k: nat)
    requires k < |events|
    ensures Run(events[..k + 1]) == Step(Run(events[..k]), events[k])
  {
    assert events[..k + 1][..k] == events[..k];
  }

  // ---- handlers and the objects they run on ----

  /** The socket object a handler call is made on, if the descriptor is found in the socket map. */
  function Target(s: Srv, e: Event): Option<nat> {
    if !e.Listen? && e.fd in s.socks then Some(s.socks[e.fd].id) else None
  }

  /**
   However stale the notice: a handler runs only on a socket object that has not been deleted, a read
   on anything but a listener finds a connection, and that connection points at the same object.
   */
  lemma HandlersReachLiveObjects(events: seq<Event>, e: Event)
    ensures var s := Run(events);
            && (Target(s, e).Some? ==> Target(s, e).value in s.alive)
            && (Target(s, e).Some? && s.socks[e.fd].state != Listening ==>
                  e.fd in s.conns && s.conns[e.fd].base == Target(s, e).value)
            && (forall fd | fd in s.conns :: s.conns[fd].base in s.alive)
  {
    RunInv(events);
  }

  // ---- what the other notices do ----

  lemma OnlyCleared(s: seq<int>, fd: int)
    requires IsFdSet(s)
    ensures fd !in FdClr(s, fd) && forall f | f != fd :: f in FdClr(s, fd) <==> f in s
  {
    forall f ensures f in FdClr(s, fd) <==> f in s && f != fd {
      ClrIn(s, fd, f);
    }
  }

  /** A write notice takes its descriptor out of the write set and changes nothing else. */
  lemma WriteNotice(events: seq<Event>, fd: int)
    ensures var s, s' := Run(events), Run(events + [Writable(fd)]);
            && fd !in s'.writeSet && (forall f | f != fd :: f in s'.writeSet <==> f in s.writeSet)
            && s' == s.(writeSet := s'.writeSet)
  {
    RunInv(events);
    RunSnoc(events, Writable(fd));
    var s := Run(events);
    hide Run;
    OnlyCleared(s.writeSet, fd);
    assert fd in s.writeSet ==> fd in Members(s.writeSet);
    hide FdClr, IsFdSet;
  }

  /** A send that would block on a connected socket puts it into the write set, if there is room, and only that. */
  lemma WouldBlockAsks(events: seq<Event>, fd: int)
    requires fd in Run(events).conns
    ensures var s, s' := Run(events), Run(events + [SendBlocked(fd)]);
            && (fd in s'.writeSet <==> fd in s.writeSet || |s.writeSet| < 64)
            && (forall f | f != fd :: f in s'.writeSet <==> f in s.writeSet)
            && s' == s.(writeSet := s'.writeSet)
  {
    RunInv(events);
    RunSnoc(events, SendBlocked(fd));
    hide Run, ObjectsAgree, SetsAgree, LogAgrees;
  }

  /**
   An exception notice for any mapped socket, and a read notice without bytes for one that does not listen,
   take the descriptor out of both maps and all three sets, delete the object, and change nothing else.
   */
  lemma CloseNotice(events: seq<Event>, fd: int, e: Event)
    requires fd in Run(events).socks
    requires e == Exceptional(fd) || (e.Readable? && e.fd == fd && !e.avail && fd in Run(events).conns)
    ensures var s, s' := Run(events), Run(events + [e]);
            && s'.socks == s.socks - {fd} && s'.conns == s.conns - {fd} && s'.open == s.open - {fd}
            && s'.alive == s.alive - {s.socks[fd].id}
            && fd !in s'.readSet && fd !in s'.writeSet && fd !in s'.excepSet
            && (forall f | f != fd :: (f in s'.readSet <==> f in s.readSet) &&
                                      (f in s'.writeSet <==> f in s.writeSet) &&
                                      (f in s'.excepSet <==> f in s.excepSet))
            && s'.count == s.count && s'.log == s.log && s'.nextId == s.nextId
  {
    var s := Run(events);
    RunInv(events);
    RunSnoc(events, e);
    hide Run;
    OnlyCleared(s.readSet, fd);
    OnlyCleared(s.writeSet, fd);
    OnlyCleared(s.excepSet, fd);
    hide FdClr, IsFdSet, ObjectsAgree, LogAgrees;
  }

  // ---- whether a stale notice reaches the socket it was raised for ----

  ghost predicate SameOrGone(s: Srv, s': Srv) {
    && s.nextId <= s'.nextId
    && (forall id | id in s'.alive :: id in s.alive || s.nextId <= id)
    && (forall fd | fd in s.socks && fd in s'.socks :: s.socks[fd].id == s'.socks[fd].id)
    && (forall fd | fd in s.socks && fd !in s'.socks :: s.socks[fd].id !in s'.alive)
  }

  lemma {:induction false} AcceptKeeps(s: Srv, fds: seq<int>)
    requires Inv(s)
    ensures SameOrGone(s, AcceptAll(s, fds)) && s.socks.Keys <= AcceptAll(s, fds).socks.Keys
  {
    if fds != [] {
      AcceptKeeps(s, fds[..|fds| - 1]);
      AcceptAllInv(s, fds[..|fds| - 1]);
    }
  }

  lemma StepSameOrGone(s: Srv, e: Event)
    requires Inv(s)
    ensures SameOrGone(s, Step(s, e))
  {
    hide AcceptAll, ReadCall, SetsAgree, LogAgrees, FdAdd, FdClr;
    match e
    case Readable(fd, accepted, avail, chunk) => AcceptKeeps(s, accepted);
    case _ =>
  }

  /** fd is open after i steps and after every later one up to j. */
  ghost predicate OpenThroughout(events: seq<Event>, i: nat, j: nat, fd: int)
    requires i <= j <= |events|
    decreases j
  {
    fd in Run(events[..j]).socks && (i < j ==> OpenThroughout(events, i, j - 1, fd))
  }

  /** One socket object: still mapped under its descriptor, or deleted for good. */
  ghost predicate Fate(s: Srv, fd: int, id: nat, mapped: bool) {
    if mapped then fd in s.socks && s.socks[fd].id == id
    else id !in s.alive && id < s.nextId
  }

  lemma FateStep(s: Srv, s': Srv, fd: int, id: nat, mapped: bool)
    requires Inv(s) && SameOrGone(s, s') && Fate(s, fd, id, mapped)
    ensures Fate(s', fd, id, mapped && fd in s'.socks)
  {
    hide MapsAgree, SetsAgree, LogAgrees;
  }

  lemma {:induction false} FateRun(events: seq<Event>, i: nat, j: nat, fd: int)
    requires i <= j <= |events| && fd in Run(events[..i]).socks
    ensures Fate(Run(events[..j]), fd, Run(events[..i]).socks[fd].id, OpenThroughout(events, i, j, fd))
    decreases j
  {
    hide Step, Run, Inv, SameOrGone;
    if i < j {
      hide Fate;
      FateRun(events, i, j - 1, fd);
      RunInv(events[..j - 1]);
      RunAt(events, j - 1);
      StepSameOrGone(Run(events[..j - 1]), events[j - 1]);
      FateStep(Run(events[..j - 1]), Run(events[..j]), fd, Run(events[..i]).socks[fd].id,
               OpenThroughout(events, i, j - 1, fd));
    }
  }

  /**
   A notice raised for fd after i steps and handled after j reaches the socket it was raised for if
   and only if fd was open at every step in between.
   */
  lemma SameSocketIff(events: seq<Event>, i: nat, j: nat, fd: int, e: Event)
    requires i <= j <= |events| && fd in Run(events[..i]).socks
    requires !e.Listen? && e.fd == fd
    ensures Target(Run(events[..j]), e) == Some(Run(events[..i]).socks[fd].id) <==>
            forall m | i <= m <= j :: fd in Run(events[..m]).socks
  {
    FateRun(events, i, j, fd);
    RunInv(events[..j]);
    OpenIff(events, i, j, fd);
    hide OpenThroughout;
  }

  lemma {:induction false} OpenIff(events: seq<Event>, i: nat, j: nat, fd: int)
    requires i <= j <= |events|
    ensures OpenThroughout(events, i, j, fd) <==> forall m | i <= m <= j :: fd in Run(events[..m]).socks
    decreases j
  {
    hide Run;
    if i < j {
      OpenIff(events, i, j - 1, fd);
    }
  }

  /**
   Otherwise it can reach a stranger: in every reachable state with a listener, an exception notice for
   a connection that has gone closes the next connection accepted under the same descriptor.
   */
  lemma StaleExceptionClosesStranger(events: seq<Event>, listener: int, fd: int)
    requires var s := Run(events);
             listener in s.socks && s.socks[listener].state == Listening && fd in s.conns
    ensures var gone := events + [Readable(fd, [], false, [])];
            var again := gone + [Readable(listener, [fd], true, [])];
            && fd !in Run(gone).socks
            && fd in Run(again).conns && fd in Run(again).socks
            && Run(again).socks[fd].id !in Run(events).alive
            && fd !in Run(again + [Exceptional(fd)]).socks
  {
    var s := Run(events);
    var gone := events + [Readable(fd, [], false, [])];
    var again := gone + [Readable(listener, [fd], true, [])];
    RunInv(events);
    RunSnoc(events, Readable(fd, [], false, []));
    RunSnoc(gone, Readable(listener, [fd], true, []));
    RunSnoc(again, Exceptional(fd));
    hide Run, FdAdd, FdClr, SetsAgree, LogAgrees;
    var s1 := Run(gone);
    assert s1 == CloseSock(s, fd) && listener in s1.socks;
    assert [fd][..0] == [] && AcceptAll(s1, []) == s1;
    assert Run(again) == AcceptOne(s1, fd);
  }

  lemma RunSnoc(events: seq<Event>, e: Event)
    ensures Run(events + [e]) == Step(Run(events), e)
  {
    assert (events + [e])[..|events|] == events;
  }

  // ---- one connection does not see the others ----

  function ChunkFor(s: Srv, e: Event, id: nat): seq<seq<byte>> {
    if e.Readable? && Target(s, e) == Some(id) && s.socks[e.fd].state != Listening && e.avail then [e.chunk] else []
  }

  /** The bytes of the read calls made on socket object id, call by call. */
  function Heard(events: seq<Event>, id: nat): seq<seq<byte>> {
    if events == [] then [] else
    var pre := events[..|events| - 1];
    Heard(pre, id) + ChunkFor(Run(pre), events[|events| - 1], id)
  }

  function DeliveriesOf(log: seq<Entry>, id: nat): seq<Delivery> {
    if log == [] then [] else
    var last := log[|log| - 1];
    DeliveriesOf(log[..|log| - 1], id) + if last.conn == id then [last.d] else []
  }

  ghost predicate Isolated(s: Srv, heard: seq<seq<byte>>, id: nat) {
    && DeliveriesOf(s.log, id) == ReadCalls(heard).got
    && (forall fd | fd in s.conns && s.conns[fd].base == id :: s.conns[fd].buf == ReadCalls(heard).buf)
    && (s.nextId <= id ==> heard == [])
  }

  lemma ReadCallGot(c: ConnState, chunk: seq<byte>)
    ensures var r := ReadCall(ConnState(c.buf, []), chunk);
            ReadCall(c, chunk) == ConnState(r.buf, c.got + r.got) && |r.got| <= 1
  {
    assert c.got + [] == c.got;
  }

  lemma DeliveredNext(log: seq<Entry>, conn: nat, d: Delivery, id: nat)
    ensures DeliveriesOf(log + [Entry(conn, d)], id) == DeliveriesOf(log, id) + if conn == id then [d] else []
  {
    assert (log + [Entry(conn, d)])[..|log|] == log;
  }

  lemma HeardNext(heard: seq<seq<byte>>, chunk: seq<byte>)
    ensures var c := ReadCalls(heard);
            var r := ReadCall(ConnState(c.buf, []), chunk);
            ReadCalls(heard + [chunk]) == ConnState(r.buf, c.got + r.got) && |r.got| <= 1
  {
    assert (heard + [chunk])[..|heard|] == heard;
    ReadCallGot(ReadCalls(heard), chunk);
    hide ReadCall;
  }

  lemma ReadLogged(s: Srv, fd: int, chunk: seq<byte>, r: ConnState, id: nat)
    requires fd in s.conns && r == ReadCall(ConnState(s.conns[fd].buf, []), chunk) && |r.got| <= 1
    ensures DeliveriesOf(ReadConn(s, fd, chunk).log, id)
         == DeliveriesOf(s.log, id) + if s.conns[fd].base == id then r.got else []
  {
    hide ReadCall, NextCount;
    if r.got == [] {
      hide DeliveriesOf;
    } else {
      assert r.got == [r.got[0]];
      DeliveredNext(s.log, s.conns[fd].base, r.got[0], id);
      hide DeliveriesOf;
    }
  }

  lemma ReadIsolated(s: Srv, fd: int, chunk: seq<byte>, heard: seq<seq<byte>>, id: nat)
    requires Inv(s) && fd in s.conns && Isolated(s, heard, id)
    ensures Isolated(ReadConn(s, fd, chunk), if s.conns[fd].base == id then heard + [chunk] else heard, id)
  {
    var c := s.conns[fd];
    var r := ReadCall(ConnState(c.buf, []), chunk);
    assert fd in s.socks && c.base == s.socks[fd].id && c.base < s.nextId;
    BasesDistinct(s);
    HeardNext(heard, chunk);
    ReadCallGot(ConnState(c.buf, []), chunk);
    ReadLogged(s, fd, chunk, r, id);
    ReadConnFields(s, fd, chunk, r);
    hide ReadConn, ReadCall, ReadCalls, DeliveriesOf, Inv;
  }

  lemma BasesDistinct(s: Srv)
    requires Inv(s)
    ensures forall f, g | f in s.conns && g in s.conns && f != g :: s.conns[f].base != s.conns[g].base
  {
    hide SetsAgree, LogAgrees;
  }

  /** A new connection has heard nothing, and its buffer is empty. */
  lemma AcceptOneIsolated(s: Srv, fd: int, heard: seq<seq<byte>>, id: nat)
    requires Isolated(s, heard, id) && (fd !in s.open ==> fd !in s.socks && fd !in s.conns)
    ensures Isolated(AcceptOne(s, fd), heard, id)
  {
    if fd !in s.open {
      AcceptFields(s, fd);
      hide AcceptOne, FdAdd, DeliveriesOf;
      if id == s.nextId {
        assert heard == [] && ReadCalls(heard) == FRESH_CONN;
      }
      hide ReadCalls;
    }
  }

  lemma {:induction false} AcceptIsolated(s: Srv, fds: seq<int>, heard: seq<seq<byte>>, id: nat)
    requires Inv(s) && Isolated(s, heard, id)
    ensures Isolated(AcceptAll(s, fds), heard, id)
  {
    if fds != [] {
      var s1, fd := AcceptAll(s, fds[..|fds| - 1]), fds[|fds| - 1];
      AcceptIsolated(s, fds[..|fds| - 1], heard, id);
      AcceptAllInv(s, fds[..|fds| - 1]);
      assert fd !in s1.open ==> fd !in s1.socks && fd !in s1.conns;
      hide Isolated, Inv, AcceptOne;
      AcceptOneIsolated(s1, fd, heard, id);
    }
  }

  lemma NothingHeard(heard: seq<seq<byte>>)
    ensures heard + [] == heard
  {
  }

  /** Nothing a connection's isolation speaks of changes, and no connection appears under id. */
  lemma IsolatedFrame(s: Srv, s': Srv, heard: seq<seq<byte>>, id: nat)
    requires Isolated(s, heard, id) && s'.log == s.log && s.nextId <= s'.nextId
    requires forall fd | fd in s'.conns && s'.conns[fd].base == id :: fd in s.conns && s'.conns[fd] == s.conns[fd]
    ensures Isolated(s', heard, id)
  {
    hide DeliveriesOf, ReadCalls;
  }

  lemma CloseIsolated(s: Srv, fd: int, heard: seq<seq<byte>>, id: nat)
    requires fd in s.socks && Isolated(s, heard, id)
    ensures Isolated(CloseSock(s, fd), heard, id)
  {
    hide FdClr, Isolated;
    IsolatedFrame(s, CloseSock(s, fd), heard, id);
  }

  lemma ReadableIsolated(s: Srv, e: Event, heard: seq<seq<byte>>, id: nat)
    requires e.Readable? && Inv(s) && Isolated(s, heard, id)
    ensures Isolated(Step(s, e), heard + ChunkFor(s, e, id), id)
  {
    NothingHeard(heard);
    AcceptIsolated(s, e.accepted, heard, id);
    if e.fd in s.socks {
      CloseIsolated(s, e.fd, heard, id);
    }
    if e.fd in s.conns {
      ReadIsolated(s, e.fd, e.chunk, heard, id);
    }
    hide ReadConn, AcceptAll, CloseSock, Isolated, ObjectsAgree, SetsAgree, LogAgrees;
  }

  lemma ListenIsolated(s: Srv, fd: int, heard: seq<seq<byte>>, id: nat)
    requires Isolated(s, heard, id)
    ensures Isolated(Step(s, Listen(fd)), heard, id)
  {
    hide FdAdd, Insert, Isolated;
    IsolatedFrame(s, Step(s, Listen(fd)), heard, id);
  }

  lemma StepIsolated(s: Srv, e: Event, heard: seq<seq<byte>>, id: nat)
    requires Inv(s) && Isolated(s, heard, id)
    ensures Isolated(Step(s, e), heard + ChunkFor(s, e, id), id)
  {
    NothingHeard(heard);
    hide FdAdd, FdClr, CloseSock, Isolated, Inv, ReadConn, AcceptAll, Register;
    match e
    case Readable(fd, accepted, avail, chunk) => ReadableIsolated(s, e, heard, id);
    case Listen(fd) => ListenIsolated(s, fd, heard, id);
    case Exceptional(fd) => if fd in s.socks { CloseIsolated(s, fd, heard, id); }
    case _ => IsolatedFrame(s, Step(s, e), heard, id);
  }

  /**
   Over every interleaving of all handlers on all connections: what a connection has delivered and
   what its buffer holds are those of its own read calls run alone.
   */
  lemma {:induction false} Isolation(events: seq<Event>, id: nat)
    ensures Isolated(Run(events), Heard(events, id), id)
  {
    if events != [] {
      var pre := events[..|events| - 1];
      Isolation(pre, id);
      RunInv(pre);
      StepIsolated(Run(pre), events[|events| - 1], Heard(pre, id), id);
    }
  }

  /** Two runs that give a connection the same bytes call by call agree on its deliveries. */
  lemma SameCallsSameDeliveries(es: seq<Event>, id: nat, es': seq<Event>, id': nat)
    requires Heard(es, id) == Heard(es', id')
    ensures DeliveriesOf(Run(es).log, id) == DeliveriesOf(Run(es').log, id')
  {
    Isolation(es, id);
    Isolation(es', id');
  }

  /** The exact delivery law for each connection of the server, whatever the others do. */
  lemma ConnectionDeliveryLaw(events: seq<Event>, id: nat)
    ensures var d, calls := |DeliveriesOf(Run(events).log, id)|, Heard(events, id);
            && (forall i: nat | i <= |calls| :: d <= |Frames(i, Flatten(calls[..i]))| + |calls| - i)
            && (exists i: nat | i <= |calls| :: d == |Frames(i, Flatten(calls[..i]))| + |calls| - i)
  {
    hide Run, Heard, DeliveriesOf, ReadCalls, Frames, Flatten;
    Isolation(events, id);
    DeliveryLaw(Heard(events, id));
    assert DeliveriesOf(Run(events).log, id) == ReadCalls(Heard(events, id)).got;
  }

  /**
   For each connection: the bytes delivered and the bytes still buffered are the bytes heard, and if
   the peer sends nothing but encoded messages, the deliveries are the first of them.
   */
  lemma ConnectionStream(events: seq<Event>, fd: int, msgs: seq<Msg>)
    requires fd in Run(events).conns && AllValid(msgs)
    ensures var s, c := Run(events), Run(events).conns[fd];
            && Raw(DeliveriesOf(s.log, c.base)) + c.buf == Flatten(Heard(events, c.base))
            && (Flatten(Heard(events, c.base)) <= EncodeAll(msgs) ==>
                  DeliversPrefix(DeliveriesOf(s.log, c.base), msgs))
  {
    var c := Run(events).conns[fd];
    var calls := Heard(events, c.base);
    Isolation(events, c.base);
    IncrementalIsOneShot(calls, 0);
    ReadCallsConsume(calls);
    hide ParseOne, Encode, EncodeAll, ReadCalls, Consumes, Raw, DeliversPrefix, Run, Heard, Flatten;
    if Flatten(calls) <= EncodeAll(msgs) {
      PrefixDelivered(Flatten(calls), ReadCalls(calls).got, ReadCalls(calls).buf, msgs);
    }
  }

  // ---- the counter ----

  /** Frames delivered by the read calls of each of the first n socket objects, run alone. */
  function DeliveredBy(events: seq<Event>, n: nat): nat {
    if n == 0 then 0 else DeliveredBy(events, n - 1) + |ReadCalls(Heard(events, n - 1)).got|
  }

  function Logged(log: seq<Entry>, n: nat): nat {
    if n == 0 then 0 else Logged(log, n - 1) + |DeliveriesOf(log, n - 1)|
  }

  lemma {:induction false} LoggedSnoc(log: seq<Entry>, e: Entry, n: nat)
    ensures Logged(log + [e], n) == Logged(log, n) + if e.conn < n then 1 else 0
  {
    if n != 0 {
      LoggedSnoc(log, e, n - 1);
      assert (log + [e])[..|log|] == log;
    }
  }

  lemma {:induction false} LoggedEmpty(n: nat)
    ensures Logged([], n) == 0
  {
    if n != 0 { LoggedEmpty(n - 1); }
  }

  /** Every entry of the log belongs to exactly one socket object. */
  lemma {:induction false} LogSplits(log: seq<Entry>, n: nat)
    requires forall e | e in log :: e.conn < n
    ensures Logged(log, n) == |log|
  {
    if log == [] {
      LoggedEmpty(n);
    } else {
      var pre, e := log[..|log| - 1], log[|log| - 1];
      assert log == pre + [e];
      LogSplits(pre, n);
      LoggedSnoc(pre, e, n);
    }
  }

  lemma {:induction false} LoggedIsDelivered(events: seq<Event>, n: nat)
    ensures Logged(Run(events).log, n) == DeliveredBy(events, n)
  {
    hide Run, Heard, ReadCalls, DeliveriesOf;
    if n != 0 {
      LoggedIsDelivered(events, n - 1);
      Isolation(events, n - 1);
    }
  }

  /**
   m_nCount is, in 32 bits, what the connections there have ever been, open or closed, would have
   delivered each on its own.
   */
  lemma CountIsDeliveries(events: seq<Event>)
    ensures var s := Run(events);
            && |s.log| == DeliveredBy(events, s.nextId)
            && s.count == Wrapped(|s.log|)
            && (|s.log| < 0x8000_0000 ==> s.count == |s.log|)
            && (0x8000_0000 <= |s.log| < 0x1_0000_0000 ==> s.count == |s.log| - 0x1_0000_0000)
  {
    RunInv(events);
    hide Run, Heard, ReadCalls, DeliveriesOf, MapsAgree, ObjectsAgree, SetsAgree;
    var s := Run(events);
    LogSplits(s.log, s.nextId);
    LoggedIsDelivered(events, s.nextId);
  }

  // ---- a socket object that is gone hears nothing more ----

  lemma HeardSnoc(events: seq<Event>, e: Event, id: nat)
    ensures Heard(events + [e], id) == Heard(events, id) + ChunkFor(Run(events), e, id)
  {
    assert (events + [e])[..|events|] == events;
    hide Run, ChunkFor;
  }

  lemma GoneStep(s: Srv, e: Event, id: nat)
    requires Inv(s) && id !in s.alive && id < s.nextId
    ensures id !in Step(s, e).alive && id < Step(s, e).nextId
    ensures ChunkFor(s, e, id) == []
  {
    StepSameOrGone(s, e);
    hide Step, MapsAgree, SetsAgree, LogAgrees;
  }

  lemma {:induction false} GoneHearsNothing(events: seq<Event>, more: seq<Event>, id: nat)
    requires id !in Run(events).alive && id < Run(events).nextId
    ensures id !in Run(events + more).alive && id < Run(events + more).nextId
    ensures Heard(events + more, id) == Heard(events, id)
    decreases more
  {
    hide Step, Run, Heard, ChunkFor, Inv;
    if more == [] {
      assert events + more == events;
    } else {
      var pre, e := more[..|more| - 1], more[|more| - 1];
      assert events + more == events + pre + [e];
      GoneHearsNothing(events, pre, id);
      RunInv(events + pre);
      RunSnoc(events + pre, e);
      HeardSnoc(events + pre, e, id);
      GoneStep(Run(events + pre), e, id);
    }
  }

}
