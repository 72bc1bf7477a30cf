/**
 CWgdServer as a machine over handler calls.  Every handler is one atomic step, and a step may name
 any descriptor at any time: a notice may have waited in a select snapshot or in a worker's queue for
 any number of other steps.  The operating system hands out only descriptors that are not open.
 */
module ServerModel {
  import opened Bytes
  import opened Framing
  import opened FdSets

  datatype SockState = Idle | Listening | Connecting | Connected | Closing

  /** id stands for the address of the CBaseSocket object; ids are never reused. */
  datatype Sock = Sock(id: nat, state: SockState)

  /** base is the id of the socket object m_pBaseSocket points to. */
  datatype Conn = Conn(base: nat, buf: seq<byte>)

  datatype Entry = Entry(conn: nat, d: Delivery)

  /** alive: socket objects created and not deleted; log: every delivery, with its connection's socket. */
  datatype Srv = Srv(
    socks: map<int, Sock>, conns: map<int, Conn>,
    readSet: seq<int>, writeSet: seq<int>, excepSet: seq<int>,
    count: int32,
    open: set<int>, alive: set<nat>, nextId: nat, log: seq<Entry>)

  /**
   Readable carries what the handler is told: the descriptors accept returns if fd is a listener,
   otherwise whether FIONREAD reports data and, if so, the bytes its recv loop collects.
   */
  datatype Event =
    | Listen(fd: int)
    | Readable(fd: int, accepted: seq<int>, avail: bool, chunk: seq<byte>)
    | Writable(fd: int)
    | Exceptional(fd: int)
    | SendBlocked(fd: int)

  const START := Srv(map[], map[], [], [], [], 0, {}, {}, 0, [])

  /** std::map insertion: an existing key keeps its value. */
  function Insert<V>(m: map<int, V>, k: int, v: V): map<int, V> {
    if k in m then m else m[k := v]
  }

  /** A new socket object for fd enters the socket map and the read and exception sets. */
  function Register(s: Srv, fd: int, state: SockState): Srv {
    s.(socks := Insert(s.socks, fd, Sock(s.nextId, state)),
       readSet := FdAdd(s.readSet, fd), excepSet := FdAdd(s.excepSet, fd),
       open := s.open + {fd}, alive := s.alive + {s.nextId}, nextId := s.nextId + 1)
  }

  function AcceptOne(s: Srv, fd: int): Srv {
    if fd in s.open then s else
    var s1 := Register(s, fd, Connected);
    s1.(conns := Insert(s1.conns, fd, Conn(s1.socks[fd].id, [])))
  }

  function AcceptAll(s: Srv, fds: seq<int>): Srv {
    if fds == [] then s else AcceptOne(AcceptAll(s, fds[..|fds| - 1]), fds[|fds| - 1])
  }

  /** CWgdServer::OnClose on a mapped descriptor. */
  function CloseSock(s: Srv, fd: int): Srv
    requires fd in s.socks
  {
    s.(socks := s.socks - {fd}, conns := s.conns - {fd},
       readSet := FdClr(s.readSet, fd), writeSet := FdClr(s.writeSet, fd), excepSet := FdClr(s.excepSet, fd),
       open := s.open - {fd}, alive := s.alive - {s.socks[fd].id})
  }

  function NextCount(n: int32): int32 {
    if n == TWO_31 - 1 then -TWO_31 else n + 1
  }

  function ReadConn(s: Srv, fd: int, chunk: seq<byte>): Srv
    requires fd in s.conns
  {
    var c := s.conns[fd];
    var r := ReadCall(ConnState(c.buf, []), chunk);
    var s1 := s.(conns := s.conns[fd := c.(buf := r.buf)]);
    if r.got == [] then s1
    else s1.(count := NextCount(s.count), log := s.log + [Entry(c.base, r.got[0])])
  }

  lemma ReadConnFields(v: Srv, fd: int, chunk: seq<byte>, r: ConnState)
    requires fd in v.conns && r == ReadCall(ConnState(v.conns[fd].buf, []), chunk)
    ensures ReadConn(v, fd, chunk) ==
            v.(conns := v.conns[fd := Conn(v.conns[fd].base, r.buf)],
               count := if r.got == [] then v.count else NextCount(v.count),
               log := v.log + if r.got == [] then [] else [Entry(v.conns[fd].base, r.got[0])])
  {
    assert v.log + [] == v.log;
  }

  function Step(s: Srv, e: Event): Srv {
    match e
    case Listen(fd) => if fd in s.open then s else Register(s, fd, Listening)
    case Readable(fd, accepted, avail, chunk) =>
      if fd !in s.socks then s
      else if s.socks[fd].state == Listening then AcceptAll(s, accepted)
      else if !avail then CloseSock(s, fd)
      else if fd in s.conns then ReadConn(s, fd, chunk)
      else s // a null pointer in the original; ServerLaws.HandlersReachLiveObjects excludes it
    case Writable(fd) => if fd in s.socks then s.(writeSet := FdClr(s.writeSet, fd)) else s
    case Exceptional(fd) => if fd in s.socks then CloseSock(s, fd) else s
    case SendBlocked(fd) =>
      if fd in s.socks && s.socks[fd].state == Connected then s.(writeSet := FdAdd(s.writeSet, fd)) else s
  }

  function Run(events: seq<Event>): Srv {
    if events == [] then START else Step(Run(events[..|events| - 1]), events[|events| - 1])
  }

  // ---- consistency ----

  ghost predicate MapsAgree(s: Srv) {
    && s.socks.Keys == s.open
    && (forall fd | fd in s.socks :: s.socks[fd].state in {Listening, Connected})
    && (forall fd :: fd in s.conns <==> fd in s.socks && s.socks[fd].state == Connected)
    && (forall fd | fd in s.conns :: s.conns[fd].base == s.socks[fd].id)
  }

  ghost predicate ObjectsAgree(s: Srv) {
    && DistinctIds(s.socks)
    && (forall fd | fd in s.socks :: s.socks[fd].id in s.alive)
    && (forall id | id in s.alive :: id < s.nextId)
    && |s.alive| == |s.socks|
  }

  ghost predicate SetsAgree(s: Srv) {
    && IsFdSet(s.readSet) && IsFdSet(s.writeSet) && IsFdSet(s.excepSet)
    && Members(s.readSet) <= s.socks.Keys && Members(s.writeSet) <= s.socks.Keys && Members(s.excepSet) <= s.socks.Keys
  }

  ghost predicate LogAgrees(s: Srv) {
    && s.count == Wrapped(|s.log|)
    && forall e | e in s.log :: e.conn < s.nextId
  }

  function Wrapped(n: nat): int32 {
    ToInt32(n % TWO_32)
  }

  ghost predicate Inv(s: Srv) {
    MapsAgree(s) && ObjectsAgree(s) && SetsAgree(s) && LogAgrees(s)
  }

  lemma RegisterMaps(s: Srv, fd: int)
    requires MapsAgree(s) && fd !in s.open
    ensures MapsAgree(Register(s, fd, Listening)) && MapsAgree(AcceptOne(s, fd))
  {
    hide FdAdd;
    assert Register(s, fd, Listening).socks.Keys == s.socks.Keys + {fd};
    assert AcceptOne(s, fd).socks.Keys == s.socks.Keys + {fd};
  }

  ghost predicate DistinctIds(socks: map<int, Sock>) {
    forall f, g | f in socks && g in socks && f != g :: socks[f].id != socks[g].id
  }

  lemma DistinctAdd(socks: map<int, Sock>, fd: int, k: Sock)
    requires DistinctIds(socks) && forall f | f in socks :: socks[f].id != k.id
    ensures DistinctIds(socks[fd := k])
  {
  }

  lemma RegisterFields(s: Srv, fd: int, state: SockState)
    requires fd !in s.socks
    ensures Register(s, fd, state) ==
            s.(socks := s.socks[fd := Sock(s.nextId, state)],
               readSet := FdAdd(s.readSet, fd), excepSet := FdAdd(s.excepSet, fd),
               open := s.open + {fd}, alive := s.alive + {s.nextId}, nextId := s.nextId + 1)
  {
    hide FdAdd;
  }

  lemma RegisterObjects(s: Srv, fd: int, state: SockState)
    requires MapsAgree(s) && ObjectsAgree(s) && fd !in s.open
    ensures ObjectsAgree(Register(s, fd, state))
  {
    assert fd !in s.socks && s.nextId !in s.alive;
    RegisterFields(s, fd, state);
    DistinctAdd(s.socks, fd, Sock(s.nextId, state));
    hide MapsAgree, Register, DistinctIds, FdAdd;
    assert |s.alive + {s.nextId}| == |s.alive| + 1;
  }

  lemma RegisterSets(s: Srv, fd: int, state: SockState)
    requires MapsAgree(s) && SetsAgree(s) && fd !in s.open
    ensures SetsAgree(Register(s, fd, state))
  {
    AddMembers(s.readSet, fd);
    AddMembers(s.excepSet, fd);
    hide MapsAgree, IsFdSet, FdAdd, Members;
    assert Register(s, fd, state).socks.Keys == s.socks.Keys + {fd};
  }

  /** Only the connection map and the log tell one state from the other. */
  lemma SameSockets(s: Srv, s': Srv)
    requires s'.socks == s.socks && s'.alive == s.alive && s'.nextId == s.nextId
    requires s'.readSet == s.readSet && s'.writeSet == s.writeSet && s'.excepSet == s.excepSet
    ensures ObjectsAgree(s) ==> ObjectsAgree(s')
    ensures SetsAgree(s) ==> SetsAgree(s')
  {
    hide IsFdSet, Members;
  }

  lemma RegisterLog(s: Srv, fd: int, state: SockState)
    requires LogAgrees(s)
    ensures LogAgrees(Register(s, fd, state)) && LogAgrees(AcceptOne(s, fd))
  {
    hide FdAdd, Wrapped, Insert;
  }

  lemma AcceptIsRegister(s: Srv, fd: int)
    requires fd !in s.open
    ensures AcceptOne(s, fd) == Register(s, fd, Connected).(conns := AcceptOne(s, fd).conns)
  {
    hide FdAdd, Insert;
  }

  lemma AcceptFields(s: Srv, fd: int)
    requires fd !in s.open && fd !in s.socks
    ensures AcceptOne(s, fd) ==
            s.(socks := Insert(s.socks, fd, Sock(s.nextId, Connected)),
               conns := Insert(s.conns, fd, Conn(s.nextId, [])),
               readSet := FdAdd(s.readSet, fd), excepSet := FdAdd(s.excepSet, fd),
               open := s.open + {fd}, alive := s.alive + {s.nextId}, nextId := s.nextId + 1)
  {
    hide FdAdd;
  }

  lemma RegisterInv(s: Srv, fd: int)
    requires Inv(s) && fd !in s.open
    ensures Inv(Register(s, fd, Listening))
    ensures Inv(AcceptOne(s, fd))
  {
    RegisterMaps(s, fd);
    RegisterObjects(s, fd, Listening);
    RegisterObjects(s, fd, Connected);
    RegisterSets(s, fd, Listening);
    RegisterSets(s, fd, Connected);
    RegisterLog(s, fd, Listening);
    AcceptIsRegister(s, fd);
    SameSockets(Register(s, fd, Connected), AcceptOne(s, fd));
    hide MapsAgree, ObjectsAgree, SetsAgree, LogAgrees, Register, AcceptOne;
  }

  lemma {:induction false} AcceptAllInv(s: Srv, fds: seq<int>)
    requires Inv(s)
    ensures Inv(AcceptAll(s, fds))
  {
    if fds != [] {
      AcceptAllInv(s, fds[..|fds| - 1]);
      var s1 := AcceptAll(s, fds[..|fds| - 1]);
      if fds[|fds| - 1] !in s1.open { RegisterInv(s1, fds[|fds| - 1]); }
    }
  }

  lemma CloseMaps(s: Srv, fd: int)
    requires MapsAgree(s) && fd in s.socks
    ensures MapsAgree(CloseSock(s, fd))
  {
    hide FdClr;
    assert CloseSock(s, fd).socks.Keys == s.socks.Keys - {fd};
  }

  lemma CloseObjects(s: Srv, fd: int)
    requires ObjectsAgree(s) && fd in s.socks
    ensures ObjectsAgree(CloseSock(s, fd))
  {
    hide FdClr;
    var s1 := CloseSock(s, fd);
    assert s1.socks.Keys == s.socks.Keys - {fd};
    assert |s1.alive| == |s.alive| - 1 && |s1.socks.Keys| == |s.socks.Keys| - 1;
  }

  lemma CloseSets(s: Srv, fd: int)
    requires SetsAgree(s) && fd in s.socks
    ensures SetsAgree(CloseSock(s, fd))
  {
    ClrMembers(s.readSet, fd);
    ClrMembers(s.writeSet, fd);
    ClrMembers(s.excepSet, fd);
    hide IsFdSet, FdClr, Members;
    assert CloseSock(s, fd).socks.Keys == s.socks.Keys - {fd};
  }

  lemma CloseSockInv(s: Srv, fd: int)
    requires Inv(s) && fd in s.socks
    ensures Inv(CloseSock(s, fd))
  {
    CloseMaps(s, fd);
    CloseObjects(s, fd);
    CloseSets(s, fd);
    hide MapsAgree, ObjectsAgree, SetsAgree, FdClr, Wrapped;
  }

  lemma WriteSetInv(s: Srv, fd: int)
    requires Inv(s) && fd in s.socks
    ensures Inv(s.(writeSet := FdAdd(s.writeSet, fd)))
    ensures Inv(s.(writeSet := FdClr(s.writeSet, fd)))
  {
    AddMembers(s.writeSet, fd);
    ClrMembers(s.writeSet, fd);
    WriteSetOnly(s, FdAdd(s.writeSet, fd));
    WriteSetOnly(s, FdClr(s.writeSet, fd));
    hide Inv, IsFdSet, FdAdd, FdClr;
  }

  lemma WriteSetOnly(s: Srv, set': seq<int>)
    requires Inv(s) && IsFdSet(set') && Members(set') <= s.socks.Keys
    ensures Inv(s.(writeSet := set'))
  {
    hide IsFdSet, Members, Wrapped;
  }

  lemma WrapNext(n: nat)
    ensures NextCount(Wrapped(n)) == Wrapped(n + 1)
  {
  }

  lemma ReadConnInv(s: Srv, fd: int, chunk: seq<byte>)
    requires Inv(s) && fd in s.conns
    ensures Inv(ReadConn(s, fd, chunk))
  {
    WrapNext(|s.log|);
    hide ReadCall, NextCount, Wrapped, SetsAgree;
    assert ReadConn(s, fd, chunk).conns.Keys == s.conns.Keys;
  }

  lemma StepInv(s: Srv, e: Event)
    requires Inv(s)
    ensures Inv(Step(s, e))
  {
    hide Register, CloseSock, ReadConn, AcceptAll, Inv, FdClr, FdAdd;
    match e
    case Listen(fd) => if fd !in s.open { RegisterInv(s, fd); }
    case Readable(fd, accepted, avail, chunk) =>
      if fd in s.socks {
        AcceptAllInv(s, accepted);
        CloseSockInv(s, fd);
        if fd in s.conns { ReadConnInv(s, fd, chunk); }
      }
    case Writable(fd) => if fd in s.socks { WriteSetInv(s, fd); }
    case Exceptional(fd) => if fd in s.socks { CloseSockInv(s, fd); }
    case SendBlocked(fd) => if fd in s.socks { WriteSetInv(s, fd); }
  }

  /**
   At every handler boundary of every run: the socket map's keys are the open descriptors, the
   connection map's keys are those minus the listeners, each connection points at the socket mapped
   under its descriptor, and the interest sets name only mapped descriptors.
   */
  lemma {:induction false} RunInv(events: seq<Event>)
    ensures Inv(Run(events))
  {
    if events != [] {
      RunInv(events[..|events| - 1]);
      StepInv(Run(events[..|events| - 1]), events[|events| - 1]);
    }
  }
}
