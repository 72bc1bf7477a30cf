/**
 CBaseSocket, CWGDConn, CWgdServer and CDispatchTask as objects.  Each handler is proved to be the step
 of ServerModel it implements.
 */
module Server {
  import opened Bytes
  import opened Framing
  import opened Transport
  import opened ByteBuffer
  import opened FdSets
  import opened ServerModel

  datatype Interest = ReadEvent | WriteEvent | ExcepEvent

  const NETLIB_OK: int := 0
  const NETLIB_ERROR: int := -1
  const NETLIB_MAX_SOCKET_BUF_SIZE: int := 128 * 1024

  class WgdConn {
    var base: BaseSocket?
    const inBuf: SimpleBuffer
    const outBuf: SimpleBuffer
    var busy: bool

    ghost function Repr(): set<object>
      reads this, inBuf, outBuf
    {
      {this, inBuf, inBuf.buffer, outBuf, outBuf.buffer}
    }

    ghost predicate Valid()
      reads this, inBuf, outBuf
    {
      && inBuf != outBuf && inBuf.buffer != outBuf.buffer
      && inBuf.Valid() && outBuf.Valid()
    }

    lemma ReprParts()
      ensures this in Repr() && inBuf in Repr() && inBuf.buffer in Repr()
      ensures outBuf in Repr() && outBuf.buffer in Repr()
      ensures Valid() ==> inBuf.Valid() && outBuf.Valid()
    {
    }

    lemma NoSocketInRepr(k: BaseSocket)
      ensures k !in Repr()
    {
    }

    constructor ()
      ensures Valid() && fresh(Repr())
      ensures base == null && !busy && inBuf.Contents() == [] && outBuf.Contents() == []
    {
      inBuf := new SimpleBuffer();
      outBuf := new SimpleBuffer();
      busy := false;
      base := null;
    }

    method OnConnect(baseSocket: BaseSocket?)
      requires Valid()
      modifies this`base
      ensures base == baseSocket && Valid() && Repr() == old(Repr())
    {
      base := baseSocket;
    }

    method ParseBuffer() returns (ret: int)
      requires Valid() && base != null
      modifies inBuf, inBuf.buffer, base.server`count, base.server`log
      ensures Valid() && inBuf.buffer == old(inBuf.buffer) && inBuf.growth == old(inBuf.growth)
      ensures var r := ReadCall(ConnState(old(inBuf.Contents()), []), []);
              && inBuf.Contents() == r.buf
              && ret == (if r.got == [] then -1 else 0)
              && base.server.count ==
                 (if r.got == [] then old(base.server.count) else NextCount(old(base.server.count)))
              && base.server.log == old(base.server.log) + (if r.got == [] then [] else [Entry(base.id, r.got[0])])
    {
      ghost var buf := inBuf.Contents();
      assert buf + [] == buf;
      if inBuf.writeOffset < HEAD_SIZE {
        return -1;
      }
      var b := inBuf.buffer;
      hide Add32, Word, TotalSize;
      var total := Add32(HEAD_SIZE, Word(b[4], b[5], b[6], b[7]));
      TotalOf(buf);
      assert b[4] == buf[4] && b[5] == buf[5] && b[6] == buf[6] && b[7] == buf[7];
      if inBuf.writeOffset < total {
        return -1;
      }
      DealBuffer(total);
      return 0;
    }

    /** total is the 32-bit sum ParseBuffer has just computed; the original computes it again. */
    method DealBuffer(total: uint32)
      requires Valid() && base != null
      requires ParseOne(inBuf.Contents()).Some? && total == |ParseOne(inBuf.Contents()).value.raw|
      modifies inBuf, inBuf.buffer, base.server`count, base.server`log
      ensures Valid() && inBuf.buffer == old(inBuf.buffer) && inBuf.growth == old(inBuf.growth)
      ensures var d := ParseOne(old(inBuf.Contents())).value;
              && inBuf.Contents() == old(inBuf.Contents())[|d.raw|..]
              && base.server.count == NextCount(old(base.server.count))
              && base.server.log == old(base.server.log) + [Entry(base.id, d)]
    {
      hide ParseOne;
      ghost var d := ParseOne(inBuf.Contents()).value;
      ParseSplits(inBuf.Contents());
      base.server.OnStatisticEnd();
      base.server.log := base.server.log + [Entry(base.id, d)];
      var n := inBuf.Read(null, total);
    }

    /** script is what recv answers; the loop ends at the first error other than an interruption. */
    method OnRead(script: seq<RecvResult>)
      requires Valid() && base != null
      requires Bounded(script) && Failed in script
      requires |inBuf.Contents()| + |Drain(script)| + PIECE <= MAX_REQUEST
      modifies inBuf, inBuf.buffer, base.server`count, base.server`log
      ensures Valid() && fresh(Repr() - old(Repr()))
      ensures var r := ReadCall(ConnState(old(inBuf.Contents()), []), Drain(script));
              && inBuf.Contents() == r.buf
              && base.server.count ==
                 (if r.got == [] then old(base.server.count) else NextCount(old(base.server.count)))
              && base.server.log == old(base.server.log) + (if r.got == [] then [] else [Entry(base.id, r.got[0])])
    {
      hide ParseOne, Amortised, AllocFor, Drain;
      ghost var all := inBuf.Contents() + Drain(script);
      var i := 0;
      while true
        invariant 0 <= i <= |script| && Failed in script[i..]
        invariant Valid() && (inBuf.buffer == old(inBuf.buffer) || fresh(inBuf.buffer))
        invariant inBuf.Contents() + Drain(script[i..]) == all
        invariant base.server.count == old(base.server.count) && base.server.log == old(base.server.log)
        decreases |script| - i
      {
        var r := script[i];
        DrainStep(script, i);
        ghost var before := inBuf.Contents();
        RecvOnce(r);
        assert before + Received(r) + Drain(script[i + 1..]) == before + (Received(r) + Drain(script[i + 1..]));
        assert before + [] == before;
        i := i + 1;
        if r == Failed {
          break;
        }
      }
      assert inBuf.Contents() + [] == inBuf.Contents() && all + [] == all;
      var ret := ParseBuffer();
    }

    /** One pass of the recv loop: make room for a full piece, then take what recv hands over. */
    method RecvOnce(r: RecvResult)
      requires Valid() && |inBuf.Contents()| + PIECE <= MAX_REQUEST
      requires r.Data? ==> |r.bytes| <= PIECE
      modifies inBuf, inBuf.buffer
      ensures Valid() && (inBuf.buffer == old(inBuf.buffer) || fresh(inBuf.buffer))
      ensures inBuf.Contents() == old(inBuf.Contents()) + Received(r)
      ensures 8192 <= inBuf.allocSize - old(inBuf.writeOffset)
      ensures inBuf.growth == Request(old(inBuf.growth), old(inBuf.writeOffset) + PIECE)
    {
      hide Amortised, AllocFor;
      if inBuf.allocSize - inBuf.writeOffset < PIECE {
        inBuf.Extend(PIECE);
      }
      if r.Data? {
        inBuf.Deposit(r.bytes);
        inBuf.IncWriteOffset(|r.bytes|);
      }
    }

    /** One send of the front of the output buffer and, if it sent anything, the removal of that. */
    method SendFront(size: int, answer: SendResult) returns (ret: int)
      requires Valid() && base != null && 0 < size <= outBuf.writeOffset
      requires answer.Accepted? ==> answer.n <= size
      modifies outBuf, outBuf.buffer, base`sent
      modifies base.server`readSet, base.server`writeSet, base.server`excepSet
      ensures base.server.readSet == old(base.server.readSet) && base.server.excepSet == old(base.server.excepSet)
      ensures Valid() && outBuf.buffer == old(outBuf.buffer)
      ensures ret == if base.state != Connected || answer == HardError then -1
                     else if answer == WouldBlock then 0 else answer.n
      ensures if ret <= 0 then base.sent == old(base.sent) && outBuf.Contents() == old(outBuf.Contents())
              else (base.sent == old(base.sent) + [old(outBuf.Contents())[..ret]] &&
                    outBuf.Contents() == old(outBuf.Contents())[ret..])
      ensures base.server.writeSet ==
              if base.state == Connected && answer == WouldBlock then FdAdd(old(base.server.writeSet), base.fd)
              else old(base.server.writeSet)
    {
      hide Amortised;
      ghost var before := outBuf.Contents();
      ret := base.Send(outBuf.buffer, size, answer);
      if ret > 0 {
        assert outBuf.buffer[..ret] == before[..ret];
        var n := outBuf.Read(null, ret);
      }
    }

    /**
     os answers the i-th send.  stop is the answer the loop stopped on, if it was not the empty buffer.
     The bytes sent and the bytes kept are the old buffer, in the pieces os accepted; a would-block asks for
     write readiness.
     */
    method OnWrite(os: SendTrace) returns (ghost stop: Option<SendResult>)
      requires Valid() && base != null
      requires forall i: nat, size: nat {:trigger os(i, size)} | os(i, size).Accepted? :: os(i, size).n <= size
      modifies this`busy, outBuf, outBuf.buffer, base`sent
      modifies base.server`readSet, base.server`writeSet, base.server`excepSet
      ensures base.server.readSet == old(base.server.readSet) && base.server.excepSet == old(base.server.excepSet)
      ensures Valid() && outBuf.buffer == old(outBuf.buffer)
      ensures !old(busy) || base.state != Connected ==>
                outBuf.Contents() == old(outBuf.Contents()) && base.sent == old(base.sent)
      ensures old(base.sent) <= base.sent
      ensures Drained(os, old(outBuf.Contents()), base.sent[|old(base.sent)|..], outBuf.Contents())
      ensures busy == (old(busy) && outBuf.Contents() != [])
      ensures stop.Some? <==> busy
      ensures busy && base.state == Connected ==>
                && stop == Some(os(|base.sent| - |old(base.sent)|, Ask(outBuf.writeOffset)))
                && (stop.value.Accepted? ==> stop.value.n == 0)
      ensures base.server.writeSet ==
              if stop == Some(WouldBlock) && base.state == Connected then FdAdd(old(base.server.writeSet), base.fd)
              else old(base.server.writeSet)
    {
      if !busy {
        NothingDrained(os, outBuf.Contents());
        assert base.sent[|base.sent|..] == [];
        return None;
      }
      hide Drained, Amortised, FdAdd;
      ghost var pieces;
      pieces, stop := DrainOut(os);
      assert base.sent[|old(base.sent)|..] == pieces;
      if outBuf.writeOffset == 0 {
        busy := false;
      }
    }

    /** The loop of OnWrite; pieces are what it sent. */
    method DrainOut(os: SendTrace) returns (ghost pieces: seq<seq<byte>>, ghost stop: Option<SendResult>)
      requires Valid() && base != null
      requires forall i: nat, size: nat {:trigger os(i, size)} | os(i, size).Accepted? :: os(i, size).n <= size
      modifies outBuf, outBuf.buffer, base`sent
      modifies base.server`readSet, base.server`writeSet, base.server`excepSet
      ensures base.server.readSet == old(base.server.readSet) && base.server.excepSet == old(base.server.excepSet)
      ensures Valid() && outBuf.buffer == old(outBuf.buffer)
      ensures base.sent == old(base.sent) + pieces
      ensures Drained(os, old(outBuf.Contents()), pieces, outBuf.Contents())
      ensures base.state != Connected ==> pieces == [] && outBuf.Contents() == old(outBuf.Contents())
      ensures stop.Some? <==> outBuf.Contents() != []
      ensures stop.Some? && base.state == Connected ==>
                && stop == Some(os(|pieces|, Ask(outBuf.writeOffset)))
                && (stop.value.Accepted? ==> stop.value.n == 0)
      ensures base.server.writeSet ==
              if stop == Some(WouldBlock) && base.state == Connected then FdAdd(old(base.server.writeSet), base.fd)
              else old(base.server.writeSet)
    {
      pieces, stop := [], None;
      ghost var before := outBuf.Contents();
      NothingDrained(os, before);
      hide Drained, Amortised, FdAdd, SimpleBuffer.Valid, SimpleBuffer.Contents;
      assert base.sent == old(base.sent) + pieces;
      var i := 0;
      while outBuf.writeOffset > 0
        invariant Valid() && outBuf.buffer == old(outBuf.buffer) && stop == None
        invariant base.server.readSet == old(base.server.readSet) && base.server.excepSet == old(base.server.excepSet)
        invariant base.server.writeSet == old(base.server.writeSet)
        invariant base.sent == old(base.sent) + pieces && i == |pieces|
        invariant base.state != Connected ==> i == 0 && outBuf.Contents() == before
        invariant Drained(os, before, pieces, outBuf.Contents())
        decreases outBuf.writeOffset
      {
        var sendSize := outBuf.writeOffset;
        if sendSize > NETLIB_MAX_SOCKET_BUF_SIZE {
          sendSize := NETLIB_MAX_SOCKET_BUF_SIZE;
        }
        ghost var front := outBuf.Contents();
        var answer := os(i, sendSize);
        i := i + 1;
        var ret := SendFront(sendSize, answer);
        if ret <= 0 {
          stop := Some(if base.state == Connected then answer else HardError);
          break;
        }
        DrainedSnoc(os, before, pieces, front, ret);
        pieces := pieces + [front[..ret]];
      }
    }
  }

  lemma TotalOf(buf: seq<byte>)
    requires HEAD_SIZE <= |buf|
    ensures Add32(HEAD_SIZE, Word(buf[4], buf[5], buf[6], buf[7])) == TotalSize(buf)
  {
    assert GetU32(buf, 4) == Word(buf[4], buf[5], buf[6], buf[7]);
    Add32Exact(HEAD_SIZE, GetU32(buf, 4));
    hide Add32, Word, GetU32;
  }

  function Received(r: RecvResult): seq<byte> {
    if r.Data? then r.bytes else []
  }

  lemma DrainStep(script: seq<RecvResult>, i: nat)
    requires i < |script|
    ensures script[i] in script && (Failed in script[i..] && script[i] != Failed ==> Failed in script[i + 1..])
    ensures Drain(script[i..]) == Received(script[i]) + if script[i] == Failed then [] else Drain(script[i + 1..])
  {
    assert script[i..][1..] == script[i + 1..];
    assert script[i..] == [script[i]] + script[i + 1..];
  }

  /** Descriptors the system can hand out one after the other. */
  ghost predicate NewDescriptors(fds: seq<int>, open: set<int>) {
    && (forall fd | fd in fds :: fd !in open)
    && forall i, j | 0 <= i < j < |fds| :: fds[i] != fds[j]
  }

  lemma OpenIsMapped(v: Srv)
    requires Inv(v)
    ensures v.socks.Keys == v.open && v.conns.Keys <= v.open
  {
    assert forall fd | fd in v.conns :: fd in v.socks;
  }

  lemma ListenStep(v: Srv, fd: int)
    requires fd !in v.open
    ensures Step(v, ServerModel.Listen(fd)) == Register(v, fd, Listening)
  {
  }

  lemma ConnFound(v: Srv, fd: int)
    requires Inv(v) && fd in v.socks
    ensures v.socks[fd].state != Listening ==> fd in v.conns
  {
  }

  lemma SendBlockedStep(v: Srv, fd: int)
    ensures Step(v, SendBlocked(fd)) ==
            if fd in v.socks && v.socks[fd].state == Connected then v.(writeSet := FdAdd(v.writeSet, fd)) else v
  {
  }

  /** What state a socket is in when it is closed makes no difference. */
  lemma StateOfClosed(v: Srv, fd: int, state: SockState)
    requires fd in v.socks
    ensures var v' := v.(socks := v.socks[fd := Sock(v.socks[fd].id, state)]);
            CloseSock(v', fd) == CloseSock(v, fd)
  {
    assert v.socks[fd := Sock(v.socks[fd].id, state)] - {fd} == v.socks - {fd};
  }

  /** The size of a send when so many bytes are left. */
  function Ask(left: nat): nat {
    Min(left, NETLIB_MAX_SOCKET_BUF_SIZE)
  }

  /** The k-th piece is what os accepted of the k-th request, which was for the front of what was then left. */
  ghost predicate PieceOf(os: SendTrace, total: nat, pieces: seq<seq<byte>>, k: nat)
    requires k < |pieces|
  {
    var done := |Flatten(pieces[..k])|;
    && done < total && os(k, Ask(total - done)) == Accepted(|pieces[k]|)
    && 1 <= |pieces[k]| <= NETLIB_MAX_SOCKET_BUF_SIZE
  }

  /** Sending pieces off the front of before leaves left. */
  ghost predicate Drained(os: SendTrace, before: seq<byte>, pieces: seq<seq<byte>>, left: seq<byte>) {
    && Flatten(pieces) + left == before
    && forall k | 0 <= k < |pieces| :: PieceOf(os, |before|, pieces, k)
  }

  /** The first piece answers a request for the whole buffer, or for 131072 bytes of it. */
  lemma FirstPiece(os: SendTrace, before: seq<byte>, pieces: seq<seq<byte>>, left: seq<byte>)
    requires Drained(os, before, pieces, left) && pieces != []
    ensures os(0, if |before| < 131072 then |before| else 131072) == Accepted(|pieces[0]|) && pieces[0] <= before
  {
    assert PieceOf(os, |before|, pieces, 0) && pieces[..0] == [];
    assert Flatten(pieces) == pieces[0] + Flatten(pieces[1..]);
  }

  lemma NothingDrained(os: SendTrace, before: seq<byte>)
    ensures Drained(os, before, [], before)
  {
    assert [] + before == before;
  }

  lemma DrainedSnoc(os: SendTrace, before: seq<byte>, pieces: seq<seq<byte>>, left: seq<byte>, n: nat)
    requires Drained(os, before, pieces, left)
    requires 1 <= n <= Ask(|left|) && os(|pieces|, Ask(|left|)) == Accepted(n)
    ensures Drained(os, before, pieces + [left[..n]], left[n..])
  {
    var more := pieces + [left[..n]];
    SentKept(pieces, left, n);
    hide Flatten;
    assert |left| == |before| - |Flatten(pieces)|;
    forall k | 0 <= k < |more| ensures PieceOf(os, |before|, more, k) {
      if k < |pieces| {
        assert more[..k] == pieces[..k] && PieceOf(os, |before|, pieces, k);
      } else {
        assert more[..k] == pieces;
      }
    }
  }

  lemma SentKept(sent: seq<seq<byte>>, buf: seq<byte>, n: nat)
    requires n <= |buf|
    ensures Flatten(sent + [buf[..n]]) + buf[n..] == Flatten(sent) + buf
  {
    FlattenSnoc(sent, buf[..n]);
    hide Flatten;
    assert buf[..n] + buf[n..] == buf;
    assert Flatten(sent) + buf[..n] + buf[n..] == Flatten(sent) + (buf[..n] + buf[n..]);
  }

  ghost function AnyOf(fds: set<int>): (fd: int)
    requires fds != {}
    ensures fd in fds
  {
    assert (forall fd :: fd !in fds) ==> fds == {};
    var fd :| fd in fds;
    fd
  }

  class BaseSocket {
    const server: WgdServer
    /** The object's identity in ServerModel. */
    ghost const id: nat
    var fd: int
    var state: SockState
    /** The pieces the kernel has accepted for this socket. */
    var sent: seq<seq<byte>>

    constructor (server: WgdServer, ghost id: nat)
      ensures this.server == server && this.id == id && fd == -1 && state == Idle && sent == []
    {
      this.server, this.id := server, id;
      fd, state, sent := -1, Idle, [];
    }

    /** This object is the one its server has mapped under its descriptor. */
    ghost predicate Mapped()
      reads this, server, server.Repr
    {
      server.Valid() && fd in server.socketMap && server.socketMap[fd] == this
    }

    /**
     newFd is what socket() returned, ok whether bind and listen succeeded.  On failure the descriptor
     is closed again and nothing is registered.
     */
    method Listen(newFd: Option<int>, ok: bool) returns (ret: int)
      requires server.Valid() && this !in server.Repr && id == server.nextId && state == Idle
      requires newFd.Some? ==> newFd.value !in server.open
      modifies this, server
      ensures server.Valid() && server.Repr <= old(server.Repr) + {this}
      ensures ret == if newFd.Some? && ok then 0 else -1
      ensures server.View() == if ret == 0 then Step(old(server.View()), ServerModel.Listen(newFd.value))
                               else old(server.View())
    {
      hide Inv, WgdServer.Shape, WgdServer.SocksView, WgdServer.ConnsView, Register, FdAdd;
      match newFd
      case None => return NETLIB_ERROR;
      case Some(f) =>
        ghost var v := server.View();
        fd := f;
        if ok {
          state := Listening;
        }
        server.SameButFor(this);
        if !ok {
          return NETLIB_ERROR;
        }
        StepInv(v, ServerModel.Listen(f));
        ListenStep(v, f);
        EnterTables();
        return NETLIB_OK;
    }

    /** Common to listeners and accepted sockets: enter the socket map and the read and exception sets. */
    method EnterTables()
      requires server.Valid() && this !in server.Repr && id == server.nextId && fd !in server.open
      modifies server
      ensures server.Shape() && server.Repr == old(server.Repr) + {this}
      ensures server.View() == Register(old(server.View()), fd, state)
      ensures server.open == old(server.open) + {fd} && fd !in server.connMap
      ensures fd in server.socketMap && server.socketMap[fd] == this
    {
      hide Inv, FdAdd, Register, WgdServer.Shape, WgdServer.SocksView, WgdServer.ConnsView;
      OpenIsMapped(server.View());
      server.Seen(fd);
      RegisterFields(server.View(), fd, state);
      server.AddBaseSocket(this);
      server.NoteOpened(this);
      server.AddEvent(fd, {ReadEvent, ExcepEvent});
      server.AddSocketFrame(fd, this);
    }

    /** accepted: what accept returns before INVALID_SOCKET; avail and script: FIONREAD and recv. */
    method OnRead(accepted: seq<int>, avail: bool, script: seq<RecvResult>)
      requires Mapped()
      requires state == Listening ==> NewDescriptors(accepted, server.open)
      requires state != Listening && avail ==> server.Readies(fd, script)
      modifies server.Repr
      ensures server.Valid() && fresh(server.Repr - old(server.Repr))
      ensures server.View() == Step(old(server.View()), Readable(old(fd), accepted, avail, Drain(script)))
    {
      hide Inv, AcceptAll, CloseSock, ReadConn, Drain, Bounded, NewDescriptors;
      hide WgdConn.Valid, WgdConn.Repr, SimpleBuffer.Valid, SimpleBuffer.Contents;
      ConnFound(server.View(), fd);
      CloseSockInv(server.View(), fd);
      if state == Listening {
        AcceptNewSocket(accepted);
      } else if !avail {
        var ret := server.OnClose(fd);
      } else {
        server.OnRead(fd, script);
      }
    }

    /** A socket the server has mapped is never connecting, so that branch is not here. */
    method OnWrite()
      requires Mapped()
      modifies server
      ensures server.Valid() && server.Repr == old(server.Repr)
      ensures server.View() == Step(old(server.View()), Writable(fd))
    {
      hide Inv, FdClr, WgdServer.Shape, WgdServer.SocksView, WgdServer.ConnsView;
      server.Seen(fd);
      StepInv(server.View(), Writable(fd));
      server.RemoveEvent(fd, {WriteEvent});
      server.SameMapsFrame();
      var ret := server.OnWrite(fd);
    }

    method OnClose()
      requires Mapped()
      modifies this`state, server
      ensures server.Valid() && server.Repr == old(server.Repr)
      ensures server.View() == Step(old(server.View()), Exceptional(fd))
    {
      hide Inv, FdClr, WgdConn.Valid, WgdConn.Repr, SimpleBuffer.Valid, SimpleBuffer.Contents;
      CloseSockInv(server.View(), fd);
      StateOfClosed(server.View(), fd, Closing);
      state := Closing;
      server.StateFrame(fd);
      var ret := server.OnClose(fd);
    }

    method AcceptNewSocket(accepted: seq<int>)
      requires server.Valid() && NewDescriptors(accepted, server.open)
      modifies server
      ensures server.Valid() && fresh(server.Repr - old(server.Repr))
      ensures server.View() == AcceptAll(old(server.View()), accepted)
    {
      hide Inv, AcceptOne, WgdServer.Shape, WgdServer.SocksView, WgdServer.ConnsView;
      var i := 0;
      assert accepted[..0] == [];
      while i < |accepted|
        invariant 0 <= i <= |accepted|
        invariant server.Valid() && fresh(server.Repr - old(server.Repr))
        invariant server.View() == AcceptAll(old(server.View()), accepted[..i])
        invariant NewDescriptors(accepted[i..], server.open)
      {
        assert accepted[..i + 1][..i] == accepted[..i];
        assert accepted[i..][0] == accepted[i] && accepted[i..][1..] == accepted[i + 1..];
        AcceptOneSocket(accepted[i]);
        i := i + 1;
      }
      assert accepted[..i] == accepted;
    }

    /** One round of the accept loop, for a descriptor accept has just opened. */
    method AcceptOneSocket(newFd: int)
      requires server.Valid() && newFd !in server.open
      modifies server
      ensures server.Valid() && fresh(server.Repr - old(server.Repr))
      ensures server.View() == AcceptOne(old(server.View()), newFd)
      ensures server.open == old(server.open) + {newFd}
    {
      hide Inv, Register, WgdServer.Shape, WgdServer.SocksView, WgdServer.ConnsView;
      OpenIsMapped(server.View());
      RegisterInv(server.View(), newFd);
      RegisterFields(server.View(), newFd, Connected);
      var k := new BaseSocket(server, server.nextId);
      k.fd, k.state := newFd, Connected;
      server.SameButFor(k);
      k.EnterTables();
      server.OnConnect(newFd);
    }

    /** closesocket releases the descriptor, and the object deletes itself. */
    method Close() returns (ret: int)
      modifies server
      ensures ret == 0
      ensures server.socketMap == old(server.socketMap) - {fd} && server.connMap == old(server.connMap)
      ensures server.readSet == FdClr(old(server.readSet), fd)
      ensures server.writeSet == FdClr(old(server.writeSet), fd)
      ensures server.excepSet == FdClr(old(server.excepSet), fd)
      ensures server.open == old(server.open) - {fd} && server.alive == old(server.alive) - {id}
      ensures server.count == old(server.count) && server.log == old(server.log)
      ensures server.nextId == old(server.nextId) && server.Repr == old(server.Repr)
    {
      server.RemoveEvent(fd, {ReadEvent, WriteEvent, ExcepEvent});
      server.RemoveBaseSocket(this);
      server.open := server.open - {fd};
      server.alive := server.alive - {id};
      return 0;
    }

    /** send()'s answer to a request of len bytes; only consulted when the socket is connected. */
    method Send(buf: array<byte>, len: int, answer: SendResult) returns (ret: int)
      requires 0 <= len <= buf.Length
      requires answer.Accepted? ==> answer.n <= len
      modifies this`sent, server`readSet, server`writeSet, server`excepSet
      ensures server.readSet == old(server.readSet) && server.excepSet == old(server.excepSet)
      ensures ret == if state != Connected || answer == HardError then -1
                     else if answer == WouldBlock then 0 else answer.n
      ensures sent == old(sent) + if ret > 0 then [buf[..ret]] else []
      ensures server.writeSet ==
              if state == Connected && answer == WouldBlock then FdAdd(old(server.writeSet), fd)
              else old(server.writeSet)
      ensures old(Mapped()) ==>
              && server.Valid()
              && server.View() ==
                 if answer == WouldBlock then Step(old(server.View()), SendBlocked(fd)) else old(server.View())
    {
      hide Inv, FdAdd, WgdServer.Shape, WgdServer.SocksView, WgdServer.ConnsView;
      ghost var mapped := old(Mapped());
      ghost var v := if mapped then server.View() else START;
      if mapped {
        server.Seen(fd);
        StepInv(v, SendBlocked(fd));
        SendBlockedStep(v, fd);
      }
      hide Step;
      if state != Connected {
        return NETLIB_ERROR;
      }
      match answer {
        case Accepted(n) =>
          if n > 0 {
            sent := sent + [buf[..n]];
          }
          ret := n;
        case WouldBlock =>
          server.AddEvent(fd, {WriteEvent});
          ret := 0;
        case HardError =>
          ret := NETLIB_ERROR;
      }
      if mapped {
        server.SendFrame(fd);
        assert server.View() == if answer == WouldBlock then Step(v, SendBlocked(fd)) else v;
      }
    }
  }

  class WgdServer {
    var socketMap: map<int, BaseSocket>
    var connMap: map<int, WgdConn>
    var readSet: seq<int>
    var writeSet: seq<int>
    var excepSet: seq<int>
    var count: int32
    /** What the model adds: the deliveries printed, the descriptors the system has open, and the socket objects. */
    ghost var log: seq<Entry>
    ghost var open: set<int>
    ghost var alive: set<nat>
    ghost var nextId: nat
    ghost var Repr: set<object>

    /** How the objects hang together; their agreement is ServerModel.Inv of the view. */
    ghost predicate Shape()
      reads this, Repr
    {
      && this in Repr
      && (forall fd | fd in socketMap ::
            var k := socketMap[fd]; k in Repr && k.server == this && k.fd == fd)
      && (forall fd | fd in connMap ::
            var c := connMap[fd];
            && c in Repr && c.inBuf in Repr && c.outBuf in Repr && c.Repr() <= Repr && this !in c.Repr()
            && c.Valid() && fd in socketMap && c.base == socketMap[fd])
      && (forall f, g | f in connMap && g in connMap && f != g :: connMap[f].Repr() !! connMap[g].Repr())
    }

    /** What the model sees of the sockets mapped under fds; recursive, so that it is built from updates alone. */
    ghost function SocksOf(fds: set<int>): (m: map<int, Sock>)
      reads this, Repr
      requires Shape() && fds <= socketMap.Keys
      ensures m.Keys == fds && forall fd | fd in fds :: m[fd] == Sock(socketMap[fd].id, socketMap[fd].state)
    {
      if fds == {} then map[] else
      var fd := AnyOf(fds);
      SocksOf(fds - {fd})[fd := Sock(socketMap[fd].id, socketMap[fd].state)]
    }

    ghost function ConnsOf(fds: set<int>): (m: map<int, Conn>)
      reads this, Repr
      requires Shape() && fds <= connMap.Keys
      ensures m.Keys == fds && forall fd | fd in fds :: m[fd] == Conn(connMap[fd].base.id, connMap[fd].inBuf.Contents())
    {
      if fds == {} then map[] else
      var fd := AnyOf(fds);
      ConnsOf(fds - {fd})[fd := Conn(connMap[fd].base.id, connMap[fd].inBuf.Contents())]
    }

    ghost function SocksView(): map<int, Sock>
      reads this, Repr
      requires Shape()
    {
      SocksOf(socketMap.Keys)
    }

    ghost function ConnsView(): map<int, Conn>
      reads this, Repr
      requires Shape()
    {
      ConnsOf(connMap.Keys)
    }

    lemma Seen(fd: int)
      requires Shape()
      ensures fd in socketMap <==> fd in View().socks
      ensures fd in connMap <==> fd in View().conns
      ensures fd in socketMap ==> View().socks[fd] == Sock(socketMap[fd].id, socketMap[fd].state)
      ensures fd in connMap ==>
                View().conns[fd] == Conn(connMap[fd].base.id, connMap[fd].inBuf.Contents())
    {
    }

    ghost function View(): Srv
      reads this, Repr
      requires Shape()
    {
      Srv(SocksView(), ConnsView(), readSet, writeSet, excepSet, count, open, alive, nextId, log)
    }

    ghost predicate Valid()
      reads this, Repr
    {
      Shape() && Inv(View())
    }

    /** What a read on a connection assumes of recv: it ends with an error, and the buffer can grow enough. */
    ghost predicate Readies(fd: int, script: seq<RecvResult>)
      reads this, Repr
      requires Shape()
    {
      && Bounded(script) && Failed in script
      && (fd in connMap ==> |connMap[fd].inBuf.Contents()| + |Drain(script)| + PIECE <= MAX_REQUEST)
    }

    // ---- framing: what a handler that writes only the objects in t leaves alone ----

    twostate predicate WritesOnly(new t: set<object>)
      reads *
    {
      forall o: object | o in old(Repr) && o !in t :: unchanged(o)
    }

    /** The socket objects and every connection but the given ones are as they were. */
    twostate lemma RestKept(new t: set<object>, new notSockets: set<int>, new notConns: set<int>)
      requires old(Shape()) && WritesOnly(t)
      requires forall f | f in old(socketMap) && f !in notSockets :: old(socketMap)[f] !in t
      requires forall g | g in old(connMap) && g !in notConns :: t !! old(connMap[g].Repr())
      ensures forall f | f in old(socketMap) && f !in notSockets ::
                var k := old(socketMap)[f]; k.fd == old(k.fd) && k.state == old(k.state)
      ensures forall g | g in old(connMap) && g !in notConns :: Kept(old(connMap)[g])
    {
      hide SimpleBuffer.Valid, SimpleBuffer.Contents;
      forall f | f in old(socketMap) && f !in notSockets
        ensures var k := old(socketMap)[f]; k.fd == old(k.fd) && k.state == old(k.state)
      {
        assert unchanged(old(socketMap)[f]);
      }
      forall g | g in old(connMap) && g !in notConns ensures Kept(old(connMap)[g]) {
        var c := old(connMap)[g];
        assert c in old(c.Repr()) && c.inBuf in old(c.Repr()) && c.outBuf in old(c.Repr());
        assert c.inBuf.buffer in old(c.Repr());
      }
    }

    twostate lemma SameMapsFrame()
      requires old(Shape()) && WritesOnly({this}) && Repr == old(Repr)
      requires socketMap == old(socketMap) && connMap == old(connMap)
      ensures Shape()
      ensures SocksView() == old(SocksView()) && ConnsView() == old(ConnsView())
    {
      hide SocksOf, ConnsOf, SimpleBuffer.Valid, SimpleBuffer.Contents, WgdConn.Valid, WgdConn.Repr;
      RestKept({this}, {}, {});
      forall f | f in socketMap ensures SocksView()[f] == old(SocksView())[f] {
      }
      forall g | g in connMap ensures ConnsView()[g] == old(ConnsView())[g] {
      }
      assert SocksView() == old(SocksView()) && ConnsView() == old(ConnsView());
    }

    twostate lemma StateFrame(fd: int)
      requires old(Shape()) && fd in old(socketMap) && WritesOnly({old(socketMap)[fd]})
      requires old(socketMap)[fd].fd == fd
      ensures Shape()
      ensures var k := old(socketMap)[fd];
              SocksView() == old(SocksView())[fd := Sock(k.id, k.state)] && ConnsView() == old(ConnsView())
    {
      hide SocksOf, ConnsOf, SimpleBuffer.Valid, SimpleBuffer.Contents, WgdConn.Valid, WgdConn.Repr;
      var k := old(socketMap)[fd];
      forall g | g in old(connMap) ensures k !in old(connMap[g].Repr()) {
        old(connMap)[g].NoSocketInRepr(k);
      }
      assert unchanged(this);
      RestKept({k}, {fd}, {});
      forall f | f in socketMap ensures SocksView()[f] == old(SocksView())[fd := Sock(k.id, k.state)][f] {
      }
      forall g | g in connMap ensures ConnsView()[g] == old(ConnsView())[g] {
      }
      assert SocksView() == old(SocksView())[fd := Sock(k.id, k.state)] && ConnsView() == old(ConnsView());
    }

    twostate lemma SendFrame(fd: int)
      requires old(Shape()) && fd in old(socketMap) && WritesOnly({this, old(socketMap)[fd]})
      requires Repr == old(Repr) && socketMap == old(socketMap) && connMap == old(connMap)
      requires var k := old(socketMap)[fd]; k.fd == old(k.fd) && k.state == old(k.state)
      ensures Shape()
      ensures SocksView() == old(SocksView()) && ConnsView() == old(ConnsView())
    {
      hide SocksOf, ConnsOf, SimpleBuffer.Valid, SimpleBuffer.Contents, WgdConn.Valid, WgdConn.Repr;
      var k := old(socketMap)[fd];
      forall g | g in old(connMap) ensures k !in old(connMap[g].Repr()) {
        old(connMap)[g].NoSocketInRepr(k);
      }
      RestKept({this, k}, {fd}, {});
      forall f | f in socketMap ensures SocksView()[f] == old(SocksView())[f] {
      }
      forall g | g in connMap ensures ConnsView()[g] == old(ConnsView())[g] {
      }
      assert SocksView() == old(SocksView()) && ConnsView() == old(ConnsView());
    }

    twostate lemma CloseFrame(fd: int)
      requires old(Shape()) && WritesOnly({this}) && Repr == old(Repr)
      requires socketMap == old(socketMap) - {fd} && connMap == old(connMap) - {fd}
      ensures Shape()
      ensures SocksView() == old(SocksView()) - {fd} && ConnsView() == old(ConnsView()) - {fd}
    {
      hide SocksOf, ConnsOf, SimpleBuffer.Valid, SimpleBuffer.Contents, WgdConn.Valid, WgdConn.Repr;
      RestKept({this}, {}, {});
      forall f | f in socketMap ensures SocksView()[f] == (old(SocksView()) - {fd})[f] {
      }
      forall g | g in connMap ensures ConnsView()[g] == (old(ConnsView()) - {fd})[g] {
      }
      assert SocksView() == old(SocksView()) - {fd} && ConnsView() == old(ConnsView()) - {fd};
    }

    twostate lemma ReadShape(new fd: int, c: WgdConn)
      requires old(Shape()) && fd in old(connMap) && c == old(connMap)[fd] && old(c.inBuf.buffer) in old(c.Repr())
      requires WritesOnly({this, c.inBuf, old(c.inBuf.buffer)}) && Repr == old(Repr) + c.Repr()
      requires socketMap == old(socketMap) && connMap == old(connMap)
      requires c.Valid() && c.inBuf.Valid() && c.base == old(c.base) && fresh(c.Repr() - old(c.Repr()))
      ensures Shape()
    {
      hide SimpleBuffer.Valid, SimpleBuffer.Contents, WgdConn.Valid, WgdConn.Repr;
      c.ReprParts();
      RestKept({this, c.inBuf, old(c.inBuf.buffer)}, {}, {fd});
    }

    twostate lemma ReadFrame(new fd: int, c: WgdConn)
      requires old(Shape()) && fd in old(connMap) && c == old(connMap)[fd] && old(c.inBuf.buffer) in old(c.Repr())
      requires WritesOnly({this, c.inBuf, old(c.inBuf.buffer)}) && Repr == old(Repr) + c.Repr()
      requires socketMap == old(socketMap) && connMap == old(connMap)
      requires c.Valid() && c.inBuf.Valid() && c.base == old(c.base) && fresh(c.Repr() - old(c.Repr()))
      ensures Shape()
      ensures SocksView() == old(SocksView())
      ensures ConnsView() == old(ConnsView())[fd := Conn(c.base.id, c.inBuf.Contents())]
    {
      hide SocksOf, ConnsOf, SimpleBuffer.Valid, SimpleBuffer.Contents, WgdConn.Valid, WgdConn.Repr;
      c.ReprParts();
      RestKept({this, c.inBuf, old(c.inBuf.buffer)}, {}, {fd});
      ReadShape(fd, c);
      forall f | f in socketMap ensures SocksView()[f] == old(SocksView())[f] {
      }
      forall g | g in connMap ensures ConnsView()[g] == old(ConnsView())[fd := Conn(c.base.id, c.inBuf.Contents())][g] {
      }
      assert SocksView() == old(SocksView());
      assert ConnsView() == old(ConnsView())[fd := Conn(c.base.id, c.inBuf.Contents())];
    }

    twostate lemma AddSocketFrame(fd: int, new k: BaseSocket)
      requires old(Shape()) && WritesOnly({this}) && Repr == old(Repr) + {k}
      requires fd !in old(socketMap) && k !in old(Repr) && k.server == this && k.fd == fd
      requires socketMap == old(socketMap)[fd := k] && connMap == old(connMap)
      ensures Shape()
      ensures SocksView() == old(SocksView())[fd := Sock(k.id, k.state)] && ConnsView() == old(ConnsView())
    {
      hide SocksOf, ConnsOf, SimpleBuffer.Valid, SimpleBuffer.Contents, WgdConn.Valid, WgdConn.Repr;
      RestKept({this}, {}, {});
      forall f | f in socketMap ensures SocksView()[f] == old(SocksView())[fd := Sock(k.id, k.state)][f] {
      }
      forall g | g in connMap ensures ConnsView()[g] == old(ConnsView())[g] {
      }
      assert SocksView() == old(SocksView())[fd := Sock(k.id, k.state)] && ConnsView() == old(ConnsView());
    }

    twostate lemma AddConnFrame(fd: int, new c: WgdConn)
      requires old(Shape()) && WritesOnly({this}) && Repr == old(Repr) + c.Repr()
      requires fd !in old(connMap) && fd in socketMap && c.base == socketMap[fd]
      requires c.Valid() && c.inBuf.Valid() && fresh(c.Repr())
      requires socketMap == old(socketMap) && connMap == old(connMap)[fd := c]
      ensures Shape()
      ensures SocksView() == old(SocksView())
      ensures ConnsView() == old(ConnsView())[fd := Conn(c.base.id, c.inBuf.Contents())]
    {
      hide SocksOf, ConnsOf, SimpleBuffer.Valid, SimpleBuffer.Contents, WgdConn.Valid, WgdConn.Repr;
      c.ReprParts();
      RestKept({this}, {}, {});
      forall f | f in socketMap ensures SocksView()[f] == old(SocksView())[f] {
      }
      forall g | g in connMap ensures ConnsView()[g] == old(ConnsView())[fd := Conn(c.base.id, c.inBuf.Contents())][g] {
      }
      assert SocksView() == old(SocksView());
      assert ConnsView() == old(ConnsView())[fd := Conn(c.base.id, c.inBuf.Contents())];
    }

    twostate lemma SameButFor(new k: BaseSocket)
      requires old(Valid()) && k !in Repr && WritesOnly({}) && unchanged(this)
      ensures Valid() && View() == old(View())
    {
      hide Inv, SimpleBuffer.Valid, SimpleBuffer.Contents, WgdConn.Valid, WgdConn.Repr;
      RestKept({}, {}, {});
      assert SocksView() == old(SocksView()) && ConnsView() == old(ConnsView());
    }

    twostate predicate Kept(c: WgdConn)
      reads c, c.Repr()
    {
      && old(c.Valid()) && old(c.inBuf.Valid()) && c.Valid() && c.inBuf.Valid()
      && c.Repr() == old(c.Repr()) && c.base == old(c.base)
      && c.inBuf.Contents() == old(c.inBuf.Contents())
    }

    constructor ()
      ensures Valid() && fresh(Repr) && View() == START
    {
      socketMap, connMap := map[], map[];
      readSet, writeSet, excepSet := [], [], [];
      count, log, open, alive, nextId := 0, [], {}, {}, 0;
      Repr := {this};
      new;
      assert View() == START;
      RunInv([]);
    }

    // ---- table operations ----

    method OnStatisticEnd()
      modifies this`count
      ensures count == NextCount(old(count))
    {
      if count == TWO_31 - 1 {
        count := -TWO_31;
      } else {
        count := count + 1;
      }
    }

    method AddEvent(fd: int, events: set<Interest>)
      modifies this`readSet, this`writeSet, this`excepSet
      ensures readSet == if ReadEvent in events then FdAdd(old(readSet), fd) else old(readSet)
      ensures writeSet == if WriteEvent in events then FdAdd(old(writeSet), fd) else old(writeSet)
      ensures excepSet == if ExcepEvent in events then FdAdd(old(excepSet), fd) else old(excepSet)
    {
      if ReadEvent in events {
        readSet := FdAdd(readSet, fd);
      }
      if WriteEvent in events {
        writeSet := FdAdd(writeSet, fd);
      }
      if ExcepEvent in events {
        excepSet := FdAdd(excepSet, fd);
      }
    }

    method RemoveEvent(fd: int, events: set<Interest>)
      modifies this`readSet, this`writeSet, this`excepSet
      ensures readSet == if ReadEvent in events then FdClr(old(readSet), fd) else old(readSet)
      ensures writeSet == if WriteEvent in events then FdClr(old(writeSet), fd) else old(writeSet)
      ensures excepSet == if ExcepEvent in events then FdClr(old(excepSet), fd) else old(excepSet)
    {
      if ReadEvent in events {
        readSet := FdClr(readSet, fd);
      }
      if WriteEvent in events {
        writeSet := FdClr(writeSet, fd);
      }
      if ExcepEvent in events {
        excepSet := FdClr(excepSet, fd);
      }
    }

    method AddBaseSocket(k: BaseSocket)
      modifies this`socketMap
      ensures socketMap == if k.fd in old(socketMap) then old(socketMap) else old(socketMap)[k.fd := k]
    {
      if k.fd !in socketMap {
        socketMap := socketMap[k.fd := k];
      }
    }

    /** Bookkeeping of the model: a socket object with a descriptor the system has just opened. */
    ghost method NoteOpened(k: BaseSocket)
      modifies this`open, this`alive, this`nextId, this`Repr
      ensures open == old(open) + {k.fd} && alive == old(alive) + {k.id}
      ensures nextId == old(nextId) + 1 && Repr == old(Repr) + {k}
    {
      open, alive, nextId, Repr := open + {k.fd}, alive + {k.id}, nextId + 1, Repr + {k};
    }

    method RemoveBaseSocket(k: BaseSocket)
      modifies this`socketMap
      ensures socketMap == old(socketMap) - {k.fd}
    {
      socketMap := socketMap - {k.fd};
    }

    method FindBaseSocket(fd: int) returns (k: BaseSocket?)
      ensures k == if fd in socketMap then socketMap[fd] else null
    {
      k := if fd in socketMap then socketMap[fd] else null;
    }

    method AddWgdConn(c: WgdConn, fd: int)
      modifies this`connMap
      ensures connMap == if fd in old(connMap) then old(connMap) else old(connMap)[fd := c]
    {
      if fd !in connMap {
        connMap := connMap[fd := c];
      }
    }

    method RemoveWgdConn(fd: int)
      modifies this`connMap
      ensures connMap == old(connMap) - {fd}
    {
      connMap := connMap - {fd};
    }

    method FindWgdConn(fd: int) returns (c: WgdConn?)
      ensures c == if fd in connMap then connMap[fd] else null
    {
      c := if fd in connMap then connMap[fd] else null;
    }

    // ---- notifications ----

    /** The original dereferences what FindWgdConn returns. */
    method OnRead(fd: int, script: seq<RecvResult>)
      requires Valid() && fd in connMap && Readies(fd, script)
      modifies Repr
      ensures Valid() && fresh(Repr - old(Repr))
      ensures View() == ReadConn(old(View()), fd, Drain(script))
    {
      hide Inv, ReadCall, NextCount, Amortised, Bounded, Drain, SocksView, ConnsView, SocksOf, ConnsOf;
      hide SimpleBuffer.Valid, SimpleBuffer.Contents, WgdConn.Valid, WgdConn.Repr;
      ghost var v, chunk := View(), Drain(script);
      Seen(fd);
      var c := FindWgdConn(fd);
      c.ReprParts();
      ghost var r := ReadCall(ConnState(c.inBuf.Contents(), []), chunk);
      ReadConnInv(v, fd, chunk);
      ReadConnFields(v, fd, chunk, r);
      hide ReadConn, Shape;
      c.OnRead(script);
      c.ReprParts();
      Repr := Repr + c.Repr();
      ReadFrame(fd, c);
      assert View() == ReadConn(v, fd, chunk);
    }

    /** Shape is enough: OnClose of a socket has already left the states of Inv when it gets here. */
    method OnClose(fd: int) returns (ret: int)
      requires Shape()
      modifies this
      ensures Shape() && Repr == old(Repr)
      ensures ret == if fd in old(socketMap) then 0 else -1
      ensures View() == if fd in old(socketMap) then CloseSock(old(View()), fd) else old(View())
    {
      hide Amortised, FdClr, SimpleBuffer.Valid, SimpleBuffer.Contents, WgdConn.Valid, WgdConn.Repr;
      var k := FindBaseSocket(fd);
      if k == null {
        return NETLIB_ERROR;
      }
      ret := k.Close();
      RemoveWgdConn(fd);
      CloseFrame(fd);
    }

    method OnWrite(fd: int) returns (ret: int)
      ensures ret == 0
    {
      return 0;
    }

    /** The new connection points at the socket mapped under fd; a connection already there stays. */
    method OnConnect(fd: int)
      requires Shape() && fd in socketMap
      modifies this
      ensures Shape() && fresh(Repr - old(Repr)) && socketMap == old(socketMap) && open == old(open)
      ensures View() == old(View()).(conns := Insert(old(View()).conns, fd, Conn(socketMap[fd].id, [])))
    {
      hide Shape, SocksView, ConnsView, WgdConn.Valid, WgdConn.Repr, SimpleBuffer.Valid, SimpleBuffer.Contents;
      Seen(fd);
      var c := new WgdConn();
      var k := FindBaseSocket(fd);
      c.OnConnect(k);
      c.ReprParts();
      if fd !in connMap {
        AddWgdConn(c, fd);
        Repr := Repr + c.Repr();
        AddConnFrame(fd, c);
      }
    }

    /** The socket object of a failed Listen is deleted unregistered. */
    method StartWork(newFd: Option<int>, ok: bool) returns (ret: int)
      requires Valid() && (newFd.Some? ==> newFd.value !in open)
      modifies this
      ensures Valid() && fresh(Repr - old(Repr))
      ensures ret == if newFd.Some? && ok then 0 else -1
      ensures View() == if ret == 0 then Step(old(View()), ServerModel.Listen(newFd.value)) else old(View())
    {
      hide Inv, SocksView, ConnsView, WgdConn.Valid, WgdConn.Repr, SimpleBuffer.Valid, SimpleBuffer.Contents;
      var k := new BaseSocket(this, nextId);
      ret := k.Listen(newFd, ok);
    }
  }

  datatype DispatchType = ReadType | WriteType | ExcepType

  /** A notice: it names a descriptor, not an object, and looks the object up when it runs. */
  class DispatchTask {
    const kind: DispatchType
    const fd: int
    const server: WgdServer

    constructor (kind: DispatchType, fd: int, server: WgdServer)
      ensures this.kind == kind && this.fd == fd && this.server == server
    {
      this.kind, this.fd, this.server := kind, fd, server;
    }

    method Run(accepted: seq<int>, avail: bool, script: seq<RecvResult>)
      requires server.Valid() && this !in server.Repr
      requires kind == ReadType && fd in server.socketMap ==>
                 if server.socketMap[fd].state == Listening then NewDescriptors(accepted, server.open)
                 else avail ==> server.Readies(fd, script)
      modifies server.Repr
      ensures server.Valid() && fresh(server.Repr - old(server.Repr))
      ensures server.View() == Step(old(server.View()),
                match kind
                case ReadType => Readable(fd, accepted, avail, Drain(script))
                case WriteType => Writable(fd)
                case ExcepType => Exceptional(fd))
    {
      hide Inv, Step;
      StepUnmapped(server.View(), fd, accepted, avail, Drain(script));
      var k := server.FindBaseSocket(fd);
      if k != null {
        match kind
        case ReadType => k.OnRead(accepted, avail, script);
        case WriteType => k.OnWrite();
        case ExcepType => k.OnClose();
      }
    }
  }

  lemma StepUnmapped(v: Srv, fd: int, accepted: seq<int>, avail: bool, chunk: seq<byte>)
    ensures fd !in v.socks ==>
              && Step(v, Readable(fd, accepted, avail, chunk)) == v
              && Step(v, Writable(fd)) == v && Step(v, Exceptional(fd)) == v
  {
  }
}
