/**
 One client and one server connection, interleaved arbitrarily: the client encodes a list of messages
 and sends each with one Send call, whatever that call manages to send; the server's read calls take
 the stream in arbitrary pieces and parse at most one frame each.
 */
module EndToEnd {
  import opened Bytes
  import opened Framing
  import opened Transport

  /**
   One step: start the next Send call, one answer of send, a read notice with what FIONREAD says of it,
   or one answer of recv.
   */
  datatype Event = NextMessage | Sent(s: SendResult) | Notice(avail: bool) | Received(r: RecvResult)

  /**
   queue: messages whose Send call has not begun; sender: the current call and the bytes in flight;
   conn: the server's buffer and deliveries; calls: the bytes of each finished read call;
   reading: a read call is under way, with the bytes in current; closed: the server has closed.
   */
  datatype Net = Net(queue: seq<Msg>, sender: Sender, conn: ConnState, calls: seq<seq<byte>>, current: seq<byte>,
                     reading: bool, closed: bool)

  function Start(msgs: seq<Msg>): Net {
    Net(msgs, Sender([], [], false), FRESH_CONN, [], [], false, false)
  }

  /** Events that are not possible in a state change nothing. */
  function Step(n: Net, e: Event): Net
    requires AllValid(n.queue)
  {
    match e
    case NextMessage =>
      if n.queue == [] || n.sender.rest != [] then n
      else n.(queue := n.queue[1..], sender := n.sender.(rest := Encode(n.queue[0])))
    case Sent(s) => n.(sender := SendStep(n.sender, s))
    case Notice(avail) =>
      if n.closed || n.reading then n
      else if !avail then n.(closed := true)
      else if n.sender.wire == [] then n // FIONREAD cannot report bytes that were never sent
      else n.(reading := true)
    case Received(Data(bytes)) =>
      if !n.reading || PIECE < |bytes| || !(bytes <= n.sender.wire) then n
      else n.(sender := n.sender.(wire := n.sender.wire[|bytes|..]),
              conn := n.conn.(buf := n.conn.buf + bytes),
              current := n.current + bytes)
    case Received(Interrupted) => n
    case Received(Failed) =>
      // recv first hands over what FIONREAD has seen; then the error ends the loop, and OnRead parses
      if !n.reading || n.current == [] then n
      else n.(conn := ReadCall(n.conn, []), calls := n.calls + [n.current], current := [], reading := false)
  }

  lemma StepQueueValid(n: Net, e: Event)
    requires AllValid(n.queue)
    ensures AllValid(Step(n, e).queue)
  {
    assert n.queue != [] ==> forall m | m in n.queue[1..] :: m in n.queue;
  }

  function Run(n: Net, events: seq<Event>): (r: Net)
    requires AllValid(n.queue)
    ensures AllValid(r.queue)
    decreases events
  {
    if events == [] then n else
    StepQueueValid(n, events[0]);
    Run(Step(n, events[0]), events[1..])
  }

  /** What the server has received on the connection, in order: delivered and buffered. */
  function Arrived(n: Net): seq<byte> {
    Raw(n.conn.got) + n.conn.buf
  }

  /** What has left the client, in order. */
  function Stream(n: Net): seq<byte> {
    Arrived(n) + n.sender.wire
  }

  function Unsent(n: Net): seq<byte>
    requires AllValid(n.queue)
  {
    n.sender.rest + EncodeAll(n.queue)
  }

  /** Every byte on its way from the client's messages to the server's deliveries, in order. */
  function Pipeline(n: Net): seq<byte>
    requires AllValid(n.queue)
  {
    Stream(n) + Unsent(n)
  }

  ghost predicate Control(n: Net) {
    && (!n.reading ==> n.current == [])
    && (n.reading ==> !n.closed && (n.current != [] || n.sender.wire != []))
    && (forall k | 0 <= k < |n.calls| :: n.calls[k] != [])
  }

  /** The connection is where its finished read calls and the bytes of the current one have brought it. */
  ghost predicate Buffered(n: Net) {
    n.conn.got == ReadCalls(n.calls).got && n.conn.buf == ReadCalls(n.calls).buf + n.current
  }

  ghost predicate Kept(msgs: seq<Msg>, n: Net)
    requires AllValid(msgs) && AllValid(n.queue)
  {
    if n.sender.failed then |Pipeline(n)| < |EncodeAll(msgs)| else Pipeline(n) == EncodeAll(msgs)
  }

  ghost predicate Inv(msgs: seq<Msg>, n: Net) {
    AllValid(msgs) && AllValid(n.queue) && Control(n) && Buffered(n) && Kept(msgs, n)
  }

  /** The event gives up the Send call under way. */
  predicate Cuts(n: Net, e: Event) {
    n.sender.rest != [] && e == Sent(HardError)
  }

  // ---- one lemma for each kind of event ----

  lemma Regroup(a: seq<byte>, b: seq<byte>, c: seq<byte>)
    ensures a + b + c == a + (b + c)
  {
  }

  lemma ParseKeepsBytes(n: Net)
    requires Buffered(n)
    ensures ReadCall(n.conn, []) == ReadCalls(n.calls + [n.current])
    ensures var c := ReadCall(n.conn, []); Raw(c.got) + c.buf == Arrived(n)
  {
    hide ParseOne, Raw, Frames, Flatten;
    var c := ReadCalls(n.calls);
    assert (n.calls + [n.current])[..|n.calls|] == n.calls;
    assert n.conn.buf + [] == n.conn.buf;
    FlattenSnoc(n.calls, n.current);
    IncrementalIsOneShot(n.calls, 0);
    IncrementalIsOneShot(n.calls + [n.current], 0);
    hide ReadCalls, ReadCall;
    Regroup(Raw(n.conn.got), c.buf, n.current);
  }

  lemma ParseStep(n: Net)
    requires AllValid(n.queue) && Buffered(n)
    ensures var n' := Step(n, Received(Failed)); Buffered(n') && Stream(n') == Stream(n) && Unsent(n') == Unsent(n)
  {
    hide ReadCall, Raw, ReadCalls, EncodeAll;
    ParseKeepsBytes(n);
    var c := ReadCalls(n.calls + [n.current]);
    assert c.buf + [] == c.buf;
  }

  lemma DataStep(n: Net, bytes: seq<byte>)
    requires AllValid(n.queue) && Buffered(n)
    ensures var n' := Step(n, Received(Data(bytes)));
            Buffered(n') && Stream(n') == Stream(n) && Unsent(n') == Unsent(n)
  {
    hide Raw, ReadCalls, EncodeAll;
    var n' := Step(n, Received(Data(bytes)));
    if n' != n {
      var w, w' := n.sender.wire, n'.sender.wire;
      assert w == bytes + w';
      hide Step;
      Regroup(ReadCalls(n.calls).buf, n.current, bytes);
      Regroup(Raw(n.conn.got), n.conn.buf, bytes);
      Regroup(Arrived(n), bytes, w');
    }
  }

  lemma SentStep(n: Net, r: SendResult)
    requires AllValid(n.queue)
    ensures var n' := Step(n, Sent(r));
            && n'.sender.failed == (n.sender.failed || Cuts(n, Sent(r)))
            && Stream(n) <= Stream(n')
            && if Cuts(n, Sent(r)) then |Pipeline(n')| < |Pipeline(n)| else Pipeline(n') == Pipeline(n)
  {
    hide Raw, EncodeAll;
    var n' := Step(n, Sent(r));
    assert Arrived(n') == Arrived(n);
    if n' != n {
      hide Arrived;
      if r.Accepted? {
        var q, piece := EncodeAll(n.queue), n.sender.rest[..r.n];
        assert n'.sender.wire == n.sender.wire + piece && n.sender.rest == piece + n'.sender.rest;
        hide Step, SendStep;
        Regroup(Arrived(n), n.sender.wire, piece);
        Regroup(piece, n'.sender.rest, q);
        Regroup(Stream(n), piece, Unsent(n'));
      } else {
        assert n'.sender == Sender(n.sender.wire, [], true);
        assert |Unsent(n')| == |EncodeAll(n.queue)|;
        assert Stream(n') == Stream(n);
      }
    }
  }

  lemma NextStep(n: Net)
    requires AllValid(n.queue)
    ensures var n' := Step(n, NextMessage); AllValid(n'.queue) && Stream(n') == Stream(n) && Unsent(n') == Unsent(n)
  {
    hide Raw, Encode;
    StepQueueValid(n, NextMessage);
    assert n.queue != [] ==> [] + EncodeAll(n.queue) == Encode(n.queue[0]) + EncodeAll(n.queue[1..]);
  }

  /** A step keeps every byte and its place, except that a hard error drops what its call had left. */
  lemma StepPipeline(n: Net, e: Event)
    requires AllValid(n.queue) && Buffered(n)
    ensures AllValid(Step(n, e).queue) && Buffered(Step(n, e))
    ensures Step(n, e).sender.failed == (n.sender.failed || Cuts(n, e))
    ensures Stream(n) <= Stream(Step(n, e))
    ensures if Cuts(n, e) then |Pipeline(Step(n, e))| < |Pipeline(n)| else Pipeline(Step(n, e)) == Pipeline(n)
  {
    StepQueueValid(n, e);
    hide Arrived, EncodeAll, ReadCall, ReadCalls, SendStep, Encode;
    match e
    case NextMessage => NextStep(n);
    case Sent(r) => SentStep(n, r);
    case Notice(avail) =>
    case Received(Data(bytes)) => DataStep(n, bytes);
    case Received(Interrupted) =>
    case Received(Failed) => ParseStep(n);
  }

  lemma StepControl(n: Net, e: Event)
    requires AllValid(n.queue) && Control(n)
    ensures Control(Step(n, e))
  {
    hide ReadCall, Encode, AllValid;
  }

  lemma StepInv(msgs: seq<Msg>, n: Net, e: Event)
    requires Inv(msgs, n)
    ensures Inv(msgs, Step(n, e)) && Stream(n) <= Stream(Step(n, e))
    ensures Step(n, e).sender.failed == (n.sender.failed || Cuts(n, e))
  {
    StepPipeline(n, e);
    StepControl(n, e);
    hide Step, Cuts, Pipeline, Stream, Control, Buffered, EncodeAll, AllValid;
  }

  lemma {:induction false} RunInv(msgs: seq<Msg>, n: Net, events: seq<Event>)
    requires Inv(msgs, n)
    ensures Inv(msgs, Run(n, events))
    decreases events
  {
    if events != [] {
      StepInv(msgs, n, events[0]);
      RunInv(msgs, Step(n, events[0]), events[1..]);
    }
  }

  lemma StartInv(msgs: seq<Msg>)
    requires AllValid(msgs)
    ensures Inv(msgs, Start(msgs))
  {
    assert Pipeline(Start(msgs)) == EncodeAll(msgs);
  }

  // ---- where the client's stream is cut ----

  /**
   The first Send call of a run that send answers with a hard error: the index of its message among all
   messages sent or to be sent, or None.
   */
  function FirstCut(msgs: seq<Msg>, n: Net, events: seq<Event>): Option<int>
    requires AllValid(n.queue)
    decreases events
  {
    if events == [] then None
    else if Cuts(n, events[0]) then Some(|msgs| - |n.queue| - 1)
    else
      StepQueueValid(n, events[0]);
      FirstCut(msgs, Step(n, events[0]), events[1..])
  }

  /** No call has given up: the queue is the end of the messages, and the current call sends the one before it. */
  ghost predicate Uncut(msgs: seq<Msg>, n: Net) {
    && AllValid(msgs) && AllValid(n.queue)
    && !n.sender.failed && |n.queue| <= |msgs|
    && n.queue == msgs[|msgs| - |n.queue|..]
    && (n.sender.rest != [] ==>
          |n.queue| < |msgs| && IsSuffix(n.sender.rest, Encode(msgs[|msgs| - |n.queue| - 1])))
  }

  ghost predicate IsSuffix(a: seq<byte>, s: seq<byte>) {
    |a| <= |s| && a == s[|s| - |a|..]
  }

  lemma SuffixDrop(a: seq<byte>, s: seq<byte>, n: nat)
    requires n <= |a|
    ensures IsSuffix(s, s) && (IsSuffix(a, s) ==> IsSuffix(a[n..], s))
  {
  }

  lemma StepUncut(msgs: seq<Msg>, n: Net, e: Event)
    requires Uncut(msgs, n) && !Cuts(n, e)
    ensures Uncut(msgs, Step(n, e))
  {
    hide ParseOne, Encode, ReadCall;
    StepQueueValid(n, e);
    match e
    case NextMessage =>
      if n.queue != [] {
        SuffixDrop([], Encode(n.queue[0]), 0);
      }
    case Sent(r) =>
      if n.sender.rest != [] && r.Accepted? && r.n <= |n.sender.rest| {
        SuffixDrop(n.sender.rest, Encode(msgs[|msgs| - |n.queue| - 1]), r.n);
      }
      hide IsSuffix;
    case _ =>
  }

  lemma AllValidConcat(a: seq<Msg>, b: seq<Msg>)
    requires AllValid(a) && AllValid(b)
    ensures AllValid(a + b) && (a != [] ==> AllValid(a[1..]))
  {
  }

  lemma {:induction false} EncodeAllConcat(a: seq<Msg>, b: seq<Msg>)
    requires AllValid(a) && AllValid(b)
    ensures AllValid(a + b) && EncodeAll(a + b) == EncodeAll(a) + EncodeAll(b)
  {
    AllValidConcat(a, b);
    if a == [] {
      assert a + b == b;
    } else {
      assert (a + b)[1..] == a[1..] + b && (a + b)[0] == a[0];
      assert ValidMsg(a[0]);
      hide Encode, AllValid;
      EncodeAllConcat(a[1..], b);
      Regroup(Encode(a[0]), EncodeAll(a[1..]), EncodeAll(b));
    }
  }

  lemma PrefixOf(a: seq<byte>, b: seq<byte>, s: seq<byte>, rest: seq<byte>)
    requires a + b == s + rest && |rest| <= |b|
    ensures a <= s
  {
    assert (a + b)[..|a|] == a && (s + rest)[..|a|] == s[..|a|];
  }

  /** A call that gives up has the whole messages before its own in the stream already. */
  lemma CutStream(msgs: seq<Msg>, n: Net)
    requires Inv(msgs, n) && Uncut(msgs, n) && n.sender.rest != []
    ensures EncodeAll(msgs[..|msgs| - |n.queue| - 1]) <= Stream(n)
  {
    hide Arrived, Buffered, Control, Encode;
    var k := |msgs| - |n.queue| - 1;
    var q := EncodeAll(n.queue);
    assert Pipeline(n) == EncodeAll(msgs);
    assert msgs == msgs[..k] + ([msgs[k]] + n.queue);
    EncodeAllConcat([msgs[k]], n.queue);
    EncodeAllConcat(msgs[..k], [msgs[k]] + n.queue);
    assert EncodeAll([msgs[k]]) == Encode(msgs[k]);
    hide EncodeAll, Stream;
    PrefixOf(EncodeAll(msgs[..k]), Encode(msgs[k]) + q, Stream(n), n.sender.rest + q);
  }

  lemma {:induction false} StreamGrowsRun(msgs: seq<Msg>, n: Net, events: seq<Event>)
    requires Inv(msgs, n)
    ensures Stream(n) <= Stream(Run(n, events)) && (n.sender.failed ==> Run(n, events).sender.failed)
    decreases events
  {
    if events != [] {
      StepQueueValid(n, events[0]);
      hide Inv, Stream, Encode, ParseOne, Step;
      StepInv(msgs, n, events[0]);
      StreamGrowsRun(msgs, Step(n, events[0]), events[1..]);
    }
  }

  lemma {:induction false} CutRun(msgs: seq<Msg>, n: Net, events: seq<Event>)
    requires Inv(msgs, n) && Uncut(msgs, n)
    ensures match FirstCut(msgs, n, events)
            case None => !Run(n, events).sender.failed
            case Some(k) =>
              && Run(n, events).sender.failed && 0 <= k < |msgs|
              && EncodeAll(msgs[..k]) <= Stream(Run(n, events))
    decreases events
  {
    hide Inv, Stream, Encode, EncodeAll;
    if events != [] {
      StepInv(msgs, n, events[0]);
      if Cuts(n, events[0]) {
        CutStream(msgs, n);
        StreamGrowsRun(msgs, Step(n, events[0]), events[1..]);
      } else {
        hide Step;
        StepUncut(msgs, n, events[0]);
        CutRun(msgs, Step(n, events[0]), events[1..]);
      }
    }
  }

  /** Where the cut of FirstCut is in the run: at event j, or at no event if j is their number. */
  lemma {:induction false} CutIndex(msgs: seq<Msg>, n: Net, events: seq<Event>) returns (j: nat)
    requires Uncut(msgs, n)
    ensures j <= |events| && (j < |events| <==> FirstCut(msgs, n, events).Some?)
    ensures forall h | 0 <= h < j :: !Cuts(Run(n, events[..h]), events[h])
    ensures j < |events| ==>
              var c, k := Run(n, events[..j]), FirstCut(msgs, n, events).value;
              && Cuts(c, events[j]) && 0 <= k < |msgs|
              && c.queue == msgs[k + 1..] && IsSuffix(c.sender.rest, Encode(msgs[k]))
    decreases events
  {
    hide Encode, IsSuffix;
    if events == [] {
      j := 0;
    } else if Cuts(n, events[0]) {
      assert events[..0] == [];
      j := 0;
    } else {
      StepUncut(msgs, n, events[0]);
      hide Cuts, Step, Uncut;
      var i := CutIndex(msgs, Step(n, events[0]), events[1..]);
      j := i + 1;
      forall h | 0 <= h < j ensures !Cuts(Run(n, events[..h]), events[h]) {
        RunFirst(n, events, h);
      }
      RunFirst(n, events, j);
    }
  }

  lemma RunFirst(n: Net, events: seq<Event>, h: nat)
    requires AllValid(n.queue) && h <= |events| && events != []
    ensures AllValid(Step(n, events[0]).queue)
    ensures Run(n, events[..h]) == if h == 0 then n else Run(Step(n, events[0]), events[1..][..h - 1])
  {
    StepQueueValid(n, events[0]);
    hide Step;
    if h > 0 {
      assert events[..h][1..] == events[1..][..h - 1];
    }
  }

  /**
   What FirstCut finds: event j is the first hard error that meets a Send call with bytes left, and
   message k is the one of that call; there is none if j is the number of events.
   */
  lemma FirstCutIs(msgs: seq<Msg>, events: seq<Event>) returns (j: nat)
    requires AllValid(msgs)
    ensures j <= |events| && (FirstCut(msgs, Start(msgs), events) == None <==> j == |events|)
    ensures forall h | 0 <= h < j && events[h] == Sent(HardError) ::
              Run(Start(msgs), events[..h]).sender.rest == []
    ensures j < |events| ==>
              var n, k := Run(Start(msgs), events[..j]), FirstCut(msgs, Start(msgs), events).value;
              && events[j] == Sent(HardError) && n.sender.rest != []
              && 0 <= k < |msgs| && n.queue == msgs[k + 1..]
              && |n.sender.rest| <= |Encode(msgs[k])|
              && n.sender.rest == Encode(msgs[k])[|Encode(msgs[k])| - |n.sender.rest|..]
  {
    StartCut(msgs);
    j := CutIndex(msgs, Start(msgs), events);
    hide Run, Step, FirstCut, Encode;
    forall h | 0 <= h < j && events[h] == Sent(HardError)
      ensures Run(Start(msgs), events[..h]).sender.rest == []
    {
      assert !Cuts(Run(Start(msgs), events[..h]), events[h]);
    }
  }

  lemma StartCut(msgs: seq<Msg>)
    requires AllValid(msgs)
    ensures Inv(msgs, Start(msgs)) && Uncut(msgs, Start(msgs))
  {
    StartInv(msgs);
    assert msgs[0..] == msgs;
  }

  // ---- what is delivered ----

  /**
   At every point of every run the bytes delivered, buffered, in flight and unsent are, in this order,
   the encoding of all messages, if and only if no send has been answered with a hard error.
   */
  lemma Conservation(msgs: seq<Msg>, events: seq<Event>)
    requires AllValid(msgs)
    ensures Pipeline(Run(Start(msgs), events)) == EncodeAll(msgs) <==>
            FirstCut(msgs, Start(msgs), events) == None
  {
    StartCut(msgs);
    RunInv(msgs, Start(msgs), events);
    CutRun(msgs, Start(msgs), events);
  }

  lemma GotIsReceived(msgs: seq<Msg>, n: Net)
    requires Inv(msgs, n)
    ensures Flatten(n.calls) <= Stream(n)
    ensures forall limit: nat {:trigger Frames(limit, Flatten(n.calls))} | limit <= |n.conn.got| ::
              Frames(limit, Flatten(n.calls)) == n.conn.got[..limit]
  {
    hide ParseOne, Encode, EncodeAll, Pipeline, Raw, ReadCalls;
    var c := ReadCalls(n.calls);
    IncrementalIsOneShot(n.calls, 0);
    assert c.got + [] == c.got;
    assert Stream(n) == Raw(c.got) + c.buf + (n.current + n.sender.wire);
    assert Flatten(n.calls) + [] == Flatten(n.calls);
    forall limit: nat | limit <= |c.got| ensures Frames(limit, Flatten(n.calls)) == c.got[..limit] {
      FramesPrefix(limit, |c.got|, Flatten(n.calls), []);
    }
  }

  lemma FirstMessages(msgs: seq<Msg>, n: Net, k: nat)
    requires Inv(msgs, n) && k <= |msgs| && EncodeAll(msgs[..k]) <= Stream(n)
    ensures forall i | 0 <= i < Min(|n.conn.got|, k) :: n.conn.got[i] == Delivered(msgs[i])
  {
    hide ParseOne, Encode, Pipeline, Raw, ReadCalls;
    GotIsReceived(msgs, n);
    hide Inv, Frames;
    var e, r, all := EncodeAll(msgs[..k]), Flatten(n.calls), Stream(n);
    hide Stream, EncodeAll;
    var m := Min(|n.conn.got|, k);
    assert all == e + all[|e|..] && all == r + all[|r|..];
    FramesPrefix(m, m, e, all[|e|..]);
    FramesPrefix(m, m, r, all[|r|..]);
    FramesOfEncoded(m, msgs[..k]);
    assert n.conn.got[..m] == Frames(m, e);
    forall i | 0 <= i < m ensures n.conn.got[i] == Delivered(msgs[i]) {
      assert n.conn.got[i] == n.conn.got[..m][i];
    }
  }

  /**
   For every run: without a hard error the deliveries are the first messages; with one, they are the
   first messages up to the one whose Send call it hit.
   */
  lemma DeliveredInOrder(msgs: seq<Msg>, events: seq<Event>)
    requires AllValid(msgs)
    ensures var got := Run(Start(msgs), events).conn.got;
            match FirstCut(msgs, Start(msgs), events)
            case None => DeliversPrefix(got, msgs)
            case Some(k) =>
              && 0 <= k < |msgs|
              && forall i | 0 <= i < Min(|got|, k) :: got[i] == Delivered(msgs[i])
  {
    var n := Run(Start(msgs), events);
    StartCut(msgs);
    RunInv(msgs, Start(msgs), events);
    CutRun(msgs, Start(msgs), events);
    hide ParseOne, Encode, EncodeAll, ReadCalls, Consumes, Raw, DeliversPrefix, Run, FirstCut;
    match FirstCut(msgs, Start(msgs), events) {
      case None =>
        ReadCallsConsume(n.calls);
        GotIsReceived(msgs, n);
        assert Stream(n) <= Pipeline(n);
        PrefixDelivered(Flatten(n.calls), n.conn.got, ReadCalls(n.calls).buf, msgs);
      case Some(k) =>
        FirstMessages(msgs, n, k);
    }
  }

  /** What goes wrong in SkippedMessage: the first Send call fails at once, the second sends its 8 bytes. */
  const SKIPPING: seq<Event> := [NextMessage, Sent(HardError), NextMessage, Sent(Accepted(HEAD_SIZE))]

  lemma RunOne(n: Net, a: Event)
    requires AllValid(n.queue)
    ensures Run(n, [a]) == Step(n, a)
  {
    hide Step;
    assert [a][1..] == [];
  }

  lemma RunTwo(n: Net, a: Event, b: Event)
    requires AllValid(n.queue)
    ensures AllValid(Step(n, a).queue)
    ensures Run(n, [a, b]) == Step(Step(n, a), b)
  {
    StepQueueValid(n, a);
    hide Step, Run;
    assert [a, b] == [a] + [b];
    RunConcat(n, [a], [b]);
    RunOne(n, a);
    RunOne(Step(n, a), b);
  }

  function Skipped(m1: Msg): Net {
    Net([m1], Sender([], [], true), FRESH_CONN, [], [], false, false)
  }

  lemma RefusedSend(m0: Msg, m1: Msg)
    requires ValidMsg(m0) && ValidMsg(m1)
    ensures Cuts(Step(Start([m0, m1]), NextMessage), Sent(HardError))
    ensures Step(Step(Start([m0, m1]), NextMessage), Sent(HardError)) == Skipped(m1)
  {
    hide Encode;
    assert [m0, m1][1..] == [m1];
  }

  lemma SmallSend(m1: Msg)
    requires ValidMsg(m1) && m1.payload == []
    ensures Step(Step(Skipped(m1), NextMessage), Sent(Accepted(HEAD_SIZE)))
         == Net([], Sender(Encode(m1), [], true), FRESH_CONN, [], [], false, false)
  {
    var w := Encode(m1);
    hide Encode;
    assert w[..HEAD_SIZE] == w && w[HEAD_SIZE..] == [] && [] + w == w && [m1][1..] == [];
  }

  lemma SkippingSends(m0: Msg, m1: Msg)
    requires ValidMsg(m0) && ValidMsg(m1) && m1.payload == []
    ensures Run(Start([m0, m1]), SKIPPING) == Net([], Sender(Encode(m1), [], true), FRESH_CONN, [], [], false, false)
    ensures FirstCut([m0, m1], Start([m0, m1]), SKIPPING) == Some(0)
  {
    var n0 := Start([m0, m1]);
    var refused, small := [NextMessage, Sent(HardError)], [NextMessage, Sent(Accepted(HEAD_SIZE))];
    assert SKIPPING == refused + small;
    assert SKIPPING[0] == NextMessage && SKIPPING[1..][0] == Sent(HardError);
    RefusedSend(m0, m1);
    SmallSend(m1);
    RunConcat(n0, refused, small);
    RunTwo(n0, NextMessage, Sent(HardError));
    RunTwo(Skipped(m1), NextMessage, Sent(Accepted(HEAD_SIZE)));
    assert n0.sender.rest == [] && Step(n0, NextMessage).queue == [m1];
    hide Encode, Run, SKIPPING;
  }

  lemma OnePiece(w: seq<byte>)
    requires |w| <= PIECE
    ensures var script := [Data(w), Failed];
            Bounded(script) && Drain(script) == w && Failed !in script[..|script| - 1]
  {
    var script := [Data(w), Failed];
    assert script[1..] == [Failed] && script[..1] == [Data(w)];
    assert Drain([Failed]) == [];
  }

  /** A message whose Send call is refused outright is skipped, and the next one is delivered in its place. */
  lemma SkippedMessage(m0: Msg, m1: Msg)
    requires AllValid([m0, m1]) && ValidMsg(m1) && m1.payload == []
    ensures FirstCut([m0, m1], Start([m0, m1]), SKIPPING) == Some(0)
    ensures var arrival := [Notice(true)] + Arrivals([Data(Encode(m1)), Failed]);
            Run(Start([m0, m1]), SKIPPING + arrival).conn.got == [Delivered(m1)]
  {
    hide Encode, ParseOne, Run, FirstCut, Step, SKIPPING;
    var w := Encode(m1);
    var script := [Data(w), Failed];
    var n := Net([], Sender(w, [], true), FRESH_CONN, [], [], false, false);
    assert m0 in [m0, m1];
    SkippingSends(m0, m1);
    OnePiece(w);
    ParseEncoded(m1, []);
    assert w + [] == w && [] + w == w;
    hide Drain, Arrivals, Bounded, AllValid, ValidMsg;
    RunConcat(Start([m0, m1]), SKIPPING, [Notice(true)] + Arrivals(script));
    ReadCallIsRun(n, script);
  }

  lemma {:induction false} AllDeliveredBytes(got: seq<Delivery>, msgs: seq<Msg>)
    requires AllValid(msgs) && DeliversPrefix(got, msgs) && |got| == |msgs|
    ensures Raw(got) == EncodeAll(msgs)
  {
    hide Encode;
    if msgs != [] {
      assert got[0] == Delivered(msgs[0]);
      AllDeliveredBytes(got[1..], msgs[1..]);
    }
  }

  /**
   For every run: every message has been delivered if and only if no send was answered with a hard error
   and, counted back from the last read call, the messages arrived no faster than one for each call.
   Every read call of a run carries at least a byte, because the server closes on a notice without one.
   */
  lemma AllDeliveredIff(msgs: seq<Msg>, events: seq<Event>)
    requires AllValid(msgs)
    ensures var n := Run(Start(msgs), events);
            && (forall k | 0 <= k < |n.calls| :: n.calls[k] != [])
            && (DeliversPrefix(n.conn.got, msgs) && |n.conn.got| == |msgs| <==>
                && FirstCut(msgs, Start(msgs), events) == None
                && forall i: nat | i <= |n.calls| :: |msgs| <= Allowance(n.calls, i))
  {
    var n := Run(Start(msgs), events);
    StartCut(msgs);
    RunInv(msgs, Start(msgs), events);
    CutRun(msgs, Start(msgs), events);
    DeliveredInOrder(msgs, events);
    DeliveryBound(n.calls);
    if DeliversPrefix(n.conn.got, msgs) && |n.conn.got| == |msgs| {
      AllDeliveredBytes(n.conn.got, msgs);
      assert Raw(n.conn.got) <= Pipeline(n);
    }
  }

  ghost predicate Silent(n: Net) {
    !n.reading && (n.closed || (n.queue == [] && n.sender.rest == [] && n.sender.wire == []))
  }

  lemma EncodeAllEmpty(msgs: seq<Msg>)
    requires AllValid(msgs) && EncodeAll(msgs) == []
    ensures msgs == []
  {
    hide Encode;
  }

  lemma OverIsSilent(msgs: seq<Msg>, n: Net)
    requires Inv(msgs, n) && (n.closed || Flatten(n.calls) == EncodeAll(msgs))
    ensures Silent(n)
  {
    hide ParseOne, Encode;
    if !n.closed {
      IncrementalIsOneShot(n.calls, 0);
      var b, w, r, q := ReadCalls(n.calls).buf, n.sender.wire, n.sender.rest, EncodeAll(n.queue);
      assert |Pipeline(n)| == |Raw(n.conn.got)| + |b| + |n.current| + |w| + |r| + |q|;
      assert |q| == 0;
      EncodeAllEmpty(n.queue);
    }
  }

  lemma {:induction false} SilentRun(n: Net, more: seq<Event>)
    requires AllValid(n.queue) && Silent(n)
    ensures Run(n, more).conn == n.conn
    decreases more
  {
    hide ParseOne, Encode;
    if more != [] {
      StepQueueValid(n, more[0]);
      SilentRun(Step(n, more[0]), more[1..]);
    }
  }

  lemma {:induction false} RunConcat(n: Net, events: seq<Event>, more: seq<Event>)
    requires AllValid(n.queue)
    ensures Run(n, events + more) == Run(Run(n, events), more)
    decreases events
  {
    hide Step;
    if events == [] {
      assert events + more == more;
    } else {
      StepQueueValid(n, events[0]);
      RunConcat(Step(n, events[0]), events[1..], more);
      assert (events + more)[1..] == events[1..] + more;
    }
  }

  /**
   Once the server has closed or all bytes have been read, nothing more is ever delivered, whatever
   follows: a frame still in the buffer then stays there.
   */
  lemma DeliveriesAreFinal(msgs: seq<Msg>, events: seq<Event>, more: seq<Event>)
    requires AllValid(msgs)
    requires var n := Run(Start(msgs), events); n.closed || Flatten(n.calls) == EncodeAll(msgs)
    ensures Run(Start(msgs), events + more).conn == Run(Start(msgs), events).conn
  {
    StartInv(msgs);
    RunInv(msgs, Start(msgs), events);
    OverIsSilent(msgs, Run(Start(msgs), events));
    SilentRun(Run(Start(msgs), events), more);
    RunConcat(Start(msgs), events, more);
  }

  /**
   A read notice without bytes, on a connection that is not in a read call, closes it: whatever follows,
   nothing more is received or delivered, not even what is still in flight.
   */
  lemma NoticeWithoutBytesCloses(msgs: seq<Msg>, events: seq<Event>, more: seq<Event>)
    requires AllValid(msgs) && !Run(Start(msgs), events).reading
    ensures Run(Start(msgs), events + [Notice(false)]).closed
    ensures Run(Start(msgs), events + [Notice(false)] + more).conn == Run(Start(msgs), events).conn
  {
    var n := Run(Start(msgs), events);
    RunConcat(Start(msgs), events, [Notice(false)]);
    RunOne(n, Notice(false));
    assert Step(n, Notice(false)) == n.(closed := true);
    hide Run;
    DeliveriesAreFinal(msgs, events + [Notice(false)], more);
  }

  // ---- the loops are runs of this machine ----

  function Answers(results: seq<SendResult>): seq<Event> {
    seq(|results|, i requires 0 <= i < |results| => Sent(results[i]))
  }

  /** The iterations of one Send call are a run: JsClient.Send and the machine agree. */
  lemma {:induction false} SendCallIsRun(n: Net, results: seq<SendResult>)
    requires AllValid(n.queue)
    ensures Run(n, Answers(results)) == n.(sender := SendRun(n.sender, results))
    decreases results
  {
    if results == [] {
      assert Answers(results) == [];
    } else {
      var pre, last := results[..|results| - 1], results[|results| - 1];
      assert Answers(results) == Answers(pre) + [Sent(last)];
      RunConcat(n, Answers(pre), [Sent(last)]);
      SendCallIsRun(n, pre);
      assert [Sent(last)][1..] == [];
    }
  }

  function Arrivals(script: seq<RecvResult>): seq<Event> {
    seq(|script|, i requires 0 <= i < |script| => Received(script[i]))
  }

  lemma ReadCallConcat(c: ConnState, a: seq<byte>, b: seq<byte>)
    ensures ReadCall(c.(buf := c.buf + a), b) == ReadCall(c, a + b)
  {
    assert c.buf + a + b == c.buf + (a + b);
  }

  /** The state after a recv loop that hands over bytes, and the parse behind it. */
  function ReadDone(n: Net, bytes: seq<byte>): Net
    requires bytes <= n.sender.wire
  {
    n.(conn := ReadCall(n.conn, bytes), calls := n.calls + [n.current + bytes],
       sender := n.sender.(wire := n.sender.wire[|bytes|..]), current := [], reading := false)
  }

  lemma RecvData(n: Net, bytes: seq<byte>, more: seq<byte>)
    requires AllValid(n.queue) && n.reading && |bytes| <= PIECE && bytes + more <= n.sender.wire
    ensures var n' := Step(n, Received(Data(bytes)));
            && n'.queue == n.queue && n'.reading && more <= n'.sender.wire
            && n'.current + more == n.current + (bytes + more)
            && ReadDone(n', more) == ReadDone(n, bytes + more)
  {
    DropPrefix(n.sender.wire, bytes, more);
    ReadCallConcat(n.conn, bytes, more);
    Regroup(n.current, bytes, more);
    hide ReadCall;
  }

  lemma RecvFailed(n: Net)
    requires AllValid(n.queue) && n.reading && n.current != []
    ensures Step(n, Received(Failed)) == ReadDone(n, [])
  {
    hide ReadCall;
    assert n.current + [] == n.current && n.sender.wire[0..] == n.sender.wire;
  }

  /** An answer that is not the last one. */
  lemma {:induction false} ScriptTail(script: seq<RecvResult>)
    requires 2 <= |script| && Bounded(script)
    requires script[|script| - 1] == Failed && Failed !in script[..|script| - 1]
    ensures var r, tail := script[0], script[1..];
            && r != Failed && (r.Data? ==> |r.bytes| <= PIECE)
            && Drain(script) == (if r.Data? then r.bytes else []) + Drain(tail)
            && Bounded(tail) && tail[|tail| - 1] == Failed && Failed !in tail[..|tail| - 1]
            && Arrivals(script)[0] == Received(r) && Arrivals(script)[1..] == Arrivals(tail)
  {
    var r, tail := script[0], script[1..];
    assert r in script && r in script[..|script| - 1];
    assert tail[..|tail| - 1] == script[..|script| - 1][1..];
    assert forall x | x in tail :: x in script;
    assert Arrivals(script)[1..] == Arrivals(tail);
  }

  lemma {:induction false} RecvLoopIsRun(n: Net, script: seq<RecvResult>)
    requires AllValid(n.queue) && Bounded(script) && Drain(script) <= n.sender.wire
    requires script != [] && script[|script| - 1] == Failed && Failed !in script[..|script| - 1]
    requires n.reading && n.current + Drain(script) != []
    ensures Run(n, Arrivals(script)) == ReadDone(n, Drain(script))
    decreases script
  {
    hide ReadDone;
    if |script| == 1 {
      assert Arrivals(script) == [Received(Failed)] && Arrivals(script)[1..] == [];
      RecvFailed(n);
    } else {
      var r, tail := script[0], script[1..];
      ScriptTail(script);
      hide Bounded, Drain, Arrivals;
      if r.Data? {
        RecvData(n, r.bytes, Drain(tail));
        hide Step;
      }
      RecvLoopIsRun(Step(n, Received(r)), tail);
    }
  }

  /**
   A read notice with bytes, the iterations of the recv loop and the parse behind it are a run of the
   machine: one read call of the bytes drained.
   */
  lemma ReadCallIsRun(n: Net, script: seq<RecvResult>)
    requires AllValid(n.queue) && Bounded(script) && [] < Drain(script) <= n.sender.wire
    requires script != [] && script[|script| - 1] == Failed && Failed !in script[..|script| - 1]
    requires !n.reading && !n.closed && n.current == []
    ensures Run(n, [Notice(true)] + Arrivals(script)) ==
            n.(conn := ReadCall(n.conn, Drain(script)), calls := n.calls + [Drain(script)],
               sender := n.sender.(wire := n.sender.wire[|Drain(script)|..]))
  {
    hide ReadCall, Arrivals, Drain;
    assert ([Notice(true)] + Arrivals(script))[1..] == Arrivals(script);
    RecvLoopIsRun(Step(n, Notice(true)), script);
    assert [] + Drain(script) == Drain(script);
  }

  lemma DropPrefix(w: seq<byte>, a: seq<byte>, b: seq<byte>)
    requires a + b <= w
    ensures a <= w && b <= w[|a|..] && w[|a|..][|b|..] == w[|a + b|..]
  {
    assert w[..|a|] == (a + b)[..|a|] == a;
    assert w[|a|..][..|b|] == w[..|a + b|][|a|..] == b;
  }
}
