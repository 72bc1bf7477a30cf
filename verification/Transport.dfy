/**
 The results send and recv can give, and the two loops built on them: the client's chunked send loop
 as a step function, and the bytes a server's recv loop collects.
 */
module Transport {
  import opened Bytes

  /** MAX_SEND_RCV_LEN on the client and READ_BUF_SIZE on the server. */
  const PIECE: int := 8192

  /**
   On the client a send that returns 0 is WouldBlock or HardError too, by what WSAGetLastError says then:
   its loop asks only that.
   */
  datatype SendResult = Accepted(n: nat) | WouldBlock | HardError
  datatype RecvResult = Data(bytes: seq<byte>) | Interrupted | Failed

  // ---- receiving ----

  /** Everything recv hands over before the first error other than an interruption. */
  function Drain(script: seq<RecvResult>): seq<byte> {
    if script == [] then [] else
    match script[0]
    case Data(bytes) => bytes + Drain(script[1..])
    case Interrupted => Drain(script[1..])
    case Failed => []
  }

  /** What Drain collects: the bytes of each answer in turn, up to the first error other than an interruption. */
  lemma {:induction false} DrainSplit(a: seq<RecvResult>, r: RecvResult, b: seq<RecvResult>)
    requires Failed !in a
    ensures Drain(a + [r] + b) == Drain(a) +
              match r
              case Data(bytes) => bytes + Drain(b)
              case Interrupted => Drain(b)
              case Failed => []
    ensures Drain([]) == []
  {
    if a == [] {
      assert a + [r] + b == [r] + b && ([r] + b)[1..] == b;
    } else {
      var tail := a[1..];
      assert (a + [r] + b)[1..] == tail + [r] + b && (a + [r] + b)[0] == a[0];
      assert a[0] != Failed && forall x | x in tail :: x in a;
      DrainSplit(tail, r, b);
    }
  }

  ghost predicate Bounded(script: seq<RecvResult>) {
    forall r | r in script && r.Data? :: |r.bytes| <= PIECE
  }

  // ---- sending ----

  /** The stream so far, what the current call still has to send, and whether a call gave up. */
  datatype Sender = Sender(wire: seq<byte>, rest: seq<byte>, failed: bool)

  /** One iteration of the send loop; a result no send call can give changes nothing. */
  function SendStep(s: Sender, r: SendResult): Sender {
    if s.rest == [] then s else
    match r
    case Accepted(n) =>
      if 1 <= n <= Min(PIECE, |s.rest|) then Sender(s.wire + s.rest[..n], s.rest[n..], s.failed) else s
    case WouldBlock => s
    case HardError => Sender(s.wire, [], true)
  }

  function SendRun(s: Sender, results: seq<SendResult>): Sender {
    if results == [] then s
    else SendStep(SendRun(s, results[..|results| - 1]), results[|results| - 1])
  }

  /**
   At every iteration, whatever send answered: the stream has gained exactly the bytes that no longer
   remain, or the call has given up having sent a proper prefix.
   */
  lemma {:induction false} SendRunSplits(wire: seq<byte>, data: seq<byte>, results: seq<SendResult>)
    ensures var s := SendRun(Sender(wire, data, false), results);
            if s.failed then s.rest == [] && wire <= s.wire < wire + data
            else s.wire + s.rest == wire + data && wire <= s.wire
  {
    if results == [] {
    } else {
      var pre := results[..|results| - 1];
      SendRunSplits(wire, data, pre);
      var s := SendRun(Sender(wire, data, false), pre);
      forall n | 0 <= n <= |s.rest| ensures s.wire + s.rest[..n] + s.rest[n..] == s.wire + s.rest {
      }
    }
  }

  lemma SendRunSnoc(s: Sender, results: seq<SendResult>, r: SendResult)
    ensures SendRun(s, results + [r]) == SendStep(SendRun(s, results), r)
  {
    assert (results + [r])[..|results|] == results;
  }

  /** A call that has had these answers and not given up: the first offset bytes of its data are in the stream. */
  ghost predicate SoFar(start: Sender, offset: nat, wire: seq<byte>, results: seq<SendResult>) {
    && offset <= |start.rest|
    && wire == start.wire + start.rest[..offset]
    && HardError !in results
    && SendRun(start, results) == Sender(wire, start.rest[offset..], false)
  }

  lemma SoFarNothing(start: Sender)
    requires !start.failed
    ensures SoFar(start, 0, start.wire, [])
  {
    assert start.rest[0..] == start.rest && start.wire + start.rest[..0] == start.wire;
  }

  lemma SoFarBlocked(start: Sender, offset: nat, wire: seq<byte>, results: seq<SendResult>)
    requires SoFar(start, offset, wire, results) && offset < |start.rest|
    ensures SoFar(start, offset, wire, results + [WouldBlock])
  {
    SendRunSnoc(start, results, WouldBlock);
    hide SendRun;
  }

  lemma PieceSplits(data: seq<byte>, offset: nat, n: nat)
    requires offset + n <= |data|
    ensures data[offset..][..n] == data[offset..offset + n] && data[offset..][n..] == data[offset + n..]
    ensures data[..offset + n] == data[..offset] + data[offset..offset + n]
  {
  }

  lemma Associative(a: seq<byte>, b: seq<byte>, c: seq<byte>)
    ensures a + b + c == a + (b + c)
  {
  }

  /** An accepted piece moves from the front of the data that remain to the end of the stream. */
  lemma SoFarPiece(start: Sender, offset: nat, wire: seq<byte>, results: seq<SendResult>, n: nat)
    requires SoFar(start, offset, wire, results) && offset + n <= |start.rest| && 1 <= n <= PIECE
    ensures SoFar(start, offset + n, wire + start.rest[offset..offset + n], results + [Accepted(n)])
  {
    var data := start.rest;
    SendRunSnoc(start, results, Accepted(n));
    PieceSplits(data, offset, n);
    Associative(start.wire, data[..offset], data[offset..offset + n]);
    hide SendRun;
  }

  /** The answers of send to a whole call: the i-th, for a request of the given size. */
  type SendTrace = (nat, nat) -> SendResult

  ghost predicate Honest(os: SendTrace) {
    forall i: nat, size: nat {:trigger os(i, size)} | 0 < size && os(i, size).Accepted? ::
      1 <= os(i, size).n <= size
  }

  ghost predicate CalmFrom(os: SendTrace, calm: nat) {
    forall i: nat, size: nat {:trigger os(i, size)} | calm <= i :: os(i, size) != WouldBlock
  }

  lemma AnswerAt(os: SendTrace, calm: nat, i: nat, size: nat)
    requires Honest(os) && CalmFrom(os, calm) && 0 < size
    ensures var r := os(i, size);
            (r.Accepted? ==> 1 <= r.n <= size) && (calm <= i ==> r != WouldBlock)
  {
  }

  /**
   results are the answers of os to the requests of one call, each asked for while data remain: the k-th is
   os's answer to the k-th send, for the rest of the data but at most one piece.
   */
  ghost predicate AnswersOf(os: SendTrace, start: Sender, results: seq<SendResult>) {
    forall k | 0 <= k < |results| :: AnswerOf(os, start, results, k)
  }

  ghost predicate AnswerOf(os: SendTrace, start: Sender, results: seq<SendResult>, k: nat)
    requires k < |results|
  {
    var left := |SendRun(start, results[..k]).rest|;
    left > 0 && results[k] == os(k, Min(PIECE, left))
  }

  lemma AnswersSnoc(os: SendTrace, start: Sender, results: seq<SendResult>, left: nat)
    requires AnswersOf(os, start, results) && |SendRun(start, results).rest| == left > 0
    ensures AnswersOf(os, start, results + [os(|results|, Min(PIECE, left))])
  {
    var more := results + [os(|results|, Min(PIECE, left))];
    assert more[..|results|] == results;
    hide SendRun;
    forall k | 0 <= k < |more| ensures AnswerOf(os, start, more, k) {
      if k < |results| {
        assert more[..k] == results[..k] && AnswerOf(os, start, results, k);
      }
    }
  }

  /** The first request is for the whole data, or for 8192 bytes of it. */
  lemma FirstRequest(os: SendTrace, start: Sender, results: seq<SendResult>)
    requires AnswersOf(os, start, results) && results != []
    ensures start.rest != [] && results[0] == os(0, if |start.rest| < 8192 then |start.rest| else 8192)
  {
    assert AnswerOf(os, start, results, 0) && results[..0] == [];
  }

  lemma SoFarLeft(start: Sender, offset: nat, wire: seq<byte>, results: seq<SendResult>)
    requires SoFar(start, offset, wire, results)
    ensures offset <= |start.rest| && |SendRun(start, results).rest| == |start.rest| - offset
  {
    hide SendRun;
  }

  lemma StillToSend(os: SendTrace, start: Sender, results: seq<SendResult>, n: nat)
    requires AnswersOf(os, start, results) && n <= |results|
    ensures n < |results| ==> SendRun(start, results[..n]).rest != []
  {
    assert n < |results| ==> AnswerOf(os, start, results, n);
    hide SendRun;
  }

  /** The trace alone decides what a call that has come to its end has seen. */
  lemma AnswersUnique(os: SendTrace, start: Sender, a: seq<SendResult>, b: seq<SendResult>)
    requires AnswersOf(os, start, a) && AnswersOf(os, start, b)
    requires SendRun(start, a).rest == [] && SendRun(start, b).rest == []
    ensures a == b
  {
    var n := Min(|a|, |b|);
    hide SendRun, AnswersOf;
    SameAnswers(os, start, a, b, n);
    StillToSend(os, start, a, n);
    StillToSend(os, start, b, n);
    assert a[..|a|] == a && b[..|b|] == b;
  }

  lemma {:induction false} SameAnswers(
    os: SendTrace, start: Sender, a: seq<SendResult>, b: seq<SendResult>, n: nat)
    requires AnswersOf(os, start, a) && AnswersOf(os, start, b) && n <= |a| && n <= |b|
    ensures a[..n] == b[..n]
  {
    hide SendRun;
    if n > 0 {
      SameAnswers(os, start, a, b, n - 1);
      assert AnswerOf(os, start, a, n - 1) && AnswerOf(os, start, b, n - 1);
      assert a[..n] == a[..n - 1] + [a[n - 1]] && b[..n] == b[..n - 1] + [b[n - 1]];
    }
  }

  lemma NothingAsked(os: SendTrace, start: Sender)
    ensures AnswersOf(os, start, [])
  {
  }

  /** A call that has come to its end: everything is sent, or the last answer was a hard error. */
  ghost predicate Ended(os: SendTrace, start: Sender, sent: nat, wire: seq<byte>, results: seq<SendResult>) {
    && sent <= |start.rest| && wire == start.wire + start.rest[..sent]
    && (sent == |start.rest| <==> HardError !in results)
    && AnswersOf(os, start, results)
    && SendRun(start, results) == Sender(wire, [], sent < |start.rest|)
  }

  lemma EndedFailed(os: SendTrace, start: Sender, offset: nat, wire: seq<byte>, results: seq<SendResult>)
    requires SoFar(start, offset, wire, results) && offset < |start.rest|
    requires AnswersOf(os, start, results + [HardError])
    ensures Ended(os, start, offset, wire, results + [HardError])
  {
    SendRunSnoc(start, results, HardError);
    hide SendRun, AnswersOf;
    assert (results + [HardError])[|results|] == HardError;
  }

  lemma EndedAll(os: SendTrace, start: Sender, wire: seq<byte>, results: seq<SendResult>)
    requires SoFar(start, |start.rest|, wire, results) && AnswersOf(os, start, results)
    ensures Ended(os, start, |start.rest|, wire, results)
  {
    hide SendRun, AnswersOf;
  }

  /** One iteration, whatever the answer. */
  lemma NextAnswer(os: SendTrace, calm: nat, start: Sender, offset: nat, wire: seq<byte>, results: seq<SendResult>)
    requires Honest(os) && CalmFrom(os, calm)
    requires SoFar(start, offset, wire, results) && AnswersOf(os, start, results) && offset < |start.rest|
    ensures var r := os(|results|, Min(PIECE, |start.rest| - offset));
            match r
            case WouldBlock =>
              |results| < calm && SoFar(start, offset, wire, results + [r]) && AnswersOf(os, start, results + [r])
            case HardError => Ended(os, start, offset, wire, results + [r])
            case Accepted(n) =>
              && 1 <= n <= |start.rest| - offset && AnswersOf(os, start, results + [r])
              && SoFar(start, offset + n, wire + start.rest[offset..offset + n], results + [r])
  {
    var left := |start.rest| - offset;
    var r := os(|results|, Min(PIECE, left));
    AnswerAt(os, calm, |results|, Min(PIECE, left));
    SoFarLeft(start, offset, wire, results);
    AnswersSnoc(os, start, results, left);
    hide SoFar, AnswersOf, Ended, SendRun, Honest, CalmFrom;
    match r {
      case WouldBlock => SoFarBlocked(start, offset, wire, results);
      case HardError => EndedFailed(os, start, offset, wire, results);
      case Accepted(n) => SoFarPiece(start, offset, wire, results, n);
    }
  }

  lemma SliceOfPrefix(a: array<byte>, len: nat, i: nat, j: nat)
    requires i <= j <= len <= a.Length
    ensures a[i..j] == a[..len][i..j] && a[..j] == a[..len][..j]
  {
  }

  class JsClient {
    /** What the kernel has accepted on m_fd. */
    var wire: seq<byte>

    constructor ()
      ensures wire == []
    {
      wire := [];
    }

    /** What an accepting send does: n bytes from buf + offset enter the stream. */
    method Accept(buf: array<byte>, offset: nat, n: nat, ghost data: seq<byte>)
      requires offset + n <= |data| <= buf.Length && buf[..|data|] == data
      modifies this
      ensures wire == old(wire) + data[offset..offset + n]
    {
      SliceOfPrefix(buf, |data|, offset, offset + n);
      wire := wire + buf[offset..offset + n];
    }

    /**
     Terminates on every trace with finitely many would-blocks, having sent all of the data or, after
     a hard error, a proper prefix; the result does not tell which.  results are what the trace answered;
     by AnswersUnique nothing else meets the last two clauses.
     */
    method Send(buf: array?<byte>, len: int, os: SendTrace, ghost calm: nat)
      returns (ret: int, ghost sent: nat, ghost results: seq<SendResult>)
      requires buf != null ==> len <= buf.Length
      requires Honest(os) && CalmFrom(os, calm)
      modifies this
      ensures buf == null || len <= 0 ==> ret == -1 && wire == old(wire)
      ensures buf != null && 0 < len ==>
                && ret == 0 && sent <= len
                && wire == old(wire) + buf[..sent]
                && (sent == len <==> HardError !in results)
                && AnswersOf(os, Sender(old(wire), buf[..len], false), results)
                && SendRun(Sender(old(wire), buf[..len], false), results) == Sender(wire, [], sent < len)
    {
      if buf == null || len <= 0 {
        return -1, 0, [];
      }
      hide AnswersOf, SendRun, Honest, CalmFrom;
      sent, results := SendAll(buf, len, os, calm);
      SliceOfPrefix(buf, len, 0, sent);
      return 0, sent, results;
    }

    /** The loop of Send. */
    method SendAll(buf: array<byte>, len: nat, os: SendTrace, ghost calm: nat)
      returns (ghost sent: nat, ghost results: seq<SendResult>)
      requires len <= buf.Length
      requires Honest(os) && CalmFrom(os, calm)
      modifies this
      ensures Ended(os, Sender(old(wire), buf[..len], false), sent, wire, results)
    {
      ghost var start := Sender(wire, buf[..len], false);
      sent, results := 0, [];
      SoFarNothing(start);
      NothingAsked(os, start);
      hide Ended, SoFar, SendRun, SendStep, Honest, CalmFrom, AnswersOf;
      var offset, remain, i := 0, len, 0;
      while remain > 0
        invariant 0 <= offset && 0 <= remain && offset + remain == len && i == |results|
        invariant SoFar(start, offset, wire, results) && AnswersOf(os, start, results)
        decreases remain, calm - i
      {
        var sendSize := remain;
        if sendSize > PIECE {
          sendSize := PIECE;
        }
        NextAnswer(os, calm, start, offset, wire, results);
        var r := os(i, sendSize);
        results := results + [r];
        i := i + 1;
        if r == WouldBlock {
          continue;
        }
        if r == HardError {
          return offset, results;
        }
        Accept(buf, offset, r.n, start.rest);
        offset := offset + r.n;
        remain := remain - r.n;
      }
      EndedAll(os, start, wire, results);
      return offset, results;
    }
  }
}
