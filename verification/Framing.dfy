/**
 The wire protocol and the receiving half of a connection: a WGDHEAD (nCmd, nDataLen, two
 little-endian int32) followed by nDataLen bytes, accumulated from arbitrary pieces and parsed at
 most once per read call.  The parser is defined on every byte string, malformed headers included.
 */
module Framing {
  import opened Bytes

  const HEAD_SIZE: int := 8
  /** The largest payload for which sizeof(WGDHEAD) + nDataLen is still a signed 32-bit value. */
  const MAX_PAYLOAD: int := TWO_31 - 9

  datatype Msg = Msg(cmd: int32, payload: seq<byte>)

  predicate ValidMsg(m: Msg) {
    |m.payload| <= MAX_PAYLOAD
  }

  function Encode(m: Msg): (s: seq<byte>)
    requires ValidMsg(m)
    ensures |s| == HEAD_SIZE + |m.payload|
  {
    PutU32(FromInt32(m.cmd)) + PutU32(|m.payload|) + m.payload
  }

  /** What one DealBuffer call reports (cmd) and removes from the buffer (raw). */
  datatype Delivery = Delivery(cmd: int32, raw: seq<byte>)

  /** nTotalSize after its 32-bit addition and its conversion to unsigned. */
  function TotalSize(buf: seq<byte>): (n: uint32)
    requires HEAD_SIZE <= |buf|
  {
    var sum := HEAD_SIZE + GetU32(buf, 4);
    if sum < TWO_32 then sum else sum - TWO_32
  }

  function ParseOne(buf: seq<byte>): Option<Delivery> {
    if |buf| < HEAD_SIZE then None
    else if |buf| < TotalSize(buf) then None
    else Some(Delivery(ToInt32(GetU32(buf, 0)), buf[..TotalSize(buf)]))
  }

  /** One-shot reference parser: the first `limit` frames of a byte string. */
  function Frames(limit: nat, s: seq<byte>): (ds: seq<Delivery>)
    ensures |ds| <= limit
  {
    if limit == 0 then [] else
    match ParseOne(s)
    case None => []
    case Some(d) => [d] + Frames(limit - 1, s[|d.raw|..])
  }

  function Raw(ds: seq<Delivery>): seq<byte> {
    if ds == [] then [] else ds[0].raw + Raw(ds[1..])
  }

  /** A connection as its peer sees it: the unparsed bytes and the deliveries made so far. */
  datatype ConnState = ConnState(buf: seq<byte>, got: seq<Delivery>)

  const FRESH_CONN := ConnState([], [])

  /** One read call: append everything the socket had, then parse at most one frame. */
  function ReadCall(c: ConnState, chunk: seq<byte>): ConnState {
    var buf := c.buf + chunk;
    match ParseOne(buf)
    case None => c.(buf := buf)
    case Some(d) => ConnState(buf[|d.raw|..], c.got + [d])
  }

  function ReadCalls(chunks: seq<seq<byte>>): ConnState {
    if chunks == [] then FRESH_CONN
    else ReadCall(ReadCalls(chunks[..|chunks| - 1]), chunks[|chunks| - 1])
  }

  // ---- the bytes on the wire ----

  /** The first two fields of the client's buffer are nCmd and nDataLen in memory order, then the payload. */
  lemma EncodeLayout(m: Msg)
    requires |m.payload| < 0x7fff_fff8
    ensures ValidMsg(m)
    ensures var s := Encode(m);
            var b: seq<int> := s[..8];
            && |s| == 8 + |m.payload| && s[8..] == m.payload
            && b[0] + 256 * b[1] + 65536 * b[2] + 16777216 * b[3] ==
               (if m.cmd < 0 then m.cmd + 0x1_0000_0000 else m.cmd)
            && b[4] + 256 * b[5] + 65536 * b[6] + 16777216 * b[7] == |m.payload|
  {
    var cmd, len := PutU32(FromInt32(m.cmd)), PutU32(|m.payload|);
    LittleEndian(FromInt32(m.cmd), cmd, 0);
    LittleEndian(|m.payload|, len, 0);
    hide PutU32;
    var s := Encode(m);
    assert s[0..4] == cmd && s[4..8] == len && s[8..] == m.payload;
    assert s[..8] == cmd + len;
  }

  /**
   What a delivery reports and removes, read off the bytes: the command is the first word as an int32, and
   the bytes removed are the first nDataLen + 8 modulo 2^32, if there are so many.
   */
  lemma ParseLayout(s: seq<byte>)
    ensures |s| < 8 ==> ParseOne(s) == None
    ensures 8 <= |s| ==>
              var b: seq<int> := s[..8];
              var cmd := b[0] + 256 * b[1] + 65536 * b[2] + 16777216 * b[3];
              var total := (b[4] + 256 * b[5] + 65536 * b[6] + 16777216 * b[7] + 8) % 0x1_0000_0000;
              match ParseOne(s)
              case None => |s| < total
              case Some(d) =>
                total <= |s| && d.raw == s[..total] && cmd == if d.cmd < 0 then d.cmd + 0x1_0000_0000 else d.cmd
  {
    if 8 <= |s| {
      hide GetU32, PutU32, ToInt32, FromInt32, TotalSize;
      LittleEndian(0, s, 0);
      LittleEndian(0, s, 4);
      FromTo(GetU32(s, 0));
      TotalIs(s);
      assert s[..8][0..4] == s[0..4] && s[..8][4..8] == s[4..8];
    }
  }

  // ---- printing and parsing are inverse ----

  lemma ParseEncoded(m: Msg, rest: seq<byte>)
    requires ValidMsg(m)
    ensures ParseOne(Encode(m) + rest) == Some(Delivery(m.cmd, Encode(m)))
  {
    var s := Encode(m) + rest;
    var cmd, len := PutU32(FromInt32(m.cmd)), PutU32(|m.payload|);
    assert s == [] + cmd + (len + m.payload + rest);
    GetPut(FromInt32(m.cmd), [], len + m.payload + rest);
    assert s == cmd + len + (m.payload + rest);
    GetPut(|m.payload|, cmd, m.payload + rest);
    assert s[..|Encode(m)|] == Encode(m);
    hide Encode, PutU32, GetU32, FromInt32;
    assert TotalSize(s) == |Encode(m)|;
  }

  /** Nothing but the encoding of a message is ever parsed as that message's frame. */
  lemma EncodeParsed(s: seq<byte>)
    requires ParseOne(s).Some? && GetU32(s, 4) <= MAX_PAYLOAD
    ensures var d := ParseOne(s).value;
            HEAD_SIZE <= |d.raw| && Encode(Msg(d.cmd, d.raw[8..])) == d.raw
  {
    hide GetU32, PutU32, ToInt32, FromInt32, TotalSize;
    var d := ParseOne(s).value;
    WordSlice(s, 0);
    WordSlice(s, 4);
    PutGet(s[0..4]);
    PutGet(s[4..8]);
    FromTo(GetU32(s, 0));
    TotalIs(s);
    assert d.raw == s[0..4] + s[4..8] + d.raw[8..];
  }

  lemma WordSlice(s: seq<byte>, at: nat)
    requires at + 4 <= |s|
    ensures GetU32(s[at..at + 4], 0) == GetU32(s, at)
  {
    hide Word;
  }

  lemma FromTo(u: uint32)
    ensures FromInt32(ToInt32(u)) == u
  {
  }

  lemma TotalIs(s: seq<byte>)
    requires HEAD_SIZE <= |s|
    ensures TotalSize(s) == (GetU32(s, 4) + 8) % 0x1_0000_0000
    ensures GetU32(s, 4) <= MAX_PAYLOAD ==> TotalSize(s) == HEAD_SIZE + GetU32(s, 4)
  {
    hide GetU32;
  }

  /** The header field nDataLen. */
  function DataLen(s: seq<byte>): int32
    requires HEAD_SIZE <= |s|
  {
    ToInt32(GetU32(s, 4))
  }

  /** After the 32-bit wrap: which headers are consumed as 8 + nDataLen bytes, and which one as nothing. */
  lemma HeaderMeaning(s: seq<byte>)
    requires HEAD_SIZE <= |s|
    ensures TotalSize(s) == HEAD_SIZE + DataLen(s) <==> -HEAD_SIZE <= DataLen(s)
    ensures TotalSize(s) == 0 <==> DataLen(s) == -HEAD_SIZE
    ensures DataLen(s) < -HEAD_SIZE ==> TWO_31 + HEAD_SIZE <= TotalSize(s) == TWO_32 + HEAD_SIZE + DataLen(s)
  {
  }

  /** Read calls that follow c only append their bytes, and each one makes the same empty delivery. */
  ghost predicate StuckFor(c: ConnState, pre: seq<seq<byte>>, more: seq<seq<byte>>)
    requires HEAD_SIZE <= |c.buf|
  {
    ReadCalls(pre + more) ==
      ConnState(c.buf + Flatten(more), c.got + seq(|more|, _ => Delivery(ToInt32(GetU32(c.buf, 0)), [])))
  }

  lemma EmptyDelivery(c: ConnState, chunk: seq<byte>)
    requires HEAD_SIZE <= |c.buf| && TotalSize(c.buf) == 0
    ensures ReadCall(c, chunk) == ConnState(c.buf + chunk, c.got + [Delivery(ToInt32(GetU32(c.buf, 0)), [])])
    ensures TotalSize(c.buf + chunk) == 0 && GetU32(c.buf + chunk, 0) == GetU32(c.buf, 0)
  {
    var buf := c.buf + chunk;
    assert forall i | 0 <= i < HEAD_SIZE :: buf[i] == c.buf[i];
    assert buf[..0] == [] && buf[0..] == buf;
  }

  lemma {:induction false} StuckRun(pre: seq<seq<byte>>, more: seq<seq<byte>>)
    requires var c := ReadCalls(pre); HEAD_SIZE <= |c.buf| && TotalSize(c.buf) == 0
    ensures StuckFor(ReadCalls(pre), pre, more)
    ensures var c := ReadCalls(pre + more);
            HEAD_SIZE <= |c.buf| && TotalSize(c.buf) == 0 && GetU32(c.buf, 0) == GetU32(ReadCalls(pre).buf, 0)
    decreases more
  {
    hide TotalSize, ReadCall;
    var c := ReadCalls(pre);
    if more == [] {
      assert pre + more == pre && c.buf + [] == c.buf && c.got + [] == c.got;
    } else {
      var before, chunk := more[..|more| - 1], more[|more| - 1];
      StuckRun(pre, before);
      assert (pre + more)[..|pre + more| - 1] == pre + before && before + [chunk] == more;
      FlattenSnoc(before, chunk);
      EmptyDelivery(ReadCalls(pre + before), chunk);
      assert c.buf + Flatten(before) + chunk == c.buf + Flatten(more);
    }
  }

  lemma HeaderStays(buf: seq<byte>, chunk: seq<byte>)
    requires HEAD_SIZE <= |buf|
    ensures DataLen(buf + chunk) == DataLen(buf)
  {
  }

  /** One delivery takes nothing exactly when nDataLen is -8, and with a valid length all of the frame. */
  lemma DeliveryTakes(c: ConnState, chunk: seq<byte>)
    requires HEAD_SIZE <= |c.buf|
    ensures var c' := ReadCall(c, chunk);
            c'.got != c.got ==>
              && (|c'.buf| < |c.buf| + |chunk| <==> DataLen(c.buf) != -HEAD_SIZE)
              && (DataLen(c.buf) >= 0 ==> |c'.buf| == |c.buf| + |chunk| - HEAD_SIZE - DataLen(c.buf))
  {
    HeaderStays(c.buf, chunk);
    HeaderMeaning(c.buf + chunk);
    hide DataLen, GetU32, TotalSize;
  }

  lemma StuckOnce(pre: seq<seq<byte>>)
    requires var c := ReadCalls(pre); HEAD_SIZE <= |c.buf| && StuckFor(c, pre, [[]])
    ensures DataLen(ReadCalls(pre).buf) == -HEAD_SIZE
  {
    var c := ReadCalls(pre);
    assert (pre + [[]])[..|pre|] == pre && c.buf + [] == c.buf && Flatten<byte>([[]]) == [];
    DeliveryTakes(c, []);
    hide DataLen, ReadCall, GetU32;
    assert |ReadCall(c, []).got| == |c.got| + 1;
  }

  /**
   A complete header at the front of the buffer is delivered by every later call, whatever arrives,
   and never removed, if and only if its nDataLen is -8.  Otherwise a call that delivers it removes at
   least a byte, and with a valid length all of the frame.
   */
  lemma StuckIff(pre: seq<seq<byte>>)
    requires HEAD_SIZE <= |ReadCalls(pre).buf|
    ensures DataLen(ReadCalls(pre).buf) == -HEAD_SIZE <==>
            forall more :: StuckFor(ReadCalls(pre), pre, more)
    ensures forall chunk {:trigger ReadCall(ReadCalls(pre), chunk)} ::
              var c := ReadCalls(pre);
              var c' := ReadCall(c, chunk);
              c'.got != c.got && DataLen(c.buf) != -HEAD_SIZE ==>
                && |c'.buf| < |c.buf| + |chunk|
                && (DataLen(c.buf) >= 0 ==> |c'.buf| == |c.buf| + |chunk| - HEAD_SIZE - DataLen(c.buf))
  {
    var c := ReadCalls(pre);
    HeaderMeaning(c.buf);
    hide ReadCalls, ReadCall, DataLen, TotalSize, StuckFor;
    if DataLen(c.buf) == -HEAD_SIZE {
      forall more ensures StuckFor(c, pre, more) {
        StuckRun(pre, more);
      }
    }
    if forall more :: StuckFor(c, pre, more) {
      assert StuckFor(c, pre, [[]]);
      StuckOnce(pre);
    }
    forall chunk {:trigger ReadCall(c, chunk)}
      ensures var c' := ReadCall(c, chunk);
              c'.got != c.got && DataLen(c.buf) != -HEAD_SIZE ==>
                && |c'.buf| < |c.buf| + |chunk|
                && (DataLen(c.buf) >= 0 ==> |c'.buf| == |c.buf| + |chunk| - HEAD_SIZE - DataLen(c.buf))
    {
      DeliveryTakes(c, chunk);
    }
  }

  /** Eight bytes do it: any command with nDataLen -8. */
  lemma StuckHeader(cmd: int32)
    ensures var c := ReadCalls([PutU32(FromInt32(cmd)) + PutU32(FromInt32(-HEAD_SIZE))]);
            && HEAD_SIZE <= |c.buf| && DataLen(c.buf) == -HEAD_SIZE
            && c.got == [Delivery(cmd, [])]
  {
    var head, len := PutU32(FromInt32(cmd)), PutU32(FromInt32(-HEAD_SIZE));
    var s := head + len;
    assert s == [] + head + len == head + len + [];
    GetPut(FromInt32(cmd), [], len);
    GetPut(FromInt32(-HEAD_SIZE), head, []);
    HeaderMeaning(s);
    var chunks := [s];
    assert chunks[..0] == [] && FRESH_CONN.buf + s == s;
    hide TotalSize, GetU32, PutU32, FromInt32;
    assert s[..0] == [] && s[0..] == s;
    assert ReadCalls(chunks) == ReadCall(FRESH_CONN, s);
  }

  lemma TotalStays(buf: seq<byte>, more: seq<byte>)
    requires HEAD_SIZE <= |buf|
    ensures TotalSize(buf + more) == TotalSize(buf)
    ensures ParseOne(buf + more).Some? <==> TotalSize(buf) <= |buf| + |more|
  {
    assert GetU32(buf + more, 4) == GetU32(buf, 4);
    hide GetU32;
  }

  /**
   A header whose frame is not complete: the calls that follow only append their bytes, until the bytes
   buffered reach the total size, and the call in which they do delivers.
   */
  lemma {:induction false} SilentUntilTotal(pre: seq<seq<byte>>, more: seq<seq<byte>>)
    requires var c := ReadCalls(pre); HEAD_SIZE <= |c.buf| < TotalSize(c.buf)
    ensures var c, c' := ReadCalls(pre), ReadCalls(pre + more);
            if |c.buf| + |Flatten(more)| < TotalSize(c.buf) then c' == ConnState(c.buf + Flatten(more), c.got)
            else |c.got| < |c'.got|
    decreases more
  {
    hide TotalSize, ParseOne;
    var c := ReadCalls(pre);
    if more == [] {
      assert pre + more == pre && c.buf + [] == c.buf;
    } else {
      var before, chunk := more[..|more| - 1], more[|more| - 1];
      SilentUntilTotal(pre, before);
      assert (pre + more)[..|pre + more| - 1] == pre + before && before + [chunk] == more;
      FlattenSnoc(before, chunk);
      var bytes := Flatten(before);
      TotalStays(c.buf, bytes + chunk);
      assert c.buf + bytes + chunk == c.buf + (bytes + chunk);
      assert ReadCalls(pre + more) == ReadCall(ReadCalls(pre + before), chunk);
      hide ReadCalls, Flatten;
    }
  }

  /**
   A header with nDataLen below -8 wraps to a total of at least 2^31 + 8: nothing more is delivered on the
   connection, however many frames follow, exactly as long as fewer bytes than that are buffered.
   */
  lemma BlockedIff(pre: seq<seq<byte>>, more: seq<seq<byte>>)
    requires var c := ReadCalls(pre);
             HEAD_SIZE <= |c.buf| < TWO_32 + HEAD_SIZE + DataLen(c.buf) && DataLen(c.buf) < -HEAD_SIZE
    ensures var c, c' := ReadCalls(pre), ReadCalls(pre + more);
            && (c'.got == c.got <==> |c.buf| + |Flatten(more)| < TWO_32 + HEAD_SIZE + DataLen(c.buf))
            && (c'.got == c.got ==> c'.buf == c.buf + Flatten(more))
  {
    HeaderMeaning(ReadCalls(pre).buf);
    SilentUntilTotal(pre, more);
    hide ReadCalls, TotalSize, DataLen;
  }

  // ---- incremental parsing refines one-shot parsing ----

  /** Parsing `s` frame by frame yields `ds` and leaves `rest`. */
  ghost predicate Consumes(s: seq<byte>, ds: seq<Delivery>, rest: seq<byte>) {
    if ds == [] then s == rest
    else ParseOne(s) == Some(ds[0]) && Consumes(s[|ds[0].raw|..], ds[1..], rest)
  }

  lemma ParseStable(s: seq<byte>, t: seq<byte>)
    requires ParseOne(s).Some?
    ensures ParseOne(s + t) == ParseOne(s)
    ensures (s + t)[|ParseOne(s).value.raw|..] == s[|ParseOne(s).value.raw|..] + t
  {
    assert GetU32(s + t, 0) == GetU32(s, 0) && GetU32(s + t, 4) == GetU32(s, 4);
    assert (s + t)[..TotalSize(s)] == s[..TotalSize(s)];
  }

  lemma ShortIsIncomplete(s: seq<byte>)
    requires |s| < HEAD_SIZE
    ensures ParseOne(s).None?
  {
  }

  lemma ParseSplits(s: seq<byte>)
    requires ParseOne(s).Some?
    ensures var d := ParseOne(s).value; |d.raw| <= |s| && d.raw + s[|d.raw|..] == s
  {
    hide TotalSize, GetU32, ToInt32, Word;
  }

  lemma {:induction false} ConsumesMore(s: seq<byte>, ds: seq<Delivery>, rest: seq<byte>, t: seq<byte>)
    requires Consumes(s, ds, rest)
    ensures Consumes(s + t, ds, rest + t)
  {
    if ds != [] {
      ParseStable(s, t);
      ConsumesMore(s[|ds[0].raw|..], ds[1..], rest, t);
    }
  }

  lemma {:induction false} ConsumesNext(s: seq<byte>, ds: seq<Delivery>, rest: seq<byte>)
    requires Consumes(s, ds, rest) && ParseOne(rest).Some?
    ensures var d := ParseOne(rest).value; Consumes(s, ds + [d], rest[|d.raw|..])
  {
    var d := ParseOne(rest).value;
    if ds == [] {
      assert (ds + [d])[1..] == [];
    } else {
      ConsumesNext(s[|ds[0].raw|..], ds[1..], rest);
      assert (ds + [d])[1..] == ds[1..] + [d];
    }
  }

  lemma {:induction false} ConsumesRaw(s: seq<byte>, ds: seq<Delivery>, rest: seq<byte>)
    requires Consumes(s, ds, rest)
    ensures Raw(ds) + rest == s
  {
    hide ParseOne;
    if ds == [] {
      assert [] + rest == rest;
    } else {
      ParseSplits(s);
      var d, more := ds[0], ds[1..];
      var s' := s[|d.raw|..];
      ConsumesRaw(s', more, rest);
      assert Raw(ds) == d.raw + Raw(more);
      hide Raw, Consumes;
      assert d.raw + Raw(more) + rest == d.raw + (Raw(more) + rest);
    }
  }

  lemma {:induction false} ConsumesFrames(limit: nat, s: seq<byte>, ds: seq<Delivery>, rest: seq<byte>)
    requires Consumes(s, ds, rest)
    ensures Frames(|ds| + limit, s) == ds + Frames(limit, rest)
  {
    hide ParseOne;
    if ds == [] {
      assert ds + Frames(limit, rest) == Frames(limit, rest);
    } else {
      ParseSplits(s);
      var d, more := ds[0], ds[1..];
      var s' := s[|d.raw|..];
      ConsumesFrames(limit, s', more, rest);
      assert Frames(|ds| + limit, s) == [d] + Frames(|more| + limit, s');
      hide Frames, Consumes;
      assert ds == [d] + more;
      assert [d] + (more + Frames(limit, rest)) == [d] + more + Frames(limit, rest);
    }
  }

  lemma {:induction false} ReadCallsConsume(chunks: seq<seq<byte>>)
    ensures var c := ReadCalls(chunks); Consumes(Flatten(chunks), c.got, c.buf)
  {
    if chunks != [] {
      var pre, chunk := chunks[..|chunks| - 1], chunks[|chunks| - 1];
      var c := ReadCalls(pre);
      ReadCallsConsume(pre);
      assert chunks == pre + [chunk];
      FlattenSnoc(pre, chunk);
      ConsumesMore(Flatten(pre), c.got, c.buf, chunk);
      if ParseOne(c.buf + chunk).Some? {
        ConsumesNext(Flatten(chunks), c.got, c.buf + chunk);
      }
    }
  }

  /**
   For every byte stream, every cut of it into read calls and every limit: what was delivered
   followed by what is left to parse is the one-shot parse of everything received, and no byte is
   lost, repeated or reordered.
   */
  lemma IncrementalIsOneShot(chunks: seq<seq<byte>>, limit: nat)
    ensures var c := ReadCalls(chunks);
            && c.got + Frames(limit, c.buf) == Frames(|c.got| + limit, Flatten(chunks))
            && Raw(c.got) + c.buf == Flatten(chunks)
  {
    hide ParseOne;
    var c := ReadCalls(chunks);
    ReadCallsConsume(chunks);
    ConsumesFrames(limit, Flatten(chunks), c.got, c.buf);
    ConsumesRaw(Flatten(chunks), c.got, c.buf);
  }

  // ---- how many frames are delivered ----

  lemma {:induction false} FramesPrefix(j: nat, k: nat, s: seq<byte>, t: seq<byte>)
    requires j <= k
    ensures Frames(j, s) <= Frames(k, s + t)
    ensures |Frames(j, s)| == Min(j, |Frames(k, s)|)
  {
    hide ParseOne;
    if j != 0 && ParseOne(s).Some? {
      ParseSplits(s);
      ParseStable(s, t);
      FramesPrefix(j - 1, k - 1, s[|ParseOne(s).value.raw|..], t);
    }
  }

  /** Frames complete by the end of call i, counting at most i of them. */
  function Complete(chunks: seq<seq<byte>>, i: nat): (n: nat)
    requires i <= |chunks|
    ensures n <= i
  {
    |Frames(i, Flatten(chunks[..i]))|
  }

  /** The count a call's recv loop allows at the end of the n-th call. */
  function Allowance(chunks: seq<seq<byte>>, i: nat): int
    requires i <= |chunks|
  {
    Complete(chunks, i) + |chunks| - i
  }

  lemma DeliveredRecurrence(pre: seq<seq<byte>>, chunk: seq<byte>)
    ensures var c, c' := ReadCalls(pre), ReadCalls(pre + [chunk]);
            && |c.got| <= |pre|
            && |c'.got| == Min(|c.got| + 1, Complete(pre + [chunk], |pre| + 1))
  {
    hide ParseOne;
    var c := ReadCalls(pre);
    var chunks := pre + [chunk];
    assert chunks[..|pre|] == pre && chunks[..|chunks|] == chunks;
    DeliveredAtMostCalls(pre);
    ReadCallsConsume(pre);
    ConsumesMore(Flatten(pre), c.got, c.buf, chunk);
    FlattenSnoc(pre, chunk);
    ConsumesFrames(|chunks| - |c.got|, Flatten(chunks), c.got, c.buf + chunk);
  }

  lemma {:induction false} DeliveredAtMostCalls(chunks: seq<seq<byte>>)
    ensures |ReadCalls(chunks).got| <= |chunks|
  {
    if chunks != [] {
      DeliveredAtMostCalls(chunks[..|chunks| - 1]);
    }
  }

  lemma CompletePrefix(pre: seq<seq<byte>>, chunk: seq<byte>, i: nat)
    requires i <= |pre|
    ensures Complete(pre + [chunk], i) == Complete(pre, i)
  {
    assert (pre + [chunk])[..i] == pre[..i];
  }

  /**
   The exact delivery law: after n calls the number of frames delivered is the least, over i = 0..n, of the
   frames complete by the end of call i, at most i, plus the n - i calls that followed.
   */
  lemma {:induction false} DeliveryLaw(chunks: seq<seq<byte>>)
    ensures var d, n := |ReadCalls(chunks).got|, |chunks|;
            && (forall i: nat | i <= n :: d <= |Frames(i, Flatten(chunks[..i]))| + n - i)
            && (exists i: nat | i <= n :: d == |Frames(i, Flatten(chunks[..i]))| + n - i)
  {
    DeliveryBound(chunks);
    var d, n := |ReadCalls(chunks).got|, |chunks|;
    hide ReadCalls, Frames, Flatten;
    forall i: nat | i <= n ensures d <= |Frames(i, Flatten(chunks[..i]))| + n - i {
      assert d <= Allowance(chunks, i);
    }
    var j: nat :| j <= n && d == Allowance(chunks, j);
    assert d == |Frames(j, Flatten(chunks[..j]))| + n - j;
  }

  lemma {:induction false} DeliveryBound(chunks: seq<seq<byte>>)
    ensures var d := |ReadCalls(chunks).got|;
            && (forall i: nat | i <= |chunks| :: d <= Allowance(chunks, i))
            && (exists i: nat | i <= |chunks| :: d == Allowance(chunks, i))
  {
    var d := |ReadCalls(chunks).got|;
    if chunks == [] {
      assert d == Allowance(chunks, 0);
    } else {
      var n := |chunks|;
      var pre, chunk := chunks[..n - 1], chunks[n - 1];
      assert chunks == pre + [chunk];
      DeliveryBound(pre);
      DeliveredRecurrence(pre, chunk);
      forall i: nat | i <= n ensures d <= Allowance(chunks, i) {
        if i < n { CompletePrefix(pre, chunk, i); assert Allowance(chunks, i) == Allowance(pre, i) + 1; }
      }
      var j: nat :| j <= n - 1 && |ReadCalls(pre).got| == Allowance(pre, j);
      CompletePrefix(pre, chunk, j);
      assert d == Allowance(chunks, j) || d == Allowance(chunks, n);
    }
  }

  /**
   Nothing complete is left waiting exactly when, counted back from the last call, frames never
   completed faster than one per call.
   */
  lemma BacklogEmptyIff(chunks: seq<seq<byte>>)
    ensures var c, n := ReadCalls(chunks), |chunks|;
            ParseOne(c.buf).None? <==>
            forall i: nat | i <= n :: |Frames(n + 1, Flatten(chunks))| <= Allowance(chunks, i)
  {
    hide ParseOne;
    var c, n := ReadCalls(chunks), |chunks|;
    DeliveryBound(chunks);
    DeliveredAtMostCalls(chunks);
    IncrementalIsOneShot(chunks, n + 1 - |c.got|);
  }

  /** Every complete frame of what was received has been delivered exactly when none is left in the buffer. */
  lemma NothingLostIff(chunks: seq<seq<byte>>)
    ensures var c := ReadCalls(chunks);
            (forall limit: nat :: Frames(limit, Flatten(chunks)) <= c.got) <==> ParseOne(c.buf).None?
  {
    hide ParseOne, ReadCalls;
    var c := ReadCalls(chunks);
    forall limit: nat ensures ParseOne(c.buf).None? ==> Frames(limit, Flatten(chunks)) <= c.got {
      IncrementalIsOneShot(chunks, limit);
      assert Flatten(chunks) + [] == Flatten(chunks);
      FramesPrefix(limit, |c.got| + limit, Flatten(chunks), []);
    }
    IncrementalIsOneShot(chunks, 1);
    assert |c.got + Frames(1, c.buf)| == |c.got| + |Frames(1, c.buf)|;
  }

  /** A frame complete by call j is delivered once as many calls follow as frames were complete. */
  lemma CatchUp(chunks: seq<seq<byte>>, j: nat, limit: nat)
    requires j <= |chunks|
    ensures |ReadCalls(chunks).got| >= Min(|Frames(limit, Flatten(chunks[..j]))|, |chunks| - j)
  {
    hide ParseOne;
    DeliveryBound(chunks);
    var n := |chunks|;
    var i: nat :| i <= n && |ReadCalls(chunks).got| == Allowance(chunks, i);
    if j < i {
      assert chunks[..i] == chunks[..j] + chunks[j..i];
      FlattenConcat(chunks[..j], chunks[j..i]);
      var s, t := Flatten(chunks[..j]), Flatten(chunks[j..i]);
      FramesPrefix(Min(i, limit), i, s, t);
      FramesPrefix(Min(i, limit), limit, s, t);
    }
  }

  lemma {:induction false} FlattenConcat(a: seq<seq<byte>>, b: seq<seq<byte>>)
    ensures Flatten(a + b) == Flatten(a) + Flatten(b)
  {
    if a == [] {
      assert a + b == b;
    } else {
      var tail := a[1..];
      assert (a + b)[1..] == tail + b && (a + b)[0] == a[0];
      FlattenConcat(tail, b);
      assert Flatten(a) == a[0] + Flatten(tail);
      assert Flatten(a + b) == a[0] + Flatten(tail + b);
      hide Flatten;
      assert a[0] + (Flatten(tail) + Flatten(b)) == a[0] + Flatten(tail) + Flatten(b);
    }
  }

  /** One frame per call is not enough: two frames arriving in one call leave one behind. */
  lemma TwoFramesOneCall(m: Msg)
    requires ValidMsg(m)
    ensures var c := ReadCalls([Encode(m) + Encode(m)]);
            |c.got| == 1 && ParseOne(c.buf) == Some(Delivery(m.cmd, Encode(m)))
  {
    var chunks := [Encode(m) + Encode(m)];
    assert chunks[..0] == [];
    assert FRESH_CONN.buf + chunks[0] == chunks[0];
    ParseEncoded(m, Encode(m));
    ParseEncoded(m, []);
    assert Encode(m) + [] == Encode(m);
    assert (Encode(m) + Encode(m))[|Encode(m)|..] == Encode(m);
  }

  // ---- streams of valid messages ----

  ghost predicate AllValid(msgs: seq<Msg>) {
    forall m | m in msgs :: ValidMsg(m)
  }

  function EncodeAll(msgs: seq<Msg>): seq<byte>
    requires AllValid(msgs)
  {
    if msgs == [] then [] else Encode(msgs[0]) + EncodeAll(msgs[1..])
  }

  function Delivered(m: Msg): Delivery
    requires ValidMsg(m)
  {
    Delivery(m.cmd, Encode(m))
  }

  ghost predicate DeliversPrefix(ds: seq<Delivery>, msgs: seq<Msg>)
    requires AllValid(msgs)
  {
    |ds| <= |msgs| && forall i | 0 <= i < |ds| :: ds[i] == Delivered(msgs[i])
  }

  lemma {:induction false} FramesOfEncoded(limit: nat, msgs: seq<Msg>)
    requires AllValid(msgs)
    ensures DeliversPrefix(Frames(limit, EncodeAll(msgs)), msgs)
    ensures |Frames(limit, EncodeAll(msgs))| == Min(limit, |msgs|)
  {
    hide ParseOne, Encode;
    if msgs == [] {
      ShortIsIncomplete([]);
    } else if limit != 0 {
      var rest := EncodeAll(msgs[1..]);
      ParseEncoded(msgs[0], rest);
      assert (Encode(msgs[0]) + rest)[|Encode(msgs[0])|..] == rest;
      FramesOfEncoded(limit - 1, msgs[1..]);
      assert Frames(limit, EncodeAll(msgs)) == [Delivered(msgs[0])] + Frames(limit - 1, rest);
    }
  }

  /** Whatever part of the encoded messages has arrived, the deliveries are the first messages. */
  lemma PrefixDelivered(received: seq<byte>, got: seq<Delivery>, buf: seq<byte>, msgs: seq<Msg>)
    requires AllValid(msgs) && Consumes(received, got, buf) && received <= EncodeAll(msgs)
    ensures DeliversPrefix(got, msgs)
  {
    hide ParseOne, Encode, Frames, Consumes;
    var rest := EncodeAll(msgs)[|received|..];
    assert EncodeAll(msgs) == received + rest;
    ConsumesMore(received, got, buf, rest);
    ConsumesFrames(0, EncodeAll(msgs), got, buf + rest);
    FramesOfEncoded(|got|, msgs);
  }
}
