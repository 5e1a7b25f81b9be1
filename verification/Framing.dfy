/**
 Length-prefixed framing: the receive loops of the daemon's session and of the
 client's peer connection, and whether what they deliver depends on how the
 byte stream happens to be cut into reads.
 */
module Framing {
  import opened Bytes

  const MAX_MESSAGE_SIZE: nat := 64 * 1024 * 1024

  /** The little-endian 32-bit length in front of a message. */
  function PrefixSize(buf: seq<byte>): (n: nat)
    requires |buf| >= 4
  {
    var b0: nat, b1: nat, b2: nat, b3: nat := buf[0], buf[1], buf[2], buf[3];
    b0 + 0x100 * b1 + 0x1_0000 * b2 + 0x100_0000 * b3
  }

  /** 2^32. */
  const PREFIX_LIMIT: nat := 0x1_0000_0000

  /** The length as the sender puts it in front: its four bytes, the lowest first. */
  function Prefix(n: nat): (r: seq<byte>)
    requires n < PREFIX_LIMIT
    ensures |r| == 4
  {
    [n % 0x100, n / 0x100 % 0x100, n / 0x1_0000 % 0x100, n / 0x100_0000 % 0x100]
  }

  /** Reading the prefix gives the length that was sent, whatever follows it. */
  lemma PrefixReads(n: nat, body: seq<byte>)
    requires n < PREFIX_LIMIT
    ensures PrefixSize(Prefix(n) + body) == n
  {
    var q, r := n / 0x1_0000, n % 0x1_0000;
    Quotient(n, r / 0x100 + 0x100 * q, r % 0x100);
    Quotient(n / 0x100, q, r / 0x100);
    HighHalf(n, q, r);
    Quotient(q, q / 0x100, q % 0x100);
  }

  lemma Quotient(n: nat, q: nat, r: nat)
    requires n == 0x100 * q + r && r < 0x100
    ensures n / 0x100 == q && n % 0x100 == r
  {
  }

  lemma HighHalf(n: nat, q: nat, r: nat)
    requires n == 0x1_0000 * q + r && r < 0x1_0000
    ensures n / 0x1_0000 == q && n / 0x100_0000 == q / 0x100
  {
  }

  /** And only that length has this prefix. */
  lemma PrefixIs(buf: seq<byte>)
    requires |buf| >= 4
    ensures PrefixSize(buf) < PREFIX_LIMIT && Prefix(PrefixSize(buf)) == buf[..4]
  {
    var b0: nat, b1: nat, b2: nat, b3: nat := buf[0], buf[1], buf[2], buf[3];
    var q := b2 + 0x100 * b3;
    Quotient(PrefixSize(buf), b1 + 0x100 * q, b0);
    Quotient(b1 + 0x100 * q, q, b1);
    HighHalf(PrefixSize(buf), q, b0 + 0x100 * b1);
    Quotient(q, b3, b2);
  }

  /** A message as it is sent. */
  function Encode(m: seq<byte>): (f: seq<byte>)
    requires |m| < PREFIX_LIMIT
  {
    Prefix(|m|) + m
  }

  predicate Oversized(buf: seq<byte>) { |buf| >= 4 && PrefixSize(buf) > MAX_MESSAGE_SIZE }

  /** The buffer starts with a whole message of acceptable size. */
  predicate Ready(buf: seq<byte>) {
    |buf| >= 4 && PrefixSize(buf) <= MAX_MESSAGE_SIZE && |buf| - 4 >= PrefixSize(buf)
  }

  /** Length of the first message, prefix included. */
  function FrameSize(buf: seq<byte>): (n: nat)
    requires Ready(buf)
    ensures 4 <= n <= |buf|
  {
    PrefixSize(buf) + 4
  }

  /** The whole messages at the front of a stream, in order. */
  function Frames(s: seq<byte>): (r: seq<seq<byte>>)
    decreases |s|
  {
    if Ready(s) then [s[..FrameSize(s)]] + Frames(s[FrameSize(s)..]) else []
  }

  /** What is left after them: an incomplete message, or one that is too large. */
  function Tail(s: seq<byte>): (r: seq<byte>)
    ensures !Ready(r)
    decreases |s|
  {
    if Ready(s) then Tail(s[FrameSize(s)..]) else s
  }

  function Concat(chunks: seq<seq<byte>>): (r: seq<byte>) {
    if chunks == [] then [] else chunks[0] + Concat(chunks[1..])
  }

  lemma Unfold(s: seq<byte>)
    ensures Ready(s) ==>
              Frames(s) == [s[..FrameSize(s)]] + Frames(s[FrameSize(s)..]) && Tail(s) == Tail(s[FrameSize(s)..])
    ensures !Ready(s) ==> Frames(s) == [] && Tail(s) == s
  {
  }

  /** More bytes behind a whole message do not change where it ends. */
  lemma ReadyExtends(a: seq<byte>, b: seq<byte>)
    requires Ready(a)
    ensures Ready(a + b) && FrameSize(a + b) == FrameSize(a)
    ensures (a + b)[..FrameSize(a)] == a[..FrameSize(a)] && (a + b)[FrameSize(a)..] == a[FrameSize(a)..] + b
  {
  }

  /** Parsing can stop anywhere and resume from the buffered tail. */
  lemma {:induction false} ParseResumes(a: seq<byte>, b: seq<byte>)
    ensures Frames(a + b) == Frames(a) + Frames(Tail(a) + b)
    ensures Tail(a + b) == Tail(Tail(a) + b)
    decreases |a|
  {
    if Ready(a) {
      ReadyExtends(a, b);
      ParseResumes(a[FrameSize(a)..], b);
    }
  }

  // ---- Round trip ----

  predicate IsFrame(f: seq<byte>) { Ready(f) && FrameSize(f) == |f| }

  /** The well-formed messages are those a sender can send within the limit. */
  lemma FrameIsEncoded(f: seq<byte>)
    ensures IsFrame(f) <==> 4 <= |f| <= MAX_MESSAGE_SIZE + 4 && f == Encode(f[4..])
  {
    hide Prefix, PrefixSize;
    if |f| >= 4 {
      PrefixIs(f);
      assert f == f[..4] + f[4..];
      if |f| <= MAX_MESSAGE_SIZE + 4 { PrefixReads(|f| - 4, f[4..]); }
    }
  }

  predicate Sendable(ms: seq<seq<byte>>) { forall i :: 0 <= i < |ms| ==> |ms[i]| <= MAX_MESSAGE_SIZE }

  /** Messages as they are sent, each behind its length. */
  function Encoded(ms: seq<seq<byte>>): (fs: seq<seq<byte>>)
    requires Sendable(ms)
    ensures |fs| == |ms|
  {
    seq(|ms|, i requires 0 <= i < |ms| => Encode(ms[i]))
  }

  lemma EncodedAreFrames(ms: seq<seq<byte>>)
    requires Sendable(ms)
    ensures forall i :: 0 <= i < |ms| ==> IsFrame(Encoded(ms)[i]) && Encoded(ms)[i][4..] == ms[i]
  {
    hide IsFrame, Prefix;
    forall i | 0 <= i < |ms| ensures IsFrame(Encoded(ms)[i]) && Encoded(ms)[i][4..] == ms[i] {
      assert Encode(ms[i])[4..] == ms[i];
      FrameIsEncoded(Encode(ms[i]));
    }
  }

  /** Whatever is sent is parsed into exactly what was sent. */
  lemma FramesRoundTrip(ms: seq<seq<byte>>, rest: seq<byte>)
    requires Sendable(ms) && !Ready(rest)
    ensures Frames(Concat(Encoded(ms)) + rest) == Encoded(ms) && Tail(Concat(Encoded(ms)) + rest) == rest
    ensures forall i :: 0 <= i < |ms| ==> Frames(Concat(Encoded(ms)) + rest)[i][4..] == ms[i]
  {
    hide Frames, Tail, Encoded, IsFrame, Ready;
    EncodedAreFrames(ms);
    FramesParse(Encoded(ms), rest);
  }

  /** A stream of well-formed messages parses into exactly those messages. */
  lemma {:induction false} FramesParse(fs: seq<seq<byte>>, rest: seq<byte>)
    requires forall i :: 0 <= i < |fs| ==> IsFrame(fs[i])
    requires !Ready(rest)
    ensures Frames(Concat(fs) + rest) == fs && Tail(Concat(fs) + rest) == rest
    decreases |fs|
  {
    hide PrefixSize;
    if fs == [] {
      assert Concat(fs) + rest == rest;
    } else {
      var more := Concat(fs[1..]) + rest;
      assert Concat(fs) + rest == fs[0] + more;
      ReadyExtends(fs[0], more);
      FramesParse(fs[1..], rest);
    }
  }

  // ---- The daemon's session ----

  /** Buffer, messages given to the handler, and whether the socket is being closed. */
  datatype Receiver = Receiver(buffer: seq<byte>, handled: seq<seq<byte>>, closing: bool)

  const FRESH: Receiver := Receiver([], [], false)

  predicate AllAccepted(fs: seq<seq<byte>>, accepts: seq<byte> -> bool) {
    forall i :: 0 <= i < |fs| ==> accepts(fs[i])
  }

  lemma NothingRefused(accepts: seq<byte> -> bool)
    ensures AllAccepted([], accepts)
  {
  }

  lemma AcceptOneMore(fs: seq<seq<byte>>, f: seq<byte>, accepts: seq<byte> -> bool)
    ensures AllAccepted(fs + [f], accepts) <==> AllAccepted(fs, accepts) && accepts(f)
  {
    if AllAccepted(fs + [f], accepts) {
      forall i | 0 <= i < |fs| ensures accepts(fs[i]) { assert (fs + [f])[i] == fs[i]; }
      assert (fs + [f])[|fs|] == f;
    }
  }

  lemma AcceptSplit(a: seq<seq<byte>>, b: seq<seq<byte>>, accepts: seq<byte> -> bool)
    ensures AllAccepted(a + b, accepts) <==> AllAccepted(a, accepts) && AllAccepted(b, accepts)
  {
    if AllAccepted(a + b, accepts) {
      forall i | 0 <= i < |a| ensures accepts(a[i]) { assert (a + b)[i] == a[i]; }
      forall i | 0 <= i < |b| ensures accepts(b[i]) { assert (a + b)[|a| + i] == b[i]; }
    }
  }

  /** One read by the session: every whole message is handled, even after one was refused. */
  function ServerRead(r: Receiver, chunk: seq<byte>, accepts: seq<byte> -> bool): (r': Receiver) {
    if r.closing then r
    else
      var s := r.buffer + chunk;
      Receiver(Tail(s), r.handled + Frames(s), Oversized(Tail(s)) || !AllAccepted(Frames(s), accepts))
  }

  function ServerReads(r: Receiver, chunks: seq<seq<byte>>, accepts: seq<byte> -> bool): (r': Receiver)
    decreases |chunks|
  {
    if chunks == [] then r else ServerReads(ServerRead(r, chunks[0], accepts), chunks[1..], accepts)
  }

  class ClientSession {
    const accepts: seq<byte> -> bool
    var readBuffer: seq<byte>
    var handled: seq<seq<byte>>
    var closing: bool

    function State(): (r: Receiver)
      reads this
    {
      Receiver(readBuffer, handled, closing)
    }

    constructor (accepts: seq<byte> -> bool)
      ensures this.accepts == accepts && State() == FRESH
    {
      this.accepts := accepts;
      readBuffer, handled, closing := [], [], false;
    }

    /** Appends a chunk and drains it; a closing socket delivers nothing more. */
    method OnRead(chunk: seq<byte>)
      modifies this
      ensures State() == ServerRead(old(State()), chunk, accepts)
    {
      if closing { return; }
      readBuffer := readBuffer + chunk;
      ProcessBuffer();
    }

    method ProcessBuffer()
      requires !closing
      modifies this
      ensures readBuffer == Tail(old(readBuffer)) && handled == old(handled) + Frames(old(readBuffer))
      ensures closing <==> Oversized(readBuffer) || !AllAccepted(Frames(old(readBuffer)), accepts)
    {
      hide Frames, Tail, AllAccepted, PrefixSize;
      ghost var done: seq<seq<byte>> := [];
      NothingRefused(accepts);
      while |readBuffer| >= 4
        invariant handled == old(handled) + done
        invariant Frames(old(readBuffer)) == done + Frames(readBuffer) && Tail(old(readBuffer)) == Tail(readBuffer)
        invariant closing <==> !AllAccepted(done, accepts)
        decreases |readBuffer|
      {
        var size := PrefixSize(readBuffer);
        Unfold(readBuffer);
        if size > MAX_MESSAGE_SIZE {
          closing := true;
          assert done + [] == done;
          return;
        }
        if |readBuffer| - 4 >= size {
          AcceptOneMore(done, readBuffer[..size + 4], accepts);
          assert done + ([readBuffer[..size + 4]] + Frames(readBuffer[size + 4..])) ==
                 done + [readBuffer[..size + 4]] + Frames(readBuffer[size + 4..]);
          HandleRequest(readBuffer[..size + 4]);
          done := done + [readBuffer[..size + 4]];
          readBuffer := readBuffer[size + 4..];
        } else {
          break;
        }
      }
      Unfold(readBuffer);
      assert done + [] == done;
    }

    /** An empty response means the request was invalid, and the connection is closed. */
    method HandleRequest(frame: seq<byte>)
      modifies `handled, `closing
      ensures handled == old(handled) + [frame]
      ensures closing == (old(closing) || !accepts(frame))
    {
      handled := handled + [frame];
      if !accepts(frame) { closing := true; }
    }
  }

  // ---- The client's peer connection ----

  /** The longest prefix of accepted messages. */
  function Accepted(fs: seq<seq<byte>>, accepts: seq<byte> -> bool): (r: seq<seq<byte>>)
    ensures r <= fs && AllAccepted(r, accepts)
    ensures |r| < |fs| ==> !accepts(fs[|r|])
    ensures |r| == |fs| <==> AllAccepted(fs, accepts)
  {
    if fs == [] || !accepts(fs[0]) then [] else [fs[0]] + Accepted(fs[1..], accepts)
  }

  /** A peer the client talks to over one connection after the other, with one buffer for all of them. */
  class PeerConnection {
    const accepts: seq<byte> -> bool
    var readBuffer: seq<byte>
    var handled: seq<seq<byte>>
    var closing: bool
    var attached: bool

    constructor (accepts: seq<byte> -> bool)
      ensures this.accepts == accepts && Consistent([]) && !attached
    {
      this.accepts := accepts;
      readBuffer, handled, closing, attached := [], [], false, false;
    }

    /** The peer's connections have delivered what all the bytes they received so far determine. */
    ghost predicate Consistent(received: seq<byte>)
      reads this
    {
      && handled == Accepted(Frames(received), accepts)
      && (closing <==> Oversized(Tail(received)) || !AllAccepted(Frames(received), accepts))
      && (if closing then attached else readBuffer == Tail(received))
    }

    /** Starts a new connection unless there is one. The buffer stays as it is. */
    method StartConnect(ghost received: seq<byte>)
      requires Consistent(received)
      modifies `attached
      ensures Consistent(received) && attached
    {
      if attached { return; }
      attached := true;
    }

    /** The stream ended: the socket goes, the buffer stays. A socket closed for a bad message is never let go. */
    method OnPeerEnd(ghost received: seq<byte>)
      requires Consistent(received)
      modifies `attached
      ensures Consistent(received) && attached == (old(attached) && closing)
    {
      if !closing { attached := false; }
    }

    /** Unlike the session's, this loop stops at the first message it refuses. */
    method OnPeerRead(chunk: seq<byte>, ghost received: seq<byte>)
      requires Consistent(received) && attached
      modifies this
      ensures Consistent(received + chunk) && attached
    {
      ParseResumes(received, chunk);
      if closing {
        ClosedForGood(received, chunk, accepts);
        return;
      }
      readBuffer := readBuffer + chunk;
      AcceptedAll(Frames(received), accepts);
      Drain(Frames(received), received + chunk);
    }

    method Drain(ghost before: seq<seq<byte>>, ghost stream: seq<byte>)
      requires !closing && attached && handled == before && AllAccepted(before, accepts)
      requires Frames(stream) == before + Frames(readBuffer) && Tail(stream) == Tail(readBuffer)
      modifies this
      ensures Consistent(stream) && attached
    {
      hide Frames, Tail, AllAccepted, PrefixSize, Accepted;
      while |readBuffer| >= 4
        invariant !closing && attached && AllAccepted(handled, accepts)
        invariant Frames(stream) == handled + Frames(readBuffer) && Tail(stream) == Tail(readBuffer)
        decreases |readBuffer|
      {
        var size := PrefixSize(readBuffer);
        Unfold(readBuffer);
        if size > MAX_MESSAGE_SIZE {
          closing := true;
          AcceptedPrefix(handled, [], accepts);
          return;
        }
        if |readBuffer| - 4 < size { break; }
        var frame := readBuffer[..size + 4];
        if !accepts(frame) {
          closing := true;
          AcceptedPrefix(handled, Frames(readBuffer), accepts);
          return;
        }
        AcceptOneMore(handled, frame, accepts);
        assert handled + ([frame] + Frames(readBuffer[size + 4..])) ==
               handled + [frame] + Frames(readBuffer[size + 4..]);
        handled := handled + [frame];
        readBuffer := readBuffer[size + 4..];
      }
      Unfold(readBuffer);
      AcceptedPrefix(handled, [], accepts);
    }
  }

  datatype PeerEvent = Arrived(chunk: seq<byte>) | Ended

  /** All the bytes that arrived, one connection after the other. */
  ghost function Heard(events: seq<PeerEvent>): (r: seq<byte>) {
    if events == [] then []
    else
      var e := events[|events| - 1];
      Heard(events[..|events| - 1]) + if e.Arrived? then e.chunk else []
  }

  /** Whatever connections follow one another, they deliver what one stream of all their bytes would. */
  method PeerRun(p: PeerConnection, events: seq<PeerEvent>, ghost received: seq<byte>)
    requires p.Consistent(received)
    modifies p
    ensures p.Consistent(received + Heard(events))
  {
    hide PeerConnection.Consistent;
    assert received + Heard([]) == received;
    for k := 0 to |events|
      invariant p.Consistent(received + Heard(events[..k]))
    {
      assert events[..k + 1][..k] == events[..k];
      ghost var heard := received + Heard(events[..k]);
      p.StartConnect(heard);
      match events[k] {
        case Arrived(chunk) =>
          p.OnPeerRead(chunk, heard);
          assert heard + chunk == received + Heard(events[..k + 1]);
        case Ended =>
          p.OnPeerEnd(heard);
          assert heard == received + Heard(events[..k + 1]);
      }
    }
    assert events[..|events|] == events;
  }

  lemma AcceptedAll(fs: seq<seq<byte>>, accepts: seq<byte> -> bool)
    requires AllAccepted(fs, accepts)
    ensures Accepted(fs, accepts) == fs
  {
  }

  lemma {:induction false} AcceptedPrefix(a: seq<seq<byte>>, b: seq<seq<byte>>, accepts: seq<byte> -> bool)
    requires AllAccepted(a, accepts) && (b == [] || !accepts(b[0]))
    ensures Accepted(a + b, accepts) == a
    ensures AllAccepted(a + b, accepts) <==> b == []
  {
    AcceptSplit(a, b, accepts);
    if a == [] {
      assert a + b == b;
    } else {
      assert (a + b)[1..] == a[1..] + b;
      AcceptedPrefix(a[1..], b, accepts);
    }
  }

  /** Once refused, nothing that follows changes what was delivered. */
  lemma ClosedForGood(received: seq<byte>, chunk: seq<byte>, accepts: seq<byte> -> bool)
    requires Oversized(Tail(received)) || !AllAccepted(Frames(received), accepts)
    ensures Accepted(Frames(received + chunk), accepts) == Accepted(Frames(received), accepts)
    ensures Oversized(Tail(received + chunk)) || !AllAccepted(Frames(received + chunk), accepts)
  {
    ParseResumes(received, chunk);
    var fs, more := Frames(received), Frames(Tail(received) + chunk);
    if AllAccepted(fs, accepts) {
      assert !Ready(Tail(received) + chunk) && Tail(received + chunk) == Tail(received) + chunk;
      assert fs + [] == fs;
    } else {
      AcceptSplit(fs, more, accepts);
      AcceptedStops(fs, more, accepts);
    }
  }

  lemma {:induction false} AcceptedStops(a: seq<seq<byte>>, b: seq<seq<byte>>, accepts: seq<byte> -> bool)
    requires !AllAccepted(a, accepts)
    ensures Accepted(a + b, accepts) == Accepted(a, accepts)
  {
    assert (a + b)[0] == a[0];
    if accepts(a[0]) {
      assert (a + b)[1..] == a[1..] + b;
      AcceptSplit([a[0]], a[1..], accepts);
      assert [a[0]] + a[1..] == a;
      AcceptedStops(a[1..], b, accepts);
    }
  }

  // ---- Reconnecting ----

  /** A message no incomplete beginning can be put in front of without losing it. */
  function Unlucky(t: seq<byte>): (f: seq<byte>)
    ensures IsFrame(f)
  {
    if |t| < 4 then [1, 0, 0, 0, 0] else [0, 0, 0, 0]
  }

  lemma Garbled(t: seq<byte>)
    requires t != [] && !Ready(t) && !Oversized(t)
    ensures Frames(t + Unlucky(t)) != [Unlucky(t)]
  {
    var s, f := t + Unlucky(t), Unlucky(t);
    if Ready(s) { assert Frames(s)[0] == s[..FrameSize(s)] && |f| < FrameSize(s); }
  }

  /**
   What follows a connection that ended cleanly is delivered as it is, message by
   message, exactly if that connection left no incomplete message in the buffer.
   */
  lemma ReconnectDelivers(before: seq<byte>)
    requires !Oversized(Tail(before))
    ensures Tail(before) == [] <==>
            forall fs :: (forall i :: 0 <= i < |fs| ==> IsFrame(fs[i])) ==>
              Frames(before + Concat(fs)) == Frames(before) + fs
  {
    hide Frames, Tail, Ready, Oversized, IsFrame;
    var t := Tail(before);
    if t == [] {
      forall fs: seq<seq<byte>> | forall i :: 0 <= i < |fs| ==> IsFrame(fs[i])
        ensures Frames(before + Concat(fs)) == Frames(before) + fs
      {
        ParseResumes(before, Concat(fs));
        NothingReady();
        FramesParse(fs, []);
        assert t + Concat(fs) == Concat(fs) + [];
      }
    } else {
      var fs := [Unlucky(t)];
      Garbled(t);
      ParseResumes(before, Concat(fs));
      assert Concat(fs) == Unlucky(t) + Concat([]) == Unlucky(t);
      var n := |Frames(before)|;
      assert Frames(before + Concat(fs))[n..] == Frames(t + Unlucky(t)) && (Frames(before) + fs)[n..] == fs;
    }
  }

  /** A response cut off by the end of a connection swallows the first response of the next one. */
  lemma CutOffSwallows()
    ensures Tail([4, 0, 0]) == [4, 0, 0] && IsFrame([1, 0, 0, 0, 0]) && Frames([4, 0, 0] + [1, 0, 0, 0, 0]) == []
  {
    var s: seq<byte> := [4, 0, 0] + [1, 0, 0, 0, 0];
    assert s[0] == 4 && s[1] == 0 && s[2] == 0 && s[3] == 1;
  }

  // ---- Chunking ----

  /** Every whole message of the stream except perhaps the last is accepted. */
  predicate NoneRefusedEarly(fs: seq<seq<byte>>, accepts: seq<byte> -> bool) {
    fs == [] || AllAccepted(fs[..|fs| - 1], accepts)
  }

  lemma {:induction false} ClosedReads(r: Receiver, chunks: seq<seq<byte>>, accepts: seq<byte> -> bool)
    requires r.closing
    ensures ServerReads(r, chunks, accepts) == r
    decreases |chunks|
  {
    if chunks != [] { ClosedReads(r, chunks[1..], accepts); }
  }

  /** When the head holds a refused message or an oversized length, it is the end of the stream. */
  lemma HeadEndsStream(fs: seq<seq<byte>>, more: seq<seq<byte>>, accepts: seq<byte> -> bool)
    requires NoneRefusedEarly(fs + more, accepts)
    ensures !AllAccepted(fs, accepts) ==> more == []
    ensures NoneRefusedEarly(more, accepts)
  {
    if more != [] {
      var m := more[..|more| - 1];
      assert (fs + more)[..|fs + more| - 1] == fs + m;
      AcceptSplit(fs, m, accepts);
    }
  }

  /** Reading chunk by chunk handles what reading everything at once would. */
  lemma {:induction false} ServerReadsJoin(r: Receiver, chunks: seq<seq<byte>>, accepts: seq<byte> -> bool)
    requires !r.closing && !Ready(r.buffer) && !Oversized(r.buffer)
    requires NoneRefusedEarly(Frames(r.buffer + Concat(chunks)), accepts)
    ensures ServerReads(r, chunks, accepts).handled == r.handled + Frames(r.buffer + Concat(chunks))
    ensures !ServerReads(r, chunks, accepts).closing ==>
              ServerReads(r, chunks, accepts).buffer == Tail(r.buffer + Concat(chunks))
    decreases |chunks|
  {
    hide Frames, Tail, AllAccepted, PrefixSize, NoneRefusedEarly;
    if chunks == [] {
      assert r.buffer + Concat(chunks) == r.buffer;
      Unfold(r.buffer);
    } else {
      var s, rest := r.buffer + chunks[0], Concat(chunks[1..]);
      assert r.buffer + Concat(chunks) == s + rest;
      ParseResumes(s, rest);
      var fs, more := Frames(s), Frames(Tail(s) + rest);
      HeadEndsStream(fs, more, accepts);
      var r1 := ServerRead(r, chunks[0], accepts);
      if r1.closing {
        ClosedReads(r1, chunks[1..], accepts);
        if AllAccepted(fs, accepts) { OversizedStays(Tail(s), rest); }
      } else {
        ServerReadsJoin(r1, chunks[1..], accepts);
        assert r.handled + fs + more == r.handled + (fs + more);
      }
    }
  }

  lemma OversizedStays(a: seq<byte>, b: seq<byte>)
    requires Oversized(a)
    ensures Frames(a + b) == [] && Oversized(a + b)
  {
  }

  lemma FirstIsFrame(s: seq<byte>)
    requires Ready(s)
    ensures IsFrame(s[..FrameSize(s)])
  {
  }

  lemma {:induction false} StreamIsItsFrames(s: seq<byte>)
    ensures s == Concat(Frames(s)) + Tail(s)
    ensures forall i :: 0 <= i < |Frames(s)| ==> IsFrame(Frames(s)[i])
    decreases |s|
  {
    hide PrefixSize, Ready, FrameSize, IsFrame;
    if Ready(s) {
      var n := FrameSize(s);
      FirstIsFrame(s);
      StreamIsItsFrames(s[n..]);
      assert s == s[..n] + s[n..];
    }
  }

  lemma {:induction false} ConcatAppend(a: seq<seq<byte>>, b: seq<seq<byte>>)
    ensures Concat(a + b) == Concat(a) + Concat(b)
  {
    if a == [] {
      assert a + b == b;
    } else {
      assert (a + b)[1..] == a[1..] + b;
      ConcatAppend(a[1..], b);
    }
  }

  /** Cutting the stream right after a refused message loses the messages behind it. */
  lemma CutAfterRefusal(s: seq<byte>, i: nat, accepts: seq<byte> -> bool) returns (chunks: seq<seq<byte>>)
    requires i + 1 < |Frames(s)| && !accepts(Frames(s)[i])
    ensures Concat(chunks) == s && ServerReads(FRESH, chunks, accepts).handled != Frames(s)
  {
    hide Tail, PrefixSize;
    var fs := Frames(s);
    var head, more := fs[..i + 1], fs[i + 1..];
    var first, second := Concat(head), Concat(more) + Tail(s);
    StreamIsItsFrames(s);
    assert fs == head + more;
    ConcatAppend(head, more);
    chunks := [first, second];
    assert Concat(chunks) == s by {
      assert chunks[1..] == [second] && Concat([second]) == second + Concat([]) == second;
      assert first + second == first + Concat(more) + Tail(s);
    }
    NothingReady();
    FramesParse(head, []);
    assert first + [] == first && [] + first == first;
    assert head[i] == fs[i];
    var r1 := ServerRead(FRESH, first, accepts);
    assert r1.handled == head && r1.closing;
    ClosedReads(r1, chunks[1..], accepts);
  }

  lemma NothingReady()
    ensures !Ready([]) && !Oversized([]) && Tail([]) == [] && Frames([]) == []
  {
  }

  /**
   The session sees the same messages however the stream is cut, exactly when
   no message but the last is one the handler refuses: its loop goes on draining
   the buffer after a refusal, but a later read is never delivered.
   */
  lemma ServerChunking(s: seq<byte>, accepts: seq<byte> -> bool)
    ensures (forall chunks :: Concat(chunks) == s ==> ServerReads(FRESH, chunks, accepts).handled == Frames(s))
            <==> NoneRefusedEarly(Frames(s), accepts)
  {
    NothingReady();
    var fs := Frames(s);
    if NoneRefusedEarly(fs, accepts) {
      forall chunks | Concat(chunks) == s ensures ServerReads(FRESH, chunks, accepts).handled == fs {
        assert FRESH.buffer + Concat(chunks) == s;
        ServerReadsJoin(FRESH, chunks, accepts);
        assert FRESH.handled + fs == fs;
      }
    } else {
      var i :| 0 <= i < |fs[..|fs| - 1]| && !accepts(fs[..|fs| - 1][i]);
      var chunks := CutAfterRefusal(s, i, accepts);
    }
  }

  /** Acceptable messages that are sent reach the handler one by one, and the tail stays buffered. */
  lemma SessionDelivers(ms: seq<seq<byte>>, rest: seq<byte>, chunks: seq<seq<byte>>, accepts: seq<byte> -> bool)
    requires Sendable(ms) && AllAccepted(Encoded(ms), accepts) && !Ready(rest) && !Oversized(rest)
    requires Concat(chunks) == Concat(Encoded(ms)) + rest
    ensures ServerReads(FRESH, chunks, accepts) == Receiver(rest, Encoded(ms), false)
    ensures forall i :: 0 <= i < |ms| ==> ServerReads(FRESH, chunks, accepts).handled[i][4..] == ms[i]
  {
    hide Frames, Tail, Encoded, Ready, Oversized, ServerReads;
    var fs := Encoded(ms);
    NothingReady();
    EncodedAreFrames(ms);
    FramesRoundTrip(ms, rest);
    assert FRESH.buffer + Concat(chunks) == Concat(fs) + rest;
    assert AllAccepted(fs, accepts) ==> NoneRefusedEarly(fs, accepts);
    ServerReadsJoin(FRESH, chunks, accepts);
    StaysOpen(FRESH, chunks, accepts);
    assert FRESH.handled + fs == fs;
  }

  /** The client's connection delivers them too. */
  lemma PeerDelivers(p: PeerConnection, ms: seq<seq<byte>>, rest: seq<byte>)
    requires Sendable(ms) && AllAccepted(Encoded(ms), p.accepts) && !Ready(rest) && !Oversized(rest)
    requires p.Consistent(Concat(Encoded(ms)) + rest)
    ensures p.handled == Encoded(ms) && !p.closing && p.readBuffer == rest
    ensures forall i :: 0 <= i < |ms| ==> p.handled[i][4..] == ms[i]
  {
    hide Frames, Tail, Encoded, Ready, Oversized, Accepted;
    EncodedAreFrames(ms);
    FramesRoundTrip(ms, rest);
    AcceptedAll(Encoded(ms), p.accepts);
  }

  /** A length over the limit closes the connection, once what came before it has been delivered. */
  lemma TooLongCloses(ms: seq<seq<byte>>, n: nat, more: seq<byte>, chunks: seq<seq<byte>>, accepts: seq<byte> -> bool)
    requires Sendable(ms) && AllAccepted(Encoded(ms), accepts) && MAX_MESSAGE_SIZE < n < PREFIX_LIMIT
    requires Concat(chunks) == Concat(Encoded(ms)) + (Prefix(n) + more)
    ensures ServerReads(FRESH, chunks, accepts).handled == Encoded(ms) && ServerReads(FRESH, chunks, accepts).closing
  {
    hide Frames, Tail, Encoded, ServerReads, Prefix, PrefixSize;
    PrefixReads(n, more);
    NothingReady();
    FramesRoundTrip(ms, Prefix(n) + more);
    assert FRESH.buffer + Concat(chunks) == Concat(Encoded(ms)) + (Prefix(n) + more);
    assert AllAccepted(Encoded(ms), accepts) ==> NoneRefusedEarly(Encoded(ms), accepts);
    ServerReadsJoin(FRESH, chunks, accepts);
    OpenIsAcceptable(FRESH, chunks, accepts);
    assert FRESH.handled + Encoded(ms) == Encoded(ms);
  }

  lemma {:induction false} OpenIsAcceptable(r: Receiver, chunks: seq<seq<byte>>, accepts: seq<byte> -> bool)
    requires !r.closing ==> !Oversized(r.buffer)
    ensures !ServerReads(r, chunks, accepts).closing ==> !Oversized(ServerReads(r, chunks, accepts).buffer)
    decreases |chunks|
  {
    hide Frames, Tail, AllAccepted, PrefixSize;
    if chunks != [] { OpenIsAcceptable(ServerRead(r, chunks[0], accepts), chunks[1..], accepts); }
  }

  lemma {:induction false} StaysOpen(r: Receiver, chunks: seq<seq<byte>>, accepts: seq<byte> -> bool)
    requires !r.closing && !Ready(r.buffer) && !Oversized(r.buffer)
    requires AllAccepted(Frames(r.buffer + Concat(chunks)), accepts) && !Oversized(Tail(r.buffer + Concat(chunks)))
    ensures !ServerReads(r, chunks, accepts).closing
    decreases |chunks|
  {
    hide Frames, Tail, AllAccepted, PrefixSize;
    if chunks != [] {
      var s, rest := r.buffer + chunks[0], Concat(chunks[1..]);
      assert r.buffer + Concat(chunks) == s + rest;
      ParseResumes(s, rest);
      AcceptSplit(Frames(s), Frames(Tail(s) + rest), accepts);
      if Oversized(Tail(s)) {
        OversizedStays(Tail(s), rest);
        Unfold(Tail(s) + rest);
      }
      StaysOpen(ServerRead(r, chunks[0], accepts), chunks[1..], accepts);
    }
  }
}
