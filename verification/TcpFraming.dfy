/** Reassembly of length-prefixed DNS messages (RFC 7766 section 8). */
module TcpFraming {
  import opened Bytes

  const MAX_BUFFER: nat := 65536

  /** Complete messages, what stays buffered, and whether a zero length ended the connection. */
  datatype Parsed = Parsed(messages: seq<Octets>, rest: Octets, closed: bool)

  function Frames(b: Octets): Parsed
    decreases |b|
  {
    if |b| < 2 then Parsed([], b, false)
    else
      var len := U16(b, 0);
      if len == 0 then Parsed([], b, true)
      else if |b| < 2 + len then Parsed([], b, false)
      else
        var tail := Frames(b[2 + len..]);
        tail.(messages := [b[2..2 + len]] + tail.messages)
  }

  /** A frame not yet complete. */
  predicate Incomplete(b: Octets)
  {
    |b| < 2 || (0 < U16(b, 0) && |b| < 2 + U16(b, 0))
  }

  datatype Conn = Open(buffer: Octets) | Closed

  /** One data event: the messages handed to the resolver and the state after it. */
  function Feed(c: Conn, data: Octets): (seq<Octets>, Conn)
  {
    match c
    case Closed => ([], Closed)
    case Open(buffer) =>
      if |buffer| + |data| > MAX_BUFFER then ([], Closed)
      else
        var p := Frames(buffer + data);
        (p.messages, if p.closed then Closed else Open(p.rest))
  }

  class TcpConnection {
    var buffer: array<byte>
    var destroyed: bool

    ghost function View(): Conn
      reads this, buffer
    {
      if destroyed then Closed else Open(buffer[..])
    }

    constructor ()
      ensures View() == Open([])
    {
      buffer := new byte[0];
      destroyed := false;
    }

    method OnData(data: Octets) returns (queries: seq<Octets>)
      modifies this
      ensures (queries, View()) == Feed(old(View()), data)
    {
      queries := [];
      if destroyed { return; }
      if buffer.Length + |data| > MAX_BUFFER {
        destroyed := true;
        return;
      }
      buffer := ToBuffer(buffer[..] + data);
      ghost var all := buffer[..];
      FramesAfterAppends(all, []);
      hide Frames, FramesAfter, U16;
      while buffer.Length >= 2
        invariant !destroyed
        invariant FramesAfter(buffer[..], queries) == FramesAfter(all, [])
        decreases buffer.Length
      {
        var length: nat := U16(buffer[..], 0);
        FramesAfterStep(buffer[..], queries);
        if length == 0 {
          destroyed := true;
          return;
        }
        if buffer.Length < 2 + length { break; }
        queries := queries + [buffer[2..2 + length]];
        buffer := ToBuffer(buffer[2 + length..]);
      }
      FramesAfterEnd(buffer[..], queries);
    }
  }

  /** Frames with the messages emitted so far. */
  ghost function FramesAfter(b: Octets, acc: seq<Octets>): Parsed
    decreases |b|
  {
    if |b| < 2 then Parsed(acc, b, false)
    else
      var len := U16(b, 0);
      if len == 0 then Parsed(acc, b, true)
      else if |b| < 2 + len then Parsed(acc, b, false)
      else FramesAfter(b[2 + len..], acc + [b[2..2 + len]])
  }

  /** One turn of the framing loop. */
  lemma FramesAfterStep(b: Octets, acc: seq<Octets>)
    requires |b| >= 2
    ensures U16(b, 0) == 0 ==> FramesAfter(b, acc) == Parsed(acc, b, true)
    ensures 0 < U16(b, 0) && 2 + U16(b, 0) <= |b| ==>
              FramesAfter(b, acc) == FramesAfter(b[2 + U16(b, 0)..], acc + [b[2..2 + U16(b, 0)]])
  {
  }

  lemma FramesAfterEnd(b: Octets, acc: seq<Octets>)
    requires Incomplete(b)
    ensures FramesAfter(b, acc) == Parsed(acc, b, false)
  {
  }

  lemma {:induction false} FramesAfterAppends(b: Octets, acc: seq<Octets>)
    ensures FramesAfter(b, acc) == Frames(b).(messages := acc + Frames(b).messages)
    ensures acc == [] ==> FramesAfter(b, acc) == Frames(b)
    decreases |b|
  {
    if |b| < 2 || U16(b, 0) == 0 || |b| < 2 + U16(b, 0) {
      assert acc + [] == acc;
    } else {
      var len := U16(b, 0);
      FramesAfterAppends(b[2 + len..], acc + [b[2..2 + len]]);
      assert acc + Frames(b).messages == acc + [b[2..2 + len]] + Frames(b[2 + len..]).messages;
    }
  }

  // ---------------------------------------------------------------- chunk independence

  /** Parsing a stream in two parts is parsing it whole, as long as no zero length has been met. */
  lemma {:induction false} FramesAppend(a: Octets, b: Octets)
    ensures Frames(a).closed ==> Frames(a + b).closed && Frames(a + b).messages == Frames(a).messages
    ensures !Frames(a).closed ==>
              var p, q := Frames(a), Frames(Frames(a).rest + b);
              Frames(a + b) == q.(messages := p.messages + q.messages)
    decreases |a|
  {
    if |a| >= 2 {
      var len: nat := U16(a, 0);
      assert U16(a + b, 0) == len;
      if len > 0 && |a| >= 2 + len {
        assert (a + b)[2 + len..] == a[2 + len..] + b && (a + b)[2..2 + len] == a[2..2 + len];
        FramesAppend(a[2 + len..], b);
        hide Frames, U16;
        assert forall x: seq<Octets>, y: seq<Octets>, m: Octets :: [m] + (x + y) == [m] + x + y;
      }
    }
  }

  function Concat(chunks: seq<Octets>): Octets
  {
    if chunks == [] then [] else chunks[0] + Concat(chunks[1..])
  }

  /** A run over chunks: every message emitted, and the final state. */
  function Run(c: Conn, chunks: seq<Octets>): (seq<Octets>, Conn)
    decreases |chunks|
  {
    if chunks == [] then ([], c)
    else
      var (ms, c1) := Feed(c, chunks[0]);
      var (more, c2) := Run(c1, chunks[1..]);
      (ms + more, c2)
  }

  /** Buffered plus incoming never exceeds the limit while the connection is open. */
  predicate NeverOverflows(c: Conn, chunks: seq<Octets>)
    decreases |chunks|
  {
    chunks == [] || c.Closed?
    || (|c.buffer| + |chunks[0]| <= 65536 && NeverOverflows(Feed(c, chunks[0]).1, chunks[1..]))
  }

  lemma {:induction false} ClosedStays(chunks: seq<Octets>)
    ensures Run(Closed, chunks) == ([], Closed)
    decreases |chunks|
  {
    if chunks != [] {
      ClosedStays(chunks[1..]);
      assert Feed(Closed, chunks[0]) == ([], Closed);
      assert Run(Closed, chunks).0 == [] + Run(Closed, chunks[1..]).0;
    }
  }

  lemma {:induction false} FramesRestIsFixed(b: Octets)
    ensures !Frames(b).closed ==> Frames(Frames(b).rest) == Parsed([], Frames(b).rest, false)
    decreases |b|
  {
    if |b| >= 2 && 0 < U16(b, 0) && |b| >= 2 + U16(b, 0) {
      FramesRestIsFixed(b[2 + U16(b, 0)..]);
    }
  }

  lemma {:induction false} RunFrom(buffer: Octets, chunks: seq<Octets>)
    requires NeverOverflows(Open(buffer), chunks)
    requires Frames(buffer) == Parsed([], buffer, false)
    ensures var p := Frames(buffer + Concat(chunks));
            Run(Open(buffer), chunks) == (p.messages, if p.closed then Closed else Open(p.rest))
    decreases |chunks|
  {
    if chunks == [] {
      assert buffer + [] == buffer;
    } else {
      var now, later := buffer + chunks[0], Concat(chunks[1..]);
      assert buffer + Concat(chunks) == now + later;
      FramesAppend(now, later);
      FramesRestIsFixed(now);
      hide Frames;
      if Frames(now).closed {
        ClosedStays(chunks[1..]);
        assert Frames(now).messages + [] == Frames(now).messages;
      } else {
        RunFrom(Frames(now).rest, chunks[1..]);
      }
    }
  }

  /** Any two ways of cutting a stream that never overflow emit the same messages and leave the same state:
      those of the stream parsed whole. */
  lemma FramingIsChunkIndependent(chunks: seq<Octets>)
    requires NeverOverflows(Open([]), chunks)
    ensures var p := Frames(Concat(chunks));
            Run(Open([]), chunks) == (p.messages, if p.closed then Closed else Open(p.rest))
  {
    assert [] + Concat(chunks) == Concat(chunks);
    RunFrom([], chunks);
  }

  // ---------------------------------------------------------------- messages

  predicate Framable(ms: seq<Octets>)
  {
    forall i :: 0 <= i < |ms| ==> 0 < |ms[i]| < 0x1_0000
  }

  function Stream(ms: seq<Octets>): Octets
    requires Framable(ms)
  {
    if ms == [] then [] else Be16(|ms[0]|) + ms[0] + Stream(ms[1..])
  }

  lemma OneFrame(m: Octets, rest: Octets)
    requires 0 < |m| < 0x1_0000
    ensures Frames(Be16(|m|) + m + rest) == Frames(rest).(messages := [m] + Frames(rest).messages)
  {
    var b := Be16(|m|) + m + rest;
    assert At(b, 0, Be16(|m|));
    ReadBe16(b, 0, |m|);
    hide U16, Be16;
    assert b[2..2 + |m|] == m && b[2 + |m|..] == rest;
  }

  lemma {:induction false} StreamParses(ms: seq<Octets>, tail: Octets)
    requires Framable(ms) && Incomplete(tail)
    ensures Frames(Stream(ms) + tail) == Parsed(ms, tail, false)
    decreases |ms|
  {
    if ms == [] {
      assert Stream(ms) + tail == tail;
    } else {
      StreamHead(ms, tail);
      OneFrame(ms[0], Stream(ms[1..]) + tail);
      StreamParses(ms[1..], tail);
      hide *;
      assert [ms[0]] + ms[1..] == ms;
    }
  }

  lemma StreamHead(ms: seq<Octets>, tail: Octets)
    requires Framable(ms) && ms != []
    ensures 0 < |ms[0]| < 0x1_0000 && Framable(ms[1..])
    ensures Stream(ms) + tail == Be16(|ms[0]|) + ms[0] + (Stream(ms[1..]) + tail)
  {
    assert Stream(ms) == Be16(|ms[0]|) + ms[0] + Stream(ms[1..]);
    hide *;
    Associates(Be16(|ms[0]|) + ms[0], Stream(ms[1..]), tail);
  }

  lemma Associates(a: Octets, b: Octets, c: Octets)
    ensures a + b + c == a + (b + c)
  {
  }

  /** An overflow ends the connection for good. */
  lemma {:induction false} OverflowCloses(c: Conn, chunks: seq<Octets>)
    requires !NeverOverflows(c, chunks)
    ensures Run(c, chunks).1 == Closed
    decreases |chunks|
  {
    hide Frames;
    var next := Feed(c, chunks[0]).1;
    if |c.buffer| + |chunks[0]| > MAX_BUFFER {
      ClosedStays(chunks[1..]);
    } else {
      OverflowCloses(next, chunks[1..]);
    }
  }

  /** A stream of non-empty messages, cut anywhere, is emitted exactly and in order, with an incomplete frame left in
      the buffer, if and only if the cut never overflows. */
  lemma {:induction false} MessagesArriveInOrder(ms: seq<Octets>, tail: Octets, chunks: seq<Octets>)
    requires Framable(ms) && Incomplete(tail) && Concat(chunks) == Stream(ms) + tail
    ensures Run(Open([]), chunks) == (ms, Open(tail)) <==> NeverOverflows(Open([]), chunks)
  {
    if NeverOverflows(Open([]), chunks) {
      FramingIsChunkIndependent(chunks);
      StreamParses(ms, tail);
    } else {
      OverflowCloses(Open([]), chunks);
    }
  }

  lemma {:induction false} FramesAreShort(b: Octets, i: nat)
    requires i < |Frames(b).messages|
    ensures 0 < |Frames(b).messages[i]| && |Frames(b).messages[i]| + 2 <= |b|
    decreases |b|
  {
    var len := U16(b, 0);
    if i > 0 {
      FramesAreShort(b[2 + len..], i - 1);
    }
  }

  predicate Deliverable(ms: seq<Octets>)
  {
    forall i :: 0 <= i < |ms| ==> 0 < |ms[i]| <= 65534
  }

  lemma EmittedAreShort(c: Conn, data: Octets)
    ensures Deliverable(Feed(c, data).0)
  {
    if c.Open? {
      var b := c.buffer + data;
      forall i | 0 <= i < |Frames(b).messages|
        ensures 0 < |Frames(b).messages[i]| && |Frames(b).messages[i]| + 2 <= |b|
      {
        FramesAreShort(b, i);
      }
    }
  }

  lemma {:induction false} RunEmitsShort(c: Conn, chunks: seq<Octets>)
    ensures Deliverable(Run(c, chunks).0)
    decreases |chunks|
  {
    hide Feed;
    if chunks != [] {
      EmittedAreShort(c, chunks[0]);
      RunEmitsShort(Feed(c, chunks[0]).1, chunks[1..]);
    }
  }

  /** Every message in a chunk of its own. */
  function FrameByFrame(ms: seq<Octets>): seq<Octets>
    requires Deliverable(ms)
  {
    if ms == [] then [] else [Be16(|ms[0]|) + ms[0]] + FrameByFrame(ms[1..])
  }

  lemma OneChunk(m: Octets)
    requires 0 < |m| <= 65534
    ensures Feed(Open([]), Be16(|m|) + m) == ([m], Open([]))
  {
    OneFrame(m, []);
    assert Frames([]) == Parsed([], [], false);
    hide Be16, Frames;
    var frame := Be16(|m|) + m;
    assert frame + [] == frame == [] + frame;
    assert [m] + [] == [m];
  }

  lemma {:induction false} FrameByFrameArrives(ms: seq<Octets>)
    requires Deliverable(ms)
    ensures Run(Open([]), FrameByFrame(ms)) == (ms, Open([]))
  {
    if ms != [] {
      OneChunk(ms[0]);
      FrameByFrameArrives(ms[1..]);
      hide Feed, Be16;
      assert FrameByFrame(ms)[1..] == FrameByFrame(ms[1..]);
      assert [ms[0]] + ms[1..] == ms;
    }
  }

  /** Some stream delivers exactly these messages if and only if each has 1 to 65534 octets: the buffer limit makes the
      longest message the prefix can announce, 65535 octets, undeliverable, and only that one. */
  lemma {:induction false} DeliverableExactly(ms: seq<Octets>)
    ensures (exists chunks :: Run(Open([]), chunks) == (ms, Open([]))) <==> Deliverable(ms)
  {
    if Deliverable(ms) {
      FrameByFrameArrives(ms);
    }
    if chunks :| Run(Open([]), chunks) == (ms, Open([])) {
      RunEmitsShort(Open([]), chunks);
    }
  }
}
