/** What the receive loops of netbus/netbus.cc do to the bytes they hold, as functions: `Split` is the
    reference that cuts a whole byte stream into frames, `Drain` is one run of the receive loop and
    `Feed` a whole run of reads. */
module Framing {
  import opened Bytes
  import opened Seqs
  import T = TcpProtocol
  import W = WsProtocol

  const SESSION_RECV_LEN := 4096

  datatype Protocol = Tcp | Ws

  /** The length `memmove` is given after a frame: that of the frame just consumed, as the code is
      written, or that of the bytes remaining behind it. */
  datatype Shift = Consumed | Remaining

  /** Why a loop stops: it waits for bytes, the client sent a close frame, or a WebSocket header
      announced 2^31 bytes or more, which the code does not survive. */
  datatype Stop = Waiting | Closing | Undefined

  datatype Front = Stuck(stop: Stop) | Frame(size: nat, payload: seq<byte>)

  datatype Drained = Drained(payloads: seq<seq<byte>>, rest: seq<byte>, stop: Stop)

  function HeaderOf(p: Protocol, s: seq<byte>): Option<Header>
    requires s != []
  {
    match p
    case Tcp => T.ReadHeader(s)
    case Ws => W.ReadWsHeader(s)
  }

  /** What the loop finds at the front of the held bytes, payloads already unmasked. */
  function FrontOf(p: Protocol, s: seq<byte>): (f: Front)
    ensures f.Frame? ==> 2 <= f.size <= |s|
  {
    if s == [] then Stuck(Waiting)
    else if p.Ws? && s[0] == 0x88 then Stuck(Closing)
    else
      match HeaderOf(p, s)
      case None => Stuck(Waiting)
      case Some(h) =>
        if h.payload < 0 then Stuck(Undefined)
        else if |s| < h.head + h.payload then Stuck(Waiting)
        else
          Frame(h.head + h.payload, PayloadOf(p, s, h.head, h.payload))
  }

  /** The stream `s` cut into frames, and what is left behind the last complete one. */
  function Split(p: Protocol, s: seq<byte>): Drained
    decreases |s|
  {
    match FrontOf(p, s)
    case Stuck(stop) => Drained([], s, stop)
    case Frame(n, payload) => Then([payload], Split(p, s[n..]))
  }

  function Then(payloads: seq<seq<byte>>, d: Drained): Drained {
    d.(payloads := payloads + d.payloads)
  }

  /** The held bytes after `memmove` has closed the gap of an `n`-byte frame. Moving only `n` bytes
      leaves any others where they were. */
  function Shifted(shift: Shift, s: seq<byte>, n: nat): (r: seq<byte>)
    requires n <= |s|
    ensures |r| == |s| - n
  {
    if shift.Remaining? || |s| <= 2 * n then s[n..] else s[n..2 * n] + s[n..|s| - n]
  }

  function Drain(p: Protocol, shift: Shift, s: seq<byte>): Drained
    decreases |s|
  {
    match FrontOf(p, s)
    case Stuck(stop) => Drained([], s, stop)
    case Frame(n, payload) => Then([payload], Drain(p, shift, Shifted(shift, s, n)))
  }

  /** Behind a frame of `size` bytes, with `held` bytes held: the shift reads the receive buffer only. */
  predicate ShiftInBounds(shift: Shift, held: nat, size: nat) {
    shift.Consumed? && size < held ==> 2 * size <= SESSION_RECV_LEN
  }

  /** One run of the loop reads the receive buffer only. */
  predicate InBounds(p: Protocol, shift: Shift, s: seq<byte>)
    decreases |s|
  {
    var f := FrontOf(p, s);
    f.Frame? ==> ShiftInBounds(shift, |s|, f.size) && InBounds(p, shift, Shifted(shift, s, f.size))
  }

  /** A whole run: each chunk is appended to the held bytes and drained. */
  function Feed(p: Protocol, shift: Shift, held: seq<byte>, chunks: seq<seq<byte>>): Drained
    decreases |chunks|
  {
    if chunks == [] then Drained([], held, Waiting)
    else
      var d := Drain(p, shift, held + chunks[0]);
      if d.stop != Waiting then d else Then(d.payloads, Feed(p, shift, d.rest, chunks[1..]))
  }

  predicate FeedInBounds(p: Protocol, shift: Shift, held: seq<byte>, chunks: seq<seq<byte>>)
    decreases |chunks|
  {
    chunks == []
    || (&& InBounds(p, shift, held + chunks[0])
        && var d := Drain(p, shift, held + chunks[0]);
           d.stop == Waiting ==> FeedInBounds(p, shift, d.rest, chunks[1..]))
  }

  lemma SplitStep(p: Protocol, s: seq<byte>, rest: seq<byte>)
    requires FrontOf(p, s).Frame? && s[FrontOf(p, s).size..] == rest
    ensures Split(p, s) == Then([FrontOf(p, s).payload], Split(p, rest))
  {
    hide FrontOf;
  }

  lemma ThenTwice(a: seq<seq<byte>>, b: seq<seq<byte>>, d: Drained)
    ensures Then(a, Then(b, d)) == Then(a + b, d)
    ensures Then([], d) == d
  {
    assert a + (b + d.payloads) == (a + b) + d.payloads;
  }

  /** `FrontOf` in terms of the header alone. */
  lemma FrontCases(p: Protocol, s: seq<byte>)
    requires s != [] && !(p.Ws? && s[0] == 0x88)
    ensures HeaderOf(p, s).None? ==> FrontOf(p, s) == Stuck(Waiting)
    ensures HeaderOf(p, s).Some? ==>
              var h := HeaderOf(p, s).value;
              && 2 <= h.head <= |s|
              && (h.payload < 0 ==> FrontOf(p, s) == Stuck(Undefined))
              && (0 <= h.payload && |s| < h.head + h.payload ==> FrontOf(p, s) == Stuck(Waiting))
              && (0 <= h.payload && h.head + h.payload <= |s| ==>
                    FrontOf(p, s) == Frame(h.head + h.payload, PayloadOf(p, s, h.head, h.payload)))
  {
  }

  function PayloadOf(p: Protocol, s: seq<byte>, head: nat, len: nat): seq<byte>
    requires head + len <= |s| && (p.Ws? ==> 4 <= head)
  {
    if p.Tcp? then s[head..head + len] else W.ApplyMask(s[head - 4..head], s[head..head + len])
  }

  /** What a shift brings forward depends only on the bytes behind the frame. */
  lemma ShiftIgnoresFrame(shift: Shift, a: seq<byte>, b: seq<byte>, n: nat)
    requires n <= |a| == |b| && a[n..] == b[n..]
    ensures Shifted(shift, a, n) == Shifted(shift, b, n)
  {
    if 2 * n < |a| {
      assert a[n..2 * n] == a[n..][..n] == b[n..2 * n];
      assert a[n..|a| - n] == a[n..][..|a| - 2 * n] == b[n..|a| - n];
    }
  }

  // -------------------------------------------------------------------------------------------
  // Reassembly does not depend on how the stream was cut
  // -------------------------------------------------------------------------------------------

  lemma FrontStable(p: Protocol, a: seq<byte>, b: seq<byte>)
    requires FrontOf(p, a) != Stuck(Waiting)
    ensures FrontOf(p, a + b) == FrontOf(p, a)
  {
    hide W.ReadWsHeader, W.ApplyMask;
    var s := a + b;
    assert s[0] == a[0];
    if p.Ws? && a[0] == 0x88 {
      return;
    }
    if p.Tcp? {
      assert s[..2] == a[..2];
    } else {
      W.HeaderStable(a, b);
    }
    var h := HeaderOf(p, a).value;
    assert HeaderOf(p, s) == Some(h);
    if 0 <= h.payload {
      assert s[h.head..h.head + h.payload] == a[h.head..h.head + h.payload];
      if p.Ws? {
        assert s[h.head - 4..h.head] == a[h.head - 4..h.head];
      }
    }
  }

  /** Cutting a stream in two changes nothing: the frames of the whole are those of the first part
      and then those of its remainder joined with the second part. */
  lemma {:induction false} SplitAppend(p: Protocol, a: seq<byte>, b: seq<byte>)
    ensures var d := Split(p, a);
            Split(p, a + b) == if d.stop == Waiting then Then(d.payloads, Split(p, d.rest + b))
                               else d.(rest := d.rest + b)
    decreases |a|
  {
    hide FrontOf;
    var f := FrontOf(p, a);
    if f != Stuck(Waiting) {
      FrontStable(p, a, b);
    }
    match f
    case Stuck(_) =>
    case Frame(n, payload) =>
      var d := Split(p, a[n..]);
      SplitAppend(p, a[n..], b);
      SuffixOfSum(a, b, n);
      ThenTwice([payload], d.payloads, Split(p, d.rest + b));
  }

  lemma {:induction false} SplitRest(p: Protocol, s: seq<byte>)
    ensures var d := Split(p, s); |d.rest| <= |s| && d.rest == s[|s| - |d.rest|..]
                                  && FrontOf(p, d.rest) == Stuck(d.stop)
    decreases |s|
  {
    hide FrontOf;
    var f := FrontOf(p, s);
    if f.Frame? {
      SplitRest(p, s[f.size..]);
      SuffixOfSuffix(s, f.size, |Split(p, s).rest|);
    }
  }

  lemma {:induction false} DrainIsSplit(p: Protocol, s: seq<byte>)
    ensures Drain(p, Remaining, s) == Split(p, s)
    decreases |s|
  {
    var f := FrontOf(p, s);
    if f.Frame? {
      DrainIsSplit(p, s[f.size..]);
    }
  }

  /** The intended shift reads the receive buffer only. */
  lemma {:induction false} IntendedInBounds(p: Protocol, held: seq<byte>, chunks: seq<seq<byte>>)
    ensures FeedInBounds(p, Remaining, held, chunks)
    decreases |chunks|
  {
    hide FrontOf;
    if chunks != [] {
      DrainInBounds(p, held + chunks[0]);
      IntendedInBounds(p, Drain(p, Remaining, held + chunks[0]).rest, chunks[1..]);
    }
  }

  lemma {:induction false} DrainInBounds(p: Protocol, s: seq<byte>)
    ensures InBounds(p, Remaining, s)
    decreases |s|
  {
    hide FrontOf;
    var f := FrontOf(p, s);
    if f.Frame? {
      DrainInBounds(p, Shifted(Remaining, s, f.size));
    }
  }

  /** For every stream and every way of cutting it into reads, the machine that moves the remaining
      bytes dispatches exactly the frames of the stream, in order, each once; and it holds exactly
      the unfinished suffix. Behind a close frame the reads that follow are not looked at. */
  lemma {:induction false} FeedIsSplit(p: Protocol, held: seq<byte>, chunks: seq<seq<byte>>)
    requires FrontOf(p, held) == Stuck(Waiting)
    ensures var f := Feed(p, Remaining, held, chunks); var d := Split(p, held + Concat(chunks));
            && f.payloads == d.payloads && f.stop == d.stop
            && (d.stop == Waiting ==> f.rest == d.rest)
    decreases |chunks|
  {
    if chunks == [] {
      assert held + Concat(chunks) == held;
    } else {
      hide FrontOf;
      var first, later := held + chunks[0], Concat(chunks[1..]);
      DrainIsSplit(p, first);
      Assoc(held, chunks[0], later);
      SplitAppend(p, first, later);
      SplitRest(p, first);
      var d := Split(p, first);
      hide Split, Drain;
      if d.stop == Waiting {
        FeedIsSplit(p, d.rest, chunks[1..]);
      }
    }
  }

  // -------------------------------------------------------------------------------------------
  // Streams written by clients
  // -------------------------------------------------------------------------------------------

  function TcpStream(payloads: seq<seq<byte>>): seq<byte> {
    if payloads == [] then [] else T.Frame(payloads[0]) + TcpStream(payloads[1..])
  }

  function WsStream(frames: seq<W.ClientFrame>): seq<byte>
    requires forall f <- frames :: f.Valid()
  {
    if frames == [] then [] else W.WireOf(frames[0]) + WsStream(frames[1..])
  }

  function WsPayloads(frames: seq<W.ClientFrame>): seq<seq<byte>> {
    seq(|frames|, i requires 0 <= i < |frames| => frames[i].payload)
  }

  lemma TcpFront(data: seq<byte>, rest: seq<byte>)
    requires |data| <= 65535
    ensures FrontOf(Tcp, T.Frame(data) + rest) == Frame(|data| + 2, data)
    ensures (T.Frame(data) + rest)[|data| + 2..] == rest
  {
    T.ReadBackData(data, rest);
  }

  lemma WsFront(f: W.ClientFrame, rest: seq<byte>)
    requires f.Valid()
    ensures FrontOf(Ws, W.WireOf(f) + rest) == Frame(|W.WireOf(f)|, f.payload)
    ensures (W.WireOf(f) + rest)[|W.WireOf(f)|..] == rest
  {
    assert W.WireOf(f)[0] == f.opcode;
    hide W.WireOf, W.ReadWsHeader;
    W.ReadClientHeader(f, rest);
    W.MaskTwice(f.mask, f.payload);
    assert (W.WireOf(f) + rest)[0] == f.opcode;
  }

  lemma {:induction false} TcpStreamSplit(payloads: seq<seq<byte>>, tail: seq<byte>)
    requires forall d <- payloads :: |d| <= 65535
    ensures Split(Tcp, TcpStream(payloads) + tail) == Then(payloads, Split(Tcp, tail))
  {
    hide FrontOf, T.Frame, Then, Split;
    ThenTwice([], [], Split(Tcp, tail));
    if payloads == [] {
      assert TcpStream(payloads) + tail == tail;
    } else {
      var first, later := payloads[0], payloads[1..];
      var rest := TcpStream(later) + tail;
      TcpFront(first, rest);
      SplitStep(Tcp, T.Frame(first) + rest, rest);
      TcpStreamSplit(later, tail);
      ThenTwice([first], later, Split(Tcp, tail));
      Assoc(T.Frame(first), TcpStream(later), tail);
      assert payloads == [first] + later;
    }
  }

  lemma TcpFrontFrame(s: seq<byte>)
    ensures var f := FrontOf(Tcp, s);
            if f.Frame? then s[..f.size] == T.Frame(f.payload) else f.stop == Waiting
  {
    if FrontOf(Tcp, s).Frame? {
      T.FrameOfPayload(s);
    }
  }

  /** The partner of `TcpStreamSplit`: framing the payloads found and appending the rest gives the
      stream back, so no byte is lost, invented or moved. */
  lemma {:induction false} SplitTcpStream(s: seq<byte>)
    ensures var d := Split(Tcp, s); TcpStream(d.payloads) + d.rest == s && d.stop == Waiting
    decreases |s|
  {
    TcpFrontFrame(s);
    hide FrontOf, T.Frame, TcpStream;
    var f := FrontOf(Tcp, s);
    if f.Frame? {
      var d := Split(Tcp, s[f.size..]);
      SplitTcpStream(s[f.size..]);
      TcpStreamCons(f.payload, d.payloads);
      Assoc(s[..f.size], TcpStream(d.payloads), d.rest);
      CutAt(s, f.size);
    } else {
      NoTcpStream(s);
    }
  }

  lemma NoTcpStream(s: seq<byte>)
    ensures TcpStream([]) + s == s
  {
  }

  lemma {:induction false} WsStreamSplit(frames: seq<W.ClientFrame>, tail: seq<byte>)
    requires forall f <- frames :: f.Valid()
    ensures Split(Ws, WsStream(frames) + tail) == Then(WsPayloads(frames), Split(Ws, tail))
  {
    hide FrontOf, W.WireOf, Then, Split;
    ThenTwice([], [], Split(Ws, tail));
    if frames == [] {
      assert WsStream(frames) + tail == tail;
    } else {
      var f, later := frames[0], frames[1..];
      var rest := WsStream(later) + tail;
      WsFront(f, rest);
      SplitStep(Ws, W.WireOf(f) + rest, rest);
      WsStreamSplit(later, tail);
      ThenTwice([f.payload], WsPayloads(later), Split(Ws, tail));
      Assoc(W.WireOf(f), WsStream(later), tail);
      assert WsPayloads(frames) == [f.payload] + WsPayloads(later);
    }
  }

  /** The partner of `WsFront`: what a WebSocket session takes for a frame is a text or binary frame, masked,
      with the payload that is dispatched. */
  lemma WsFrontFrame(s: seq<byte>) returns (field: seq<byte>, mask: seq<byte>)
    requires FrontOf(Ws, s).Frame?
    ensures s[0] in {0x81, 0x82} && |mask| == 4
    ensures var f := FrontOf(Ws, s);
            s[..f.size] == [s[0]] + field + mask + W.ApplyMask(mask, f.payload) && W.DenotesLength(field, |f.payload|)
  {
    assert s != [] && s[0] != 0x88;
    FrontCases(Ws, s);
    hide FrontOf, W.ReadWsHeader, W.ApplyMask, W.DenotesLength;
    field, mask := W.HeaderSound(s);
    var h := HeaderOf(Ws, s).value;
    MaskedFrame(s, h.head, h.payload, field, mask);
  }

  lemma MaskedFrame(s: seq<byte>, head: nat, len: nat, field: seq<byte>, mask: seq<byte>)
    requires 4 <= head && head + len <= |s| && |mask| == 4 && s[..head] == [s[0]] + field + mask
    ensures s[..head + len] == [s[0]] + field + mask + W.ApplyMask(mask, PayloadOf(Ws, s, head, len))
  {
    var masked := s[head..head + len];
    W.MaskTwice(mask, masked);
    hide W.ApplyMask;
    SuffixOfPrefix([s[0]] + field, mask);
    assert s[head - 4..head] == s[..head][head - 4..] == mask;
    assert s[..head + len] == s[..head] + masked;
  }

  lemma {:induction false} TcpStreamAppend(a: seq<seq<byte>>, b: seq<seq<byte>>)
    ensures TcpStream(a + b) == TcpStream(a) + TcpStream(b)
  {
    if a == [] {
      assert a + b == b;
    } else {
      assert (a + b)[1..] == a[1..] + b;
      TcpStreamAppend(a[1..], b);
    }
  }

  lemma TcpStreamCons(data: seq<byte>, later: seq<seq<byte>>)
    ensures TcpStream([data] + later) == T.Frame(data) + TcpStream(later)
    ensures TcpStream([data]) == T.Frame(data)
  {
    hide T.Frame;
    assert ([data] + later)[1..] == later;
    assert [data][1..] == [];
    assert T.Frame(data) + [] == T.Frame(data);
  }
}
