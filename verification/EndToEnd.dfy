/** The codecs and the receive machine together: what one side sends is what the other side's services
    are handed, however the network cuts the bytes. */
module EndToEnd {
  import opened Bytes
  import opened Seqs
  import opened Framing
  import opened AsWritten
  import opened UvSession
  import T = TcpProtocol
  import W = WsProtocol
  import PM = ProtoManager

  // -------------------------------------------------------------------------------------------
  // A window is always open
  // -------------------------------------------------------------------------------------------

  /** On a TCP session the window is never empty between two events: a full buffer begins with a
      header that announces more than it holds. */
  lemma TcpWindowOpen(held: seq<byte>)
    requires FrontOf(Tcp, held) == Stuck(Waiting)
    ensures Readable(Tcp, held)
  {
  }

  /** So a TCP session never runs into undefined behaviour for want of a window, whichever length it
      moves and whatever it is sent. */
  lemma {:induction false} TcpSound(shift: Shift, held: seq<byte>, chunks: seq<seq<byte>>)
    requires FrontOf(Tcp, held) == Stuck(Waiting)
    ensures Sound(Tcp, shift, held, chunks)
    decreases |chunks|
  {
    TcpWindowOpen(held);
    if chunks != [] {
      hide FrontOf, Readable, Drain;
      var s := held + chunks[0];
      DrainFront(Tcp, shift, s);
      TcpNeverCloses(shift, s);
      TcpSound(shift, Drain(Tcp, shift, s).rest, chunks[1..]);
    }
  }

  /** Held bytes that begin a stream of client frames are never a complete buffer without a window,
      and never a close frame or an oversized header. */
  lemma WsFrontOfStream(held: seq<byte>, later: seq<byte>, frames: seq<W.ClientFrame>)
    requires forall f <- frames :: f.Valid()
    requires held + later == WsStream(frames)
    ensures FrontOf(Ws, held) == Stuck(Waiting)
         || (frames != [] && FrontOf(Ws, held) == Frame(|W.WireOf(frames[0])|, frames[0].payload))
    ensures FrontOf(Ws, held) == Stuck(Waiting) ==> Readable(Ws, held)
  {
    if held != [] {
      assert frames != [] by { assert held + later != []; }
      WsFront(frames[0], WsStream(frames[1..]));
      if FrontOf(Ws, held) != Stuck(Waiting) {
        FrontStable(Ws, held, later);
      } else {
        assert held[0] == (held + later)[0] == frames[0].opcode by { WireBegins(frames[0], WsStream(frames[1..])); }
        OpcodeReadable(held);
      }
    }
  }

  lemma WireBegins(f: W.ClientFrame, rest: seq<byte>)
    requires f.Valid()
    ensures W.WireOf(f) + rest != [] && (W.WireOf(f) + rest)[0] == f.opcode
  {
  }

  lemma OpcodeReadable(held: seq<byte>)
    requires held != [] && held[0] in {0x81, 0x82} && FrontOf(Ws, held) == Stuck(Waiting)
    ensures Readable(Ws, held)
  {
  }

  /** Splitting the first part of a stream of frames leaves the beginning of a stream of frames. */
  lemma {:induction false} WsRest(a: seq<byte>, later: seq<byte>, frames: seq<W.ClientFrame>) returns (k: nat)
    requires forall f <- frames :: f.Valid()
    requires a + later == WsStream(frames)
    ensures k <= |frames| && Split(Ws, a).stop == Waiting
    ensures Split(Ws, a).rest + later == WsStream(frames[k..])
    decreases |frames|
  {
    WsFrontOfStream(a, later, frames);
    hide FrontOf, W.WireOf;
    if FrontOf(Ws, a).Stuck? {
      k := 0;
      assert frames[0..] == frames;
    } else {
      var n := |W.WireOf(frames[0])|;
      assert a[n..] + later == WsStream(frames[1..]) by {
        SuffixOfSum(a, later, n);
        SuffixOfPrefix(W.WireOf(frames[0]), WsStream(frames[1..]));
      }
      var j := WsRest(a[n..], later, frames[1..]);
      k := j + 1;
      assert frames[1..][j..] == frames[k..];
    }
  }

  /** A WebSocket session that is sent masked text and binary frames never runs into undefined
      behaviour. */
  lemma {:induction false} WsSound(held: seq<byte>, chunks: seq<seq<byte>>, frames: seq<W.ClientFrame>)
    requires forall f <- frames :: f.Valid()
    requires held + Concat(chunks) == WsStream(frames)
    requires FrontOf(Ws, held) == Stuck(Waiting)
    ensures Sound(Ws, Remaining, held, chunks)
    decreases |chunks|
  {
    WsFrontOfStream(held, Concat(chunks), frames);
    if chunks != [] {
      hide FrontOf, Readable, W.WireOf, WsStream, Split, Drain;
      var s, later := held + chunks[0], Concat(chunks[1..]);
      Assoc(held, chunks[0], later);
      var k := WsRest(s, later, frames);
      DrainIsSplit(Ws, s);
      SplitRest(Ws, s);
      WsSound(Split(Ws, s).rest, chunks[1..], frames[k..]);
    }
  }

  // -------------------------------------------------------------------------------------------
  // Whole runs
  // -------------------------------------------------------------------------------------------

  /** A TCP session fed the frames of any payloads, cut anywhere: each payload is dispatched once, in
      order, and exactly the bytes of the unfinished frame stay held. */
  lemma TcpReassembly(payloads: seq<seq<byte>>, tail: seq<byte>, chunks: seq<seq<byte>>)
    requires forall d <- payloads :: |d| <= 65535
    requires FrontOf(Tcp, tail) == Stuck(Waiting)
    requires Concat(chunks) == TcpStream(payloads) + tail
    ensures Feed(Tcp, Remaining, [], chunks) == Drained(payloads, tail, Waiting)
  {
    assert FrontOf(Tcp, []) == Stuck(Waiting);
    assert Split(Tcp, tail) == Drained([], tail, Waiting);
    hide FrontOf, Split, Feed;
    FeedIsSplit(Tcp, [], chunks);
    assert [] + Concat(chunks) == Concat(chunks);
    TcpStreamSplit(payloads, tail);
    RightEmpty(payloads);
  }

  /** A WebSocket session fed masked client frames, cut anywhere: the payloads the client wrote are
      dispatched, each unmasked once, in order, and nothing stays held. */
  lemma WsReassembly(frames: seq<W.ClientFrame>, chunks: seq<seq<byte>>)
    requires forall f <- frames :: f.Valid()
    requires Concat(chunks) == WsStream(frames)
    ensures Feed(Ws, Remaining, [], chunks) == Drained(WsPayloads(frames), [], Waiting)
    ensures Sound(Ws, Remaining, [], chunks)
  {
    assert FrontOf(Ws, []) == Stuck(Waiting);
    assert Split(Ws, []) == Drained([], [], Waiting);
    hide FrontOf, Split, Feed, Sound;
    FeedIsSplit(Ws, [], chunks);
    assert [] + Concat(chunks) == Concat(chunks);
    WsStreamSplit(frames, []);
    RightEmpty(WsStream(frames));
    RightEmpty(WsPayloads(frames));
    WsSound([], chunks, frames);
  }

  // -------------------------------------------------------------------------------------------
  // Messages
  // -------------------------------------------------------------------------------------------

  /** A message whose body the codec writes, and reads back wherever it wrote any bytes, and whose
      encoding fits a TCP frame. */
  predicate Sendable<B(==)>(codec: PM.BodyCodec<B>, msg: PM.CmdMsg<B>) {
    && (msg.body.Some? ==> PM.BodyLegible(codec, msg.ctype, msg.body.value))
    && PM.EncodeMsg(codec, msg).Some? && |PM.EncodeMsg(codec, msg).value| <= 65535
  }

  function Encoded<B>(codec: PM.BodyCodec<B>, msgs: seq<PM.CmdMsg<B>>): (r: seq<seq<byte>>)
    requires forall i :: 0 <= i < |msgs| ==> Sendable(codec, msgs[i])
    ensures |r| == |msgs|
    ensures forall i :: 0 <= i < |msgs| ==> Sendable(codec, msgs[i]) && r[i] == PM.EncodeMsg(codec, msgs[i]).value
  {
    if msgs == [] then [] else
      assert Sendable(codec, msgs[0]);
      [PM.EncodeMsg(codec, msgs[0]).value] + Encoded(codec, msgs[1..])
  }

  /** What a service reads from the commands handed to it. */
  function Decoded<B>(codec: PM.BodyCodec<B>, cmds: seq<PM.RawCmd>): seq<Option<PM.CmdMsg<B>>> {
    if cmds == [] then [] else [PM.DecodeCmd(codec, cmds[0].raw)] + Decoded(codec, cmds[1..])
  }

  /** The messages as they arrive: types cut to sixteen bits, and no body where none was written. */
  function Arriving<B>(codec: PM.BodyCodec<B>, msgs: seq<PM.CmdMsg<B>>): seq<Option<PM.CmdMsg<B>>> {
    if msgs == [] then [] else [Some(PM.Arrives(codec, msgs[0]))] + Arriving(codec, msgs[1..])
  }

  lemma EncodingDecodes<B>(codec: PM.BodyCodec<B>, msg: PM.CmdMsg<B>)
    requires Sendable(codec, msg)
    ensures var s := PM.EncodeMsg(codec, msg).value;
            && PM.DecodeCmd(codec, s) == Some(PM.Arrives(codec, msg))
            && PM.DecodeRaw(s) == Some(PM.RawCmd(msg.stype % 0x1_0000, msg.ctype % 0x1_0000, msg.utag, s))
  {
    PM.MessageRoundTrip(codec, msg);
    PM.RawOfMessage(codec, msg);
  }

  lemma {:induction false} EncodingsDecode<B>(codec: PM.BodyCodec<B>, msgs: seq<PM.CmdMsg<B>>)
    requires forall i :: 0 <= i < |msgs| ==> Sendable(codec, msgs[i])
    ensures Decoded(codec, Commands(Encoded(codec, msgs))) == Arriving(codec, msgs)
  {
    hide PM.EncodeMsg, PM.DecodeCmd, PM.DecodeRaw, PM.Arrives;
    if msgs != [] {
      assert Sendable(codec, msgs[0]);
      var first, later := PM.EncodeMsg(codec, msgs[0]).value, Encoded(codec, msgs[1..]);
      EncodingDecodes(codec, msgs[0]);
      EncodingsDecode(codec, msgs[1..]);
      var cmd := PM.DecodeRaw(first).value;
      assert ([first] + later)[1..] == later;
      assert Commands([first] + later) == [cmd] + Commands(later);
      assert ([cmd] + Commands(later))[1..] == Commands(later);
    }
  }

  /** Any list of messages, each encoded and framed, concatenated, cut anywhere and reassembled,
      reaches the services as the same list: always when the remaining bytes are moved, and for the
      code as written when its reads are guarded. An empty JSON body arrives as no body. */
  lemma MessagesArrive<B>(codec: PM.BodyCodec<B>, shift: Shift, msgs: seq<PM.CmdMsg<B>>, chunks: seq<seq<byte>>)
    requires forall i :: 0 <= i < |msgs| ==> Sendable(codec, msgs[i])
    requires Concat(chunks) == TcpStream(Encoded(codec, msgs))
    requires shift == Remaining || GuardedRun(Tcp, [], chunks)
    ensures var f := Feed(Tcp, shift, [], chunks);
            f.rest == [] && f.stop == Waiting && Decoded(codec, Commands(f.payloads)) == Arriving(codec, msgs)
  {
    assert FrontOf(Tcp, []) == Stuck(Waiting);
    hide FrontOf, Feed, Commands, Decoded, Sendable;
    var payloads := Encoded(codec, msgs);
    forall d | d in payloads ensures |d| <= 65535 {
      var i :| 0 <= i < |payloads| && payloads[i] == d;
      SendableSize(codec, msgs[i]);
    }
    RightEmpty(TcpStream(payloads));
    TcpReassembly(payloads, [], chunks);
    if shift == Consumed {
      GuardedFeed(Tcp, [], chunks);
    }
    EncodingsDecode(codec, msgs);
  }

  /** The same of the machine itself: an idle TCP session that is fed these reads hands its services
      these messages. As written it reads nothing outside its buffer exactly when every frame with bytes
      behind it is short. */
  method ReceiveMessages<B>(session: UVSession, codec: PM.BodyCodec<B>, msgs: seq<PM.CmdMsg<B>>,
                            chunks: seq<seq<byte>>)
    requires session.socketType == Tcp && session.Idle() && session.Held() == [] && session.commands == []
    requires !session.broken && !session.overread
    requires forall i :: 0 <= i < |msgs| ==> Sendable(codec, msgs[i])
    requires Concat(chunks) == TcpStream(Encoded(codec, msgs))
    requires session.shift == Remaining || GuardedRun(Tcp, [], chunks)
    requires WithinWindows(Tcp, session.shift, [], chunks)
    modifies session, session.recvBuffer, session.Buffer()
    ensures session.Idle() && session.Held() == [] && !session.broken
    ensures Decoded(codec, session.commands) == Arriving(codec, msgs)
    ensures session.overread <==> session.shift == Consumed && !ShortRun(Tcp, [], chunks)
    ensures session.isShutdown <==>
              old(session.isShutdown)
              || exists i | 0 <= i < |session.commands| :: !session.service(session.commands[i]).accepted
    ensures session.disconnects == if session.isShutdown then 1 else 0
  {
    MessagesArrive(codec, session.shift, msgs, chunks);
    assert FrontOf(Tcp, []) == Stuck(Waiting);
    hide Feed, Commands, Decoded, Sound, WithinWindows, FrontOf, HeaderOf, Encoded, Arriving, GuardedRun, ShortRun,
      FeedInBounds, Sendable, FrameSize;
    TcpSound(session.shift, [], chunks);
    if session.shift == Consumed {
      GuardedFeed(Tcp, [], chunks);
    } else {
      IntendedInBounds(Tcp, [], chunks);
    }
    session.Serve(chunks);
    ghost var f := Feed(Tcp, session.shift, [], chunks);
    assert [] + Commands(f.payloads) == Commands(f.payloads);
  }

  lemma SendableSize<B>(codec: PM.BodyCodec<B>, msg: PM.CmdMsg<B>)
    requires Sendable(codec, msg)
    ensures |PM.EncodeMsg(codec, msg).value| <= 65535
  {
  }

  /** The gateway's hop: the encoded message patched with another tag and framed again is what the
      backend would have been sent had the client used that tag. */
  lemma ForwardedMessage<B>(codec: PM.BodyCodec<B>, msg: PM.CmdMsg<B>, utag: PM.u32)
    requires Sendable(codec, msg)
    ensures var patched := PM.PatchUtag(PM.EncodeMsg(codec, msg).value, utag);
            && Sendable(codec, msg.(utag := utag))
            && patched == PM.EncodeMsg(codec, msg.(utag := utag)).value
            && PM.DecodeCmd(codec, patched) == Some(PM.Arrives(codec, msg.(utag := utag)))
            && Split(Tcp, T.Frame(patched)) == Drained([patched], [], Waiting)
  {
    PM.MessageRoundTrip(codec, msg);
    PM.MessageRoundTrip(codec, msg.(utag := utag));
    var s := PM.EncodeMsg(codec, msg).value;
    var patched := PM.PatchUtag(s, utag);
    assert patched == PM.EncodeMsg(codec, msg.(utag := utag)).value by {
      assert PM.HeaderOf(msg.stype, msg.ctype, msg.utag)[..4] == PM.HeaderOf(msg.stype, msg.ctype, utag)[..4];
    }
    assert Split(Tcp, []) == Drained([], [], Waiting);
    hide FrontOf, Split, Sendable;
    TcpStreamSplit([patched], []);
    TcpStreamCons(patched, []);
    RightEmpty(TcpStream([patched]));
    RightEmpty([patched]);
  }

  // -------------------------------------------------------------------------------------------
  // The sending half of a session
  // -------------------------------------------------------------------------------------------

  /** The bytes a TCP session has handed to the network. */
  class Outbox {
    var written: seq<byte>

    constructor ()
      ensures written == []
    {
      written := [];
    }

    /** The TCP branch of `UVSession::send_data`. */
    method SendData(data: seq<byte>)
      modifies this
      ensures written == old(written) + T.Frame(data)
    {
      var package := T.Package(data);
      written := written + package[..];
    }

    /** `UVSession::send_raw_cmd`. */
    method SendRawCmd(cmd: PM.RawCmd)
      modifies this
      ensures written == old(written) + T.Frame(cmd.raw)
    {
      SendData(cmd.raw);
    }

    /** `UVSession::send_msg`: a message that cannot be encoded is not sent. */
    method SendMsg<B>(codec: PM.BodyCodec<B>, msg: PM.CmdMsg<B>)
      modifies this
      ensures written == old(written) + match PM.EncodeMsg(codec, msg) case None => [] case Some(s) => T.Frame(s)
    {
      var encoded := PM.EncodeMsgToRaw(codec, msg);
      if encoded != null {
        SendData(encoded[..]);
      } else {
        RightEmpty(written);
      }
    }

    /** What is written for messages one after the other is the stream that `ReceiveMessages` is about. */
    method SendMessages<B>(codec: PM.BodyCodec<B>, msgs: seq<PM.CmdMsg<B>>)
      requires forall i :: 0 <= i < |msgs| ==> Sendable(codec, msgs[i])
      modifies this
      ensures written == old(written) + TcpStream(Encoded(codec, msgs))
    {
      var was := written;
      RightEmpty(was);
      for i := 0 to |msgs|
        invariant written == was + TcpStream(Encoded(codec, msgs[..i]))
      {
        hide TcpStream, PM.EncodeMsg, T.Frame;
        SendMsg(codec, msgs[i]);
        OneMoreSent(codec, msgs, i);
        Assoc(was, TcpStream(Encoded(codec, msgs[..i])), T.Frame(PM.EncodeMsg(codec, msgs[i]).value));
      }
      assert msgs[..|msgs|] == msgs;
    }
  }

  lemma SendableEncodes<B>(codec: PM.BodyCodec<B>, msg: PM.CmdMsg<B>)
    requires Sendable(codec, msg)
    ensures PM.EncodeMsg(codec, msg).Some?
  {
  }

  lemma OneMoreEncoded<B>(codec: PM.BodyCodec<B>, msgs: seq<PM.CmdMsg<B>>, i: nat)
    requires i < |msgs| && forall k :: 0 <= k < |msgs| ==> Sendable(codec, msgs[k])
    ensures PM.EncodeMsg(codec, msgs[i]).Some?
    ensures Encoded(codec, msgs[..i + 1]) == Encoded(codec, msgs[..i]) + [PM.EncodeMsg(codec, msgs[i]).value]
  {
    SendableEncodes(codec, msgs[i]);
    hide PM.EncodeMsg, Sendable;
    var xs, ys := Encoded(codec, msgs[..i + 1]), Encoded(codec, msgs[..i]);
    forall k | 0 <= k < i ensures xs[k] == ys[k] {
      assert msgs[..i + 1][k] == msgs[..i][k];
    }
  }

  lemma OneMoreSent<B>(codec: PM.BodyCodec<B>, msgs: seq<PM.CmdMsg<B>>, i: nat)
    requires i < |msgs| && forall k :: 0 <= k < |msgs| ==> Sendable(codec, msgs[k])
    ensures PM.EncodeMsg(codec, msgs[i]).Some?
    ensures TcpStream(Encoded(codec, msgs[..i + 1]))
         == TcpStream(Encoded(codec, msgs[..i])) + T.Frame(PM.EncodeMsg(codec, msgs[i]).value)
  {
    SendableEncodes(codec, msgs[i]);
    var one := PM.EncodeMsg(codec, msgs[i]).value;
    hide *;
    OneMoreEncoded(codec, msgs, i);
    TcpStreamAppend(Encoded(codec, msgs[..i]), [one]);
    TcpStreamCons(one, []);
  }

  /** A close frame behind a stream of messages: they are dispatched, the session closes, and what follows is
      not looked at. */
  lemma WsClosed(frames: seq<W.ClientFrame>, junk: seq<byte>, chunks: seq<seq<byte>>)
    requires forall f <- frames :: f.Valid()
    requires Concat(chunks) == WsStream(frames) + ([0x88] + junk)
    ensures var f := Feed(Ws, Remaining, [], chunks); f.payloads == WsPayloads(frames) && f.stop == Closing
  {
    assert FrontOf(Ws, []) == Stuck(Waiting);
    var tail: seq<byte> := [0x88] + junk;
    assert tail[0] == 0x88;
    assert Split(Ws, tail) == Drained([], tail, Closing);
    hide FrontOf, Split, Feed;
    FeedIsSplit(Ws, [], chunks);
    assert [] + Concat(chunks) == Concat(chunks);
    WsStreamSplit(frames, tail);
    RightEmpty(WsPayloads(frames));
  }
}
