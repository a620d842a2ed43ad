/** The receive loops as written, moving the consumed length: which bytes a read destroys, and exactly
    when a read, a run, or a burst of frames of given sizes is handled correctly and inside the buffer. */
module AsWritten {
  import opened Bytes
  import opened Seqs
  import opened Framing
  import W = WsProtocol

  /** One run of the loop as written dispatches and keeps what it should. */
  predicate Handled(p: Protocol, s: seq<byte>) {
    Drain(p, Consumed, s) == Split(p, s)
  }

  /** The same, and no byte outside the receive buffer is read. */
  predicate HandledInside(p: Protocol, s: seq<byte>) {
    Handled(p, s) && InBounds(p, Consumed, s)
  }

  /** Moving the consumed length closes the gap, whatever the bytes are, exactly when the bytes
      behind an `n`-byte frame are no more than `n`; and stays inside the buffer besides exactly when
      there are none or twice the frame fits. */
  lemma ConsumedShiftExact(total: nat, n: nat)
    requires 0 < n <= total
    ensures (forall s: seq<byte> | |s| == total :: Shifted(Consumed, s, n) == s[n..]) <==> total <= 2 * n
    ensures (forall s: seq<byte> | |s| == total :: Shifted(Consumed, s, n) == s[n..] && ShiftInBounds(Consumed, |s|, n))
       <==> total <= 2 * n && (n == total || 2 * n <= SESSION_RECV_LEN)
  {
    if 2 * n < total {
      var s: seq<byte> := seq(total, i => if i == total - 1 then 1 else 0);
      var r := Shifted(Consumed, s, n);
      assert r[total - n - 1] == s[n..total - n][total - 2 * n - 1] == 0;
      assert s[n..][total - n - 1] == 1;
      assert |s| == total && Shifted(Consumed, s, n) != s[n..];
    } else {
      var zeros: seq<byte> := seq(total, _ => 0);
      assert |zeros| == total;
    }
  }

  lemma ShortShift(s: seq<byte>, n: nat)
    requires n <= |s| <= 2 * n
    ensures Shifted(Consumed, s, n) == s[n..]
  {
  }

  /** At every frame taken, the held bytes are at most twice the frame. */
  predicate Guarded(p: Protocol, s: seq<byte>)
    decreases |s|
  {
    var f := FrontOf(p, s);
    f.Frame? ==> |s| <= 2 * f.size && Guarded(p, s[f.size..])
  }

  /** Every frame with bytes behind it takes at most half the receive buffer. */
  predicate Short(p: Protocol, s: seq<byte>)
    decreases |s|
  {
    var f := FrontOf(p, s);
    f.Frame? ==> ShiftInBounds(Consumed, |s|, f.size) && Short(p, s[f.size..])
  }

  lemma {:induction false} GuardedDrain(p: Protocol, s: seq<byte>)
    requires Guarded(p, s)
    ensures Handled(p, s)
    ensures InBounds(p, Consumed, s) <==> Short(p, s)
    decreases |s|
  {
    hide FrontOf;
    var f := FrontOf(p, s);
    if f.Frame? {
      ShortShift(s, f.size);
      GuardedDrain(p, s[f.size..]);
    }
  }

  // -------------------------------------------------------------------------------------------
  // Where the guard breaks, the last byte held is lost
  // -------------------------------------------------------------------------------------------

  lemma HeaderPrefix(p: Protocol, s: seq<byte>, k: nat)
    requires s != [] && HeaderOf(p, s).Some? && HeaderOf(p, s).value.head <= k <= |s|
    ensures 0 < k && HeaderOf(p, s[..k]) == HeaderOf(p, s)
  {
    hide FromLe16;
    if p.Tcp? {
      assert s[..k][..2] == s[..2];
    } else {
      assert s[..k][0] == s[0] && s[..k][1] == s[1];
      if s[1] % 128 == 126 {
        assert s[..k][2..4] == s[2..4];
      } else if s[1] % 128 == 127 {
        assert s[..k][2..10] == s[2..10];
      }
    }
  }

  /** Bytes that hold no complete frame may hold one with the next byte, but then all of it. */
  lemma NextByte(p: Protocol, front: seq<byte>, b: byte)
    requires !FrontOf(p, front).Frame?
    ensures var f := FrontOf(p, front + [b]);
            f.Frame? ==> f.size == |front| + 1
  {
    var s := front + [b];
    var f := FrontOf(p, s);
    if f.Frame? && f.size <= |front| {
      var h := HeaderOf(p, s).value;
      HeaderPrefix(p, s, |front|);
      assert s[..|front|] == front;
      assert front[0] == s[0];
      FrontCases(p, s);
      FrontCases(p, front);
      assert false;
    }
  }

  lemma LastByteRest(p: Protocol, front: seq<byte>, b: byte)
    requires FrontOf(p, front).Frame?
    ensures var f := FrontOf(p, front);
            && FrontOf(p, front + [b]) == f
            && (front + [b])[f.size..] == front[f.size..] + [b]
  {
    hide FrontOf;
    FrontStable(p, front, [b]);
    SuffixOfSum(front, [b], FrontOf(p, front).size);
  }

  lemma NothingHeld(p: Protocol, s: seq<byte>)
    requires s == []
    ensures FrontOf(p, s) == Stuck(Waiting)
  {
  }

  /** The last byte has no say in what is guarded. */
  lemma {:induction false} GuardSame(p: Protocol, front: seq<byte>, a: byte, b: byte)
    ensures Guarded(p, front + [a]) == Guarded(p, front + [b])
    ensures Short(p, front + [a]) == Short(p, front + [b])
    decreases |front|
  {
    hide FrontOf;
    var f := FrontOf(p, front);
    if f.Frame? {
      LastByteRest(p, front, a);
      LastByteRest(p, front, b);
      GuardSame(p, front[f.size..], a, b);
    } else {
      AtMostOne(p, front, a);
      AtMostOne(p, front, b);
    }
  }

  lemma AtMostOne(p: Protocol, front: seq<byte>, b: byte)
    requires !FrontOf(p, front).Frame?
    ensures Guarded(p, front + [b]) && Short(p, front + [b])
  {
    NextByte(p, front, b);
    hide FrontOf;
    var f := FrontOf(p, front + [b]);
    if f.Frame? {
      NothingHeld(p, (front + [b])[f.size..]);
    }
  }

  lemma ShiftDropsLast(front: seq<byte>, a: byte, b: byte, n: nat)
    requires 0 < n && 2 * n <= |front|
    ensures Shifted(Consumed, front + [a], n) == Shifted(Consumed, front + [b], n)
  {
    var s, t := front + [a], front + [b];
    assert s[n..2 * n] == front[n..2 * n] == t[n..2 * n];
    assert s[n..|s| - n] == front[n..|s| - n] == t[n..|s| - n];
  }

  /** When the guard breaks, the last byte read has no influence on anything the loop does. */
  lemma {:induction false} LastByteIgnored(p: Protocol, front: seq<byte>, a: byte, b: byte)
    requires !Guarded(p, front + [a])
    ensures Drain(p, Consumed, front + [a]) == Drain(p, Consumed, front + [b])
    decreases |front|
  {
    hide FrontOf, Shifted;
    var f := FrontOf(p, front);
    if !f.Frame? {
      AtMostOne(p, front, a);
    } else {
      LastByteRest(p, front, a);
      LastByteRest(p, front, b);
      if |front| + 1 <= 2 * f.size {
        ShortShift(front + [a], f.size);
        ShortShift(front + [b], f.size);
        LastByteIgnored(p, front[f.size..], a, b);
      } else {
        ShiftDropsLast(front, a, b, f.size);
      }
    }
  }

  // -------------------------------------------------------------------------------------------
  // The last byte of a stream matters, but for the mask of an empty frame
  // -------------------------------------------------------------------------------------------

  /** The stream ends in a complete frame without payload. */
  predicate EndsEmpty(p: Protocol, s: seq<byte>) {
    var d := Split(p, s);
    d.rest == [] && d.payloads != [] && d.payloads[|d.payloads| - 1] == []
  }

  lemma LastMasked(mask: seq<byte>, front: seq<byte>, a: byte, b: byte)
    requires |mask| == 4 && a != b
    ensures W.ApplyMask(mask, front + [a]) != W.ApplyMask(mask, front + [b])
  {
    W.MaskTwice(mask, front + [a]);
    W.MaskTwice(mask, front + [b]);
    hide W.ApplyMask;
    assert (front + [a])[|front|] != (front + [b])[|front|];
  }

  lemma ThenInjective(first: seq<byte>, d: Drained, e: Drained)
    requires Then([first], d) == Then([first], e)
    ensures d == e
  {
    assert ([first] + d.payloads)[1..] == d.payloads;
    assert ([first] + e.payloads)[1..] == e.payloads;
  }

  lemma SplitLast(p: Protocol, front: seq<byte>, b: byte)
    requires !FrontOf(p, front).Frame?
    ensures var f := FrontOf(p, front + [b]);
            Split(p, front + [b]) == match f case Stuck(stop) => Drained([], front + [b], stop)
                                             case Frame(_, payload) => Drained([payload], [], Waiting)
  {
    NextByte(p, front, b);
    hide FrontOf;
    var s := front + [b];
    var f := FrontOf(p, s);
    if f.Frame? {
      NothingHeld(p, s[f.size..]);
      assert s[f.size..] == [];
      assert [f.payload] + [] == [f.payload];
    }
  }

  /** Two last bytes that both complete a masked frame with payload complete different payloads. */
  lemma LastPayloadByte(front: seq<byte>, a: byte, b: byte)
    requires a != b && !FrontOf(Ws, front).Frame?
    requires FrontOf(Ws, front + [a]).Frame? && FrontOf(Ws, front + [b]).Frame?
    requires FrontOf(Ws, front + [a]).payload != []
    ensures FrontOf(Ws, front + [a]).payload != FrontOf(Ws, front + [b]).payload
  {
    var s, t := front + [a], front + [b];
    NextByte(Ws, front, a);
    NextByte(Ws, front, b);
    FrontCases(Ws, s);
    FrontCases(Ws, t);
    var h := HeaderOf(Ws, s).value;
    MaskedPayload(s, h);
    HeaderPrefix(Ws, s, |front|);
    assert s[..|front|] == front == t[..|front|];
    W.HeaderStable(front, [b]);
    MaskedPayload(t, h);
    hide FrontOf, HeaderOf;
    assert s[h.head - 4..h.head] == front[h.head - 4..h.head] == t[h.head - 4..h.head];
    assert s[h.head..] == front[h.head..] + [a] && t[h.head..] == front[h.head..] + [b];
    LastMasked(front[h.head - 4..h.head], front[h.head..], a, b);
  }

  lemma MaskedPayload(s: seq<byte>, h: Header)
    requires s != [] && FrontOf(Ws, s).Frame? && FrontOf(Ws, s).size == |s| && HeaderOf(Ws, s) == Some(h)
    ensures 4 <= h.head && 0 <= h.payload && h.head + h.payload == |s|
    ensures FrontOf(Ws, s).payload == W.ApplyMask(s[h.head - 4..h.head], s[h.head..])
  {
    FrontCases(Ws, s);
    hide W.ApplyMask;
    assert s[h.head..h.head + h.payload] == s[h.head..];
  }

  lemma {:induction false} SplitDiffers(p: Protocol, front: seq<byte>, a: byte, b: byte)
    requires a != b && (p.Ws? ==> !EndsEmpty(p, front + [a]))
    ensures Split(p, front + [a]) != Split(p, front + [b])
    decreases |front|
  {
    var s, t := front + [a], front + [b];
    assert s[|front|] != t[|front|];
    if p.Tcp? {
      SplitTcpStream(s);
      SplitTcpStream(t);
    } else if FrontOf(p, front).Frame? {
      DiffersBehind(front, a, b);
    } else {
      hide FrontOf;
      SplitLast(p, front, a);
      SplitLast(p, front, b);
      if FrontOf(p, s).Frame? && FrontOf(p, t).Frame? {
        LastPayloadByte(front, a, b);
      }
    }
  }

  lemma {:induction false} DiffersBehind(front: seq<byte>, a: byte, b: byte)
    requires a != b && !EndsEmpty(Ws, front + [a]) && FrontOf(Ws, front).Frame?
    ensures Split(Ws, front + [a]) != Split(Ws, front + [b])
    decreases |front|, 0
  {
    hide FrontOf, Then;
    var f := FrontOf(Ws, front);
    var later := front[f.size..];
    LastByteRest(Ws, front, a);
    LastByteRest(Ws, front, b);
    SplitStep(Ws, front + [a], later + [a]);
    SplitStep(Ws, front + [b], later + [b]);
    LastOfThen(f.payload, Split(Ws, later + [a]));
    SplitDiffers(Ws, later, a, b);
    if Split(Ws, front + [a]) == Split(Ws, front + [b]) {
      ThenInjective(f.payload, Split(Ws, later + [a]), Split(Ws, later + [b]));
    }
  }

  lemma LastOfThen(first: seq<byte>, d: Drained)
    ensures d.payloads != [] ==>
              var q := Then([first], d).payloads; q != [] && q[|q| - 1] == d.payloads[|d.payloads| - 1]
    ensures Then([first], d).rest == d.rest
  {
  }

  // -------------------------------------------------------------------------------------------
  // Reads and runs
  // -------------------------------------------------------------------------------------------

  /** One read, whatever was held before and whatever unfinished frame it ends in; `front` is all the
      bytes held and read but the last. It is handled for every last byte exactly when it is guarded,
      and inside the buffer besides exactly when its frames are also short. Only where a WebSocket
      read ends in a frame without payload does its last byte, of a mask, not matter. */
  lemma ReadExact(p: Protocol, front: seq<byte>)
    requires p.Ws? ==> !EndsEmpty(p, front + [0])
    ensures (forall b: byte :: Handled(p, front + [b])) <==> Guarded(p, front + [0])
    ensures (forall b: byte :: HandledInside(p, front + [b])) <==> Guarded(p, front + [0]) && Short(p, front + [0])
  {
    hide Guarded, Short;
    if Guarded(p, front + [0]) {
      forall b: byte
        ensures Handled(p, front + [b])
        ensures HandledInside(p, front + [b]) <==> Short(p, front + [0])
      {
        GuardSame(p, front, 0, b);
        GuardedDrain(p, front + [b]);
      }
    } else {
      SplitDiffers(p, front, 0, 1);
      LastByteIgnored(p, front, 0, 1);
      assert !(Handled(p, front + [0]) && Handled(p, front + [1]));
    }
  }

  /** Each read of a run is guarded. */
  predicate GuardedRun(p: Protocol, held: seq<byte>, chunks: seq<seq<byte>>)
    decreases |chunks|
  {
    chunks == []
    || var d := Split(p, held + chunks[0]);
       Guarded(p, held + chunks[0]) && (d.stop == Waiting ==> GuardedRun(p, d.rest, chunks[1..]))
  }

  predicate ShortRun(p: Protocol, held: seq<byte>, chunks: seq<seq<byte>>)
    decreases |chunks|
  {
    chunks == []
    || var d := Split(p, held + chunks[0]);
       Short(p, held + chunks[0]) && (d.stop == Waiting ==> ShortRun(p, d.rest, chunks[1..]))
  }

  /** Under the guard, the loops as written dispatch what the intended ones dispatch; and they read
      nothing outside the buffer exactly when every frame with bytes behind it is short. */
  lemma {:induction false} GuardedFeed(p: Protocol, held: seq<byte>, chunks: seq<seq<byte>>)
    requires GuardedRun(p, held, chunks)
    ensures Feed(p, Consumed, held, chunks) == Feed(p, Remaining, held, chunks)
    ensures FeedInBounds(p, Consumed, held, chunks) <==> ShortRun(p, held, chunks)
    decreases |chunks|
  {
    hide FrontOf, Guarded, Short, InBounds, Drain, Split;
    if chunks != [] {
      var s := held + chunks[0];
      GuardedDrain(p, s);
      DrainIsSplit(p, s);
      if Split(p, s).stop == Waiting {
        GuardedFeed(p, Split(p, s).rest, chunks[1..]);
      }
    }
  }

  lemma {:induction false} FeedOneMore(p: Protocol, shift: Shift, held: seq<byte>, chunks: seq<seq<byte>>,
                                       next: seq<byte>)
    requires Feed(p, shift, held, chunks).stop == Waiting
    ensures var f := Feed(p, shift, held, chunks);
            Feed(p, shift, held, chunks + [next]) == Then(f.payloads, Drain(p, shift, f.rest + next))
    decreases |chunks|
  {
    hide FrontOf, Drain;
    if chunks == [] {
      var d := Drain(p, shift, held + next);
      assert [] + [next] == [next] && [next][1..] == [];
      ThenTwice([], [], d);
      RightEmpty(d.payloads);
    } else {
      var d := Drain(p, shift, held + chunks[0]);
      var f := Feed(p, shift, d.rest, chunks[1..]);
      assert (chunks + [next])[1..] == chunks[1..] + [next];
      FeedOneMore(p, shift, d.rest, chunks[1..], next);
      ThenTwice(d.payloads, f.payloads, Drain(p, shift, f.rest + next));
    }
  }

  /** A run whose reads so far were guarded survives its next read, for every last byte of it, exactly
      when that read is guarded too. */
  lemma RunExact(p: Protocol, held: seq<byte>, chunks: seq<seq<byte>>, front: seq<byte>)
    requires GuardedRun(p, held, chunks) && Feed(p, Remaining, held, chunks).stop == Waiting
    requires p.Ws? ==> !EndsEmpty(p, Feed(p, Remaining, held, chunks).rest + front + [0])
    ensures (forall b: byte ::
               Feed(p, Consumed, held, chunks + [front + [b]]) == Feed(p, Remaining, held, chunks + [front + [b]]))
       <==> Guarded(p, Feed(p, Remaining, held, chunks).rest + front + [0])
  {
    hide FrontOf, Guarded, Short, Feed, Drain, Split, Then, EndsEmpty;
    var f := Feed(p, Remaining, held, chunks);
    GuardedFeed(p, held, chunks);
    ReadExact(p, f.rest + front);
    forall b: byte
      ensures Feed(p, Consumed, held, chunks + [front + [b]]) == Feed(p, Remaining, held, chunks + [front + [b]])
         <==> Handled(p, f.rest + front + [b])
    {
      var s := f.rest + front + [b];
      Assoc(f.rest, front, [b]);
      FeedOneMore(p, Consumed, held, chunks, front + [b]);
      FeedOneMore(p, Remaining, held, chunks, front + [b]);
      DrainIsSplit(p, s);
      ThenSame(f.payloads, Drain(p, Consumed, s), Split(p, s));
    }
  }

  lemma ThenSame(done: seq<seq<byte>>, d: Drained, e: Drained)
    ensures Then(done, d) == Then(done, e) <==> d == e
  {
    assert (done + d.payloads)[|done|..] == d.payloads;
    assert (done + e.payloads)[|done|..] == e.payloads;
  }
}
