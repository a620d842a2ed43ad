/** Bursts of frames that arrive in one read, handled by the receive loops as written: what becomes of
    equally long frames, and which sizes are handled correctly whatever the bytes are. */
module Bursts {
  import opened Bytes
  import opened Seqs
  import opened Framing
  import opened AsWritten
  import T = TcpProtocol
  import W = WsProtocol

  // -------------------------------------------------------------------------------------------
  // Streams of complete frames
  // -------------------------------------------------------------------------------------------

  /** Exactly one complete frame. */
  predicate Whole(p: Protocol, w: seq<byte>) {
    FrontOf(p, w).Frame? && FrontOf(p, w).size == |w|
  }

  predicate AllWhole(p: Protocol, wires: seq<seq<byte>>) {
    forall i :: 0 <= i < |wires| ==> Whole(p, wires[i])
  }

  function PayloadIn(p: Protocol, w: seq<byte>): seq<byte> {
    match FrontOf(p, w)
    case Frame(_, payload) => payload
    case Stuck(_) => []
  }

  function PayloadsIn(p: Protocol, wires: seq<seq<byte>>): (payloads: seq<seq<byte>>)
    ensures |payloads| == |wires|
  {
    seq(|wires|, i requires 0 <= i < |wires| => PayloadIn(p, wires[i]))
  }

  lemma WholeFront(p: Protocol, w: seq<byte>, rest: seq<byte>)
    requires Whole(p, w)
    ensures FrontOf(p, w + rest) == Frame(|w|, PayloadIn(p, w))
    ensures (w + rest)[|w|..] == rest && 2 <= |w|
  {
    hide FrontOf;
    FrontStable(p, w, rest);
    SuffixOfPrefix(w, rest);
  }

  lemma ConcatCons(wires: seq<seq<byte>>, tail: seq<byte>)
    requires wires != []
    ensures Concat(wires) + tail == wires[0] + (Concat(wires[1..]) + tail)
  {
    Assoc(wires[0], Concat(wires[1..]), tail);
  }

  lemma {:induction false} WiresSplit(p: Protocol, wires: seq<seq<byte>>, tail: seq<byte>)
    requires AllWhole(p, wires)
    ensures Split(p, Concat(wires) + tail) == Then(PayloadsIn(p, wires), Split(p, tail))
  {
    hide FrontOf, Then, Split, Whole, PayloadIn;
    if wires == [] {
      assert Concat(wires) + tail == tail;
      ThenTwice([], [], Split(p, tail));
    } else {
      var w, later := wires[0], wires[1..];
      var rest := Concat(later) + tail;
      ConcatCons(wires, tail);
      WholeFront(p, w, rest);
      SplitStep(p, w + rest, rest);
      WiresSplit(p, later, tail);
      ThenTwice([PayloadIn(p, w)], PayloadsIn(p, later), Split(p, tail));
      assert PayloadsIn(p, wires) == [PayloadIn(p, w)] + PayloadsIn(p, later);
    }
  }

  // -------------------------------------------------------------------------------------------
  // Equally long frames
  // -------------------------------------------------------------------------------------------

  /** What a burst of equally long frames turns into: the first one, and then the second in place of
      every later one. */
  function SecondRepeated<X>(xs: seq<X>): seq<X> {
    seq(|xs|, i requires 0 <= i < |xs| => if i == 0 then xs[0] else xs[1])
  }

  lemma SecondRepeatedStep<X>(xs: seq<X>)
    requires xs != []
    ensures |xs| <= 2 ==> SecondRepeated(xs) == [xs[0]] + SecondRepeated(xs[1..])
    ensures 3 <= |xs| ==> SecondRepeated(xs) == [xs[0]] + SecondRepeated([xs[1]] + xs[1..|xs| - 1])
  {
  }

  lemma SecondRepeatedFixed<X>(xs: seq<X>)
    ensures SecondRepeated(xs) == xs <==> forall i :: 2 <= i < |xs| ==> xs[i] == xs[1]
  {
    var r := SecondRepeated(xs);
    if r == xs {
      forall i | 2 <= i < |xs| ensures xs[i] == xs[1] {
        assert r[i] == xs[i];
      }
    }
  }

  predicate AllOfSize(p: Protocol, wires: seq<seq<byte>>, n: nat) {
    AllWhole(p, wires) && forall i :: 0 <= i < |wires| ==> |wires[i]| == n
  }

  lemma ShiftPieces(s: seq<byte>, a: seq<byte>, b: seq<byte>, t: seq<byte>, v: seq<byte>, z: seq<byte>)
    requires s == a + (b + t) == (a + v) + z
    requires |a| == |b| == |z| && 2 * |a| < |s|
    ensures Shifted(Consumed, s, |a|) == b + v
  {
    var n := |a|;
    assert s[n..2 * n] == b;
    assert s[n..|s| - n] == v;
  }

  lemma ConcatOne<X>(x: seq<X>)
    ensures Concat([x]) == x
  {
    assert [x][1..] == [];
  }

  lemma ConcatFront<X>(x: seq<X>, later: seq<seq<X>>)
    ensures Concat([x] + later) == x + Concat(later)
  {
    ConcatAppend([x], later);
    ConcatOne(x);
  }

  lemma FrontTwo<X>(a: seq<X>, b: seq<X>, later: seq<seq<X>>)
    ensures Concat([a] + ([b] + later)) == a + (b + Concat(later))
  {
    hide Concat;
    ConcatFront(a, [b] + later);
    ConcatFront(b, later);
  }

  lemma FrontAndBack<X>(a: seq<X>, middle: seq<seq<X>>, z: seq<X>)
    ensures Concat(([a] + middle) + [z]) == (a + Concat(middle)) + z
  {
    hide Concat;
    ConcatAppend([a] + middle, [z]);
    ConcatFront(a, middle);
    ConcatOne(z);
  }

  lemma FirstAndLast<X>(xs: seq<X>)
    requires 3 <= |xs|
    ensures xs == [xs[0]] + ([xs[1]] + xs[2..]) == ([xs[0]] + xs[1..|xs| - 1]) + [xs[|xs| - 1]]
    ensures xs[2..] == [xs[2]] + xs[3..]
  {
  }

  lemma ThreeParts(wires: seq<seq<byte>>)
    requires 3 <= |wires|
    ensures var k := |wires|;
            && Concat(wires) == wires[0] + (wires[1] + Concat(wires[2..]))
            && Concat(wires) == (wires[0] + Concat(wires[1..k - 1])) + wires[k - 1]
            && |wires[2]| <= |Concat(wires[2..])|
  {
    hide Concat;
    var k := |wires|;
    FirstAndLast(wires);
    FrontTwo(wires[0], wires[1], wires[2..]);
    FrontAndBack(wires[0], wires[1..k - 1], wires[k - 1]);
    ConcatFront(wires[2], wires[3..]);
  }

  /** One shift of equally long frames: the second frame moves to the front, its old place still holds
      it, and the last frame is lost. */
  lemma EqualFramesShift(p: Protocol, wires: seq<seq<byte>>, n: nat)
    requires 3 <= |wires| && 0 < n && AllOfSize(p, wires, n)
    ensures n <= |Concat(wires)|
    ensures Shifted(Consumed, Concat(wires), n) == Concat([wires[1]] + wires[1..|wires| - 1])
    ensures AllOfSize(p, [wires[1]] + wires[1..|wires| - 1], n)
  {
    var k := |wires|;
    SameSizes(p, wires, n);
    hide *;
    ThreeParts(wires);
    ShiftPieces(Concat(wires), wires[0], wires[1], Concat(wires[2..]), Concat(wires[1..k - 1]), wires[k - 1]);
    ConcatFront(wires[1], wires[1..k - 1]);
  }

  lemma SameSizes(p: Protocol, wires: seq<seq<byte>>, n: nat)
    requires 3 <= |wires| && AllOfSize(p, wires, n)
    ensures |wires[0]| == |wires[1]| == |wires[2]| == |wires[|wires| - 1]| == n
    ensures AllOfSize(p, [wires[1]] + wires[1..|wires| - 1], n)
  {
    hide Whole;
  }

  lemma BurstStep(p: Protocol, wires: seq<seq<byte>>)
    requires wires != [] && AllWhole(p, wires)
    ensures |wires[0]| <= |Concat(wires)|
    ensures Drain(p, Consumed, Concat(wires))
         == Then([PayloadIn(p, wires[0])], Drain(p, Consumed, Shifted(Consumed, Concat(wires), |wires[0]|)))
  {
    hide FrontOf, Shifted, PayloadIn;
    WholeFront(p, wires[0], Concat(wires[1..]));
  }

  lemma FewFrames(p: Protocol, wires: seq<seq<byte>>, n: nat)
    requires 1 <= |wires| <= 2 && AllOfSize(p, wires, n)
    ensures n <= |Concat(wires)| && Shifted(Consumed, Concat(wires), n) == Concat(wires[1..])
  {
    SuffixOfPrefix(wires[0], Concat(wires[1..]));
    if |wires| == 2 {
      ConcatOne(wires[1]);
      assert wires[1..] == [wires[1]];
    }
    ShortShift(Concat(wires), n);
  }

  lemma FirstOnes(p: Protocol, wires: seq<seq<byte>>)
    requires wires != []
    ensures PayloadsIn(p, wires)[0] == PayloadIn(p, wires[0])
    ensures PayloadsIn(p, wires[1..]) == PayloadsIn(p, wires)[1..]
  {
    hide PayloadIn;
  }

  lemma ShiftedOnes(p: Protocol, wires: seq<seq<byte>>)
    requires 3 <= |wires|
    ensures PayloadsIn(p, [wires[1]] + wires[1..|wires| - 1])
         == [PayloadsIn(p, wires)[1]] + PayloadsIn(p, wires)[1..|wires| - 1]
  {
    hide PayloadIn;
    var moved := [wires[1]] + wires[1..|wires| - 1];
    var a, b := PayloadsIn(p, moved), [PayloadsIn(p, wires)[1]] + PayloadsIn(p, wires)[1..|wires| - 1];
    forall i | 0 <= i < |a| ensures a[i] == b[i] {
      assert moved[i] == if i == 0 then wires[1] else wires[i];
    }
  }

  /** Frames of one size that arrive in one read, drained by the code as written. */
  lemma {:induction false} EqualFramesDrain(p: Protocol, wires: seq<seq<byte>>, n: nat)
    requires 0 < n && AllOfSize(p, wires, n)
    ensures Drain(p, Consumed, Concat(wires)) == Drained(SecondRepeated(PayloadsIn(p, wires)), [], Waiting)
    decreases |wires|
  {
    hide *;
    if wires == [] {
      NoFrames(p);
    } else {
      OfSize(p, wires, n);
      BurstStep(p, wires);
      FirstOnes(p, wires);
      SecondRepeatedStep(PayloadsIn(p, wires));
      if |wires| <= 2 {
        FewFrames(p, wires, n);
        EqualFramesDrain(p, wires[1..], n);
      } else {
        EqualFramesShift(p, wires, n);
        ShiftedOnes(p, wires);
        EqualFramesDrain(p, [wires[1]] + wires[1..|wires| - 1], n);
      }
      ThenDrained(PayloadIn(p, wires[0]), SecondRepeated(PayloadsIn(p, wires)));
    }
  }

  lemma ThenDrained(first: seq<byte>, all: seq<seq<byte>>)
    ensures forall later ::
              all == [first] + later ==> Then([first], Drained(later, [], Waiting)) == Drained(all, [], Waiting)
  {
  }

  lemma OfSizeWhole(p: Protocol, wires: seq<seq<byte>>, n: nat)
    requires AllOfSize(p, wires, n)
    ensures AllWhole(p, wires)
  {
  }

  lemma OfSize(p: Protocol, wires: seq<seq<byte>>, n: nat)
    requires AllOfSize(p, wires, n) && wires != []
    ensures AllWhole(p, wires) && |wires[0]| == n && AllOfSize(p, wires[1..], n)
  {
  }

  lemma NoFrames(p: Protocol)
    ensures Drain(p, Consumed, Concat([])) == Drained(SecondRepeated(PayloadsIn(p, [])), [], Waiting)
  {
  }

  /** So as written a burst of equally long frames, on either protocol, is handled correctly exactly when
      every one from the second on has the same payload. */
  lemma EqualFramesExact(p: Protocol, wires: seq<seq<byte>>, n: nat)
    requires 0 < n && AllOfSize(p, wires, n)
    ensures Handled(p, Concat(wires))
       <==> forall i :: 2 <= i < |wires| ==> PayloadsIn(p, wires)[i] == PayloadsIn(p, wires)[1]
  {
    var payloads := PayloadsIn(p, wires);
    OfSizeWhole(p, wires, n);
    hide *;
    EqualFramesDrain(p, wires, n);
    WiresSplit(p, wires, []);
    RightEmpty(Concat(wires));
    SplitNothing(p, payloads);
    IsHandled(p, Concat(wires));
    SecondRepeatedFixed(payloads);
  }

  /** Three masked frames of one size in one read of a WebSocket session: the third message is lost, and
      the second one dispatched in its place. */
  lemma ThirdMessageLost(f: W.ClientFrame, g: W.ClientFrame, h: W.ClientFrame)
    requires f.Valid() && g.Valid() && h.Valid() && |f.payload| == |g.payload| == |h.payload|
    ensures var s := W.WireOf(f) + (W.WireOf(g) + W.WireOf(h));
            && Drain(Ws, Consumed, s) == Drained([f.payload, g.payload, g.payload], [], Waiting)
            && Split(Ws, s) == Drained([f.payload, g.payload, h.payload], [], Waiting)
            && (Handled(Ws, s) <==> h.payload == g.payload)
  {
    var wires := [W.WireOf(f), W.WireOf(g), W.WireOf(h)];
    ThreeWires(f, g, h);
    hide *;
    EqualFramesDrain(Ws, wires, |wires[0]|);
    WiresSplit(Ws, wires, []);
    RightEmpty(Concat(wires));
    SplitNothing(Ws, [f.payload, g.payload, h.payload]);
    IsHandled(Ws, Concat(wires));
    LastOfThree(f.payload, g.payload, h.payload);
  }

  lemma ThreeWires(f: W.ClientFrame, g: W.ClientFrame, h: W.ClientFrame)
    requires f.Valid() && g.Valid() && h.Valid() && |f.payload| == |g.payload| == |h.payload|
    ensures var wires := [W.WireOf(f), W.WireOf(g), W.WireOf(h)];
            && AllOfSize(Ws, wires, |wires[0]|) && AllWhole(Ws, wires) && 0 < |wires[0]|
            && Concat(wires) == W.WireOf(f) + (W.WireOf(g) + W.WireOf(h))
            && PayloadsIn(Ws, wires) == [f.payload, g.payload, h.payload]
  {
    ClientFrameWhole(f);
    ClientFrameWhole(g);
    ClientFrameWhole(h);
    hide W.WireOf, PayloadIn, Whole, Concat;
    var x, y, z := W.WireOf(f), W.WireOf(g), W.WireOf(h);
    assert [x, y, z] == [x] + ([y] + [z]);
    FrontTwo(x, y, [z]);
    ConcatOne(z);
    assert PayloadsIn(Ws, [x, y, z]) == [f.payload, g.payload, h.payload];
  }

  lemma SplitNothing(p: Protocol, payloads: seq<seq<byte>>)
    ensures Then(payloads, Split(p, [])) == Drained(payloads, [], Waiting)
  {
    NothingHeld(p, []);
    RightEmpty(payloads);
  }

  lemma IsHandled(p: Protocol, s: seq<byte>)
    ensures Handled(p, s) <==> Drain(p, Consumed, s) == Split(p, s)
  {
  }

  lemma LastOfThree<X>(a: X, b: X, c: X)
    ensures SecondRepeated([a, b, c]) == [a, b, b]
    ensures [a, b, b] == [a, b, c] <==> b == c
  {
    assert [a, b, b][2] == b && [a, b, c][2] == c;
  }

  lemma ClientFrameWhole(f: W.ClientFrame)
    requires f.Valid()
    ensures Whole(Ws, W.WireOf(f)) && PayloadIn(Ws, W.WireOf(f)) == f.payload
    ensures |W.WireOf(f)| == WireSize(Ws, |f.payload|)
  {
    WsFront(f, []);
    hide FrontOf, W.LengthField, W.ApplyMask;
    RightEmpty(W.WireOf(f));
  }

  lemma TcpFrameWhole(data: seq<byte>)
    requires |data| <= 65535
    ensures Whole(Tcp, T.Frame(data)) && PayloadIn(Tcp, T.Frame(data)) == data
    ensures |T.Frame(data)| == WireSize(Tcp, |data|)
  {
    TcpFront(data, []);
    hide FrontOf;
    RightEmpty(T.Frame(data));
  }

  // -------------------------------------------------------------------------------------------
  // Bursts by size
  // -------------------------------------------------------------------------------------------

  const MAX_PAYLOAD: Protocol -> nat := p => if p == Tcp then 65535 else 0x7FFF_FFFF

  /** The bytes of a frame with a payload of `n` bytes. */
  function WireSize(p: Protocol, n: nat): nat {
    if p.Tcp? then n + 2 else n + (if n < 126 then 6 else if n < 0x1_0000 then 8 else 14)
  }

  /** `w` is a client's frame with a payload of `n` bytes. */
  ghost predicate FrameOf(p: Protocol, w: seq<byte>, n: nat) {
    match p
    case Tcp => exists data: seq<byte> | |data| == n <= 65535 :: w == T.Frame(data)
    case Ws => exists f: W.ClientFrame | f.Valid() && |f.payload| == n :: w == W.WireOf(f)
  }

  /** `tail` begins a client's frame but does not complete it. */
  ghost predicate Unfinished(p: Protocol, tail: seq<byte>) {
    exists w: seq<byte>, n: nat | FrameOf(p, w, n) && |tail| < |w| :: tail == w[..|tail|]
  }

  ghost predicate BurstOf(p: Protocol, wires: seq<seq<byte>>, tail: seq<byte>, sizes: seq<nat>, t: nat) {
    && |wires| == |sizes| && (forall i :: 0 <= i < |sizes| ==> FrameOf(p, wires[i], sizes[i]))
    && |tail| == t && Unfinished(p, tail)
  }

  /** `s` holds frames with payloads of these sizes and `t` bytes of an unfinished frame behind them. */
  ghost predicate Burst(p: Protocol, s: seq<byte>, sizes: seq<nat>, t: nat) {
    exists wires: seq<seq<byte>>, tail: seq<byte> | BurstOf(p, wires, tail, sizes, t) :: s == Concat(wires) + tail
  }

  function Total(p: Protocol, sizes: seq<nat>, t: nat): nat {
    if sizes == [] then t else WireSize(p, sizes[0]) + Total(p, sizes[1..], t)
  }

  /** Whenever a frame is taken, the bytes behind it are no more than its own. */
  predicate GuardedSizes(p: Protocol, sizes: seq<nat>, t: nat) {
    sizes == [] || (Total(p, sizes, t) <= 2 * WireSize(p, sizes[0]) && GuardedSizes(p, sizes[1..], t))
  }

  /** Every frame with bytes behind it takes at most half the receive buffer. */
  predicate ShortSizes(p: Protocol, sizes: seq<nat>, t: nat) {
    sizes == []
    || (ShiftInBounds(Consumed, Total(p, sizes, t), WireSize(p, sizes[0])) && ShortSizes(p, sizes[1..], t))
  }

  lemma FrameIsWhole(p: Protocol, w: seq<byte>, n: nat)
    requires FrameOf(p, w, n)
    ensures Whole(p, w) && |w| == WireSize(p, n) && |PayloadIn(p, w)| == n
  {
    match p
    case Tcp =>
      var data: seq<byte> :| |data| == n <= 65535 && w == T.Frame(data);
      TcpFrameWhole(data);
    case Ws =>
      var f: W.ClientFrame :| f.Valid() && |f.payload| == n && w == W.WireOf(f);
      ClientFrameWhole(f);
  }

  lemma UnfinishedWaits(p: Protocol, tail: seq<byte>)
    requires Unfinished(p, tail)
    ensures FrontOf(p, tail) == Stuck(Waiting)
  {
    var w, n: nat :| FrameOf(p, w, n) && |tail| < |w| && tail == w[..|tail|];
    FrameIsWhole(p, w, n);
    hide FrontOf, FrameOf;
    PrefixWaits(p, w, |tail|);
  }

  lemma PrefixWaits(p: Protocol, w: seq<byte>, k: nat)
    requires Whole(p, w) && k < |w|
    ensures FrontOf(p, w[..k]) == Stuck(Waiting)
  {
    hide FrontOf;
    assert w == w[..k] + w[k..];
    if FrontOf(p, w[..k]) != Stuck(Waiting) {
      FrontStable(p, w[..k], w[k..]);
    }
  }

  /** The sizes decide whether a burst is guarded, and whether its frames are short. */
  lemma {:induction false} BurstGuard(p: Protocol, wires: seq<seq<byte>>, tail: seq<byte>, sizes: seq<nat>, t: nat)
    requires BurstOf(p, wires, tail, sizes, t)
    ensures var s := Concat(wires) + tail;
            && |s| == Total(p, sizes, t)
            && (Guarded(p, s) <==> GuardedSizes(p, sizes, t))
            && (Short(p, s) <==> ShortSizes(p, sizes, t))
    decreases |sizes|
  {
    hide FrontOf, FrameOf, Unfinished, Whole;
    if sizes == [] {
      assert Concat(wires) + tail == tail;
      UnfinishedWaits(p, tail);
    } else {
      FrameIsWhole(p, wires[0], sizes[0]);
      ConcatCons(wires, tail);
      WholeFront(p, wires[0], Concat(wires[1..]) + tail);
      BurstGuard(p, wires[1..], tail, sizes[1..], t);
    }
  }

  // -------------------------------------------------------------------------------------------
  // Every burst has a twin that differs in its last byte
  // -------------------------------------------------------------------------------------------

  function Zeros(n: nat): (s: seq<byte>)
    ensures |s| == n
  {
    seq(n, _ => 0)
  }

  const NO_MASK: seq<byte> := [0, 0, 0, 0]

  /** What stands in front of the masked payload. */
  function WsHead(opcode: byte, n: nat, mask: seq<byte>): (s: seq<byte>)
    requires n <= 0x7FFF_FFFF && |mask| == 4
    ensures |s| + n == WireSize(Ws, n)
  {
    assert Power256(8) == 0x1_0000_0000_0000_0000;
    [opcode] + W.LengthField(128, n) + mask
  }

  lemma WsFrameOf(opcode: byte, mask: seq<byte>, masked: seq<byte>)
    requires opcode in {0x81, 0x82} && |mask| == 4 && |masked| <= 0x7FFF_FFFF
    ensures FrameOf(Ws, WsHead(opcode, |masked|, mask) + masked, |masked|)
  {
    var f := W.ClientFrame(opcode, mask, W.ApplyMask(mask, masked));
    W.MaskTwice(mask, masked);
    assert f.Valid() && |f.payload| == |masked|;
    hide W.ApplyMask, W.LengthField;
    assert W.WireOf(f) == WsHead(opcode, |masked|, mask) + masked;
  }

  lemma TcpFrameOf(data: seq<byte>)
    requires |data| <= 65535
    ensures FrameOf(Tcp, Le16(|data|) + data, |data|)
  {
    assert T.Frame(data) == Le16(|data|) + data;
  }

  /** A frame with zeros around one byte of its payload. */
  lemma FrameAround(p: Protocol, before: nat, v: byte, after: nat) returns (head: seq<byte>)
    requires before + 1 + after <= MAX_PAYLOAD(p)
    ensures FrameOf(p, head + Zeros(before) + [v] + Zeros(after), before + 1 + after)
    ensures head == HeadFor(p, before + 1 + after)
  {
    var n := before + 1 + after;
    var data := Zeros(before) + [v] + Zeros(after);
    head := HeadFor(p, n);
    hide WsHead, FrameOf;
    if p.Tcp? {
      TcpFrameOf(data);
    } else {
      WsFrameOf(0x82, NO_MASK, data);
    }
    assert head + Zeros(before) + [v] + Zeros(after) == head + data;
  }

  function HeadFor(p: Protocol, n: nat): (head: seq<byte>)
    requires n <= MAX_PAYLOAD(p)
    ensures |head| + n == WireSize(p, n)
  {
    if p.Tcp? then Le16(n) else WsHead(0x82, n, NO_MASK)
  }

  /** Two frames of the same size, alike but for their last byte. */
  lemma TwinFrames(p: Protocol, n: nat) returns (front: seq<byte>)
    requires 0 < n <= MAX_PAYLOAD(p)
    ensures FrameOf(p, front + [0], n) && FrameOf(p, front + [1], n)
  {
    hide FrameOf;
    var head := FrameAround(p, n - 1, 0, 0);
    var _ := FrameAround(p, n - 1, 1, 0);
    front := head + Zeros(n - 1);
    assert Zeros(0) == [];
    RightEmpty(front + [0]);
    RightEmpty(front + [1]);
  }

  lemma CutFrame(p: Protocol, front: seq<byte>, v: byte, rest: seq<byte>, n: nat)
    requires FrameOf(p, front + [v] + rest, n) && rest != []
    ensures Unfinished(p, front + [v])
  {
    var w := front + [v] + rest;
    assert w[..|front| + 1] == front + [v];
  }

  /** Two unfinished frames of the same length, alike but for their last byte, which is a byte of
      the payload. */
  lemma TwinInPayload(p: Protocol, t: nat, n: nat) returns (front: seq<byte>, a: byte, b: byte)
    requires n <= MAX_PAYLOAD(p) && WireSize(p, n) - n < t < WireSize(p, n)
    ensures a != b && |front| + 1 == t && Unfinished(p, front + [a]) && Unfinished(p, front + [b])
  {
    var i := t - 1 - (WireSize(p, n) - n);
    hide FrameOf, Unfinished;
    var head := FrameAround(p, i, 0, n - i - 1);
    var _ := FrameAround(p, i, 1, n - i - 1);
    front, a, b := head + Zeros(i), 0, 1;
    CutFrame(p, front, 0, Zeros(n - i - 1), n);
    CutFrame(p, front, 1, Zeros(n - i - 1), n);
  }

  lemma TwinTcpHeads(t: nat) returns (front: seq<byte>, a: byte, b: byte)
    requires t in {1, 2}
    ensures a != b && |front| + 1 == t && Unfinished(Tcp, front + [a]) && Unfinished(Tcp, front + [b])
  {
    var m, n := if t == 1 then 1 else 256, if t == 1 then 2 else 512;
    TcpFrameOf(Zeros(m));
    TcpFrameOf(Zeros(n));
    front, a, b := if t == 1 then [] else [0], 1, 2;
    hide FrameOf, Unfinished;
    var restA, restB := (if t == 1 then [0] else []) + Zeros(m), (if t == 1 then [0] else []) + Zeros(n);
    assert Le16(m) + Zeros(m) == front + [a] + restA;
    assert Le16(n) + Zeros(n) == front + [b] + restB;
    CutFrame(Tcp, front, a, restA, m);
    CutFrame(Tcp, front, b, restB, n);
  }

  lemma SmallHead(opcode: byte, n: nat, mask: seq<byte>)
    requires n < 126 && |mask| == 4
    ensures WsHead(opcode, n, mask) == [opcode, 128 + n] + mask
  {
  }

  lemma MediumHead(opcode: byte, n: nat, mask: seq<byte>)
    requires 126 <= n < 0x1_0000 && |mask| == 4
    ensures WsHead(opcode, n, mask) == [opcode, 254, n / 256, n % 256] + mask
  {
    BigEndianAt(n, 2, 0);
    BigEndianAt(n, 2, 1);
    assert ShiftBytes(n, 1) == n / 256;
    var field := BigEndian(n, 2);
    assert field == [field[0], field[1]];
    hide BigEndian;
    assert W.LengthField(128, n) == [254] + field by {
      assert Power256(8) == 0x1_0000_0000_0000_0000;
    }
  }

  /** A header cut behind its `t`-th byte. */
  lemma CutHead(opcode: byte, n: nat, mask: seq<byte>, front: seq<byte>, v: byte)
    requires opcode in {0x81, 0x82} && 0 < n <= 0x7FFF_FFFF && |mask| == 4
    requires |front| < |WsHead(opcode, n, mask)| && WsHead(opcode, n, mask)[..|front| + 1] == front + [v]
    ensures Unfinished(Ws, front + [v])
  {
    hide FrameOf, WsHead;
    var head := WsHead(opcode, n, mask);
    var t := |front| + 1;
    WsFrameOf(opcode, mask, Zeros(n));
    assert (head + Zeros(n))[..t] == head[..t];
  }

  /** Two headers that agree up to the `t`-th byte and differ in it: an opcode or a small length. */
  lemma SmallTwins(t: nat) returns (opcode: byte, n: nat)
    requires t in {1, 2}
    ensures opcode in {0x81, 0x82} && 0 < n < 126
    ensures var x, y := WsHead(0x82, 1, NO_MASK), WsHead(opcode, n, NO_MASK);
            t <= |x| && t <= |y| && x[..t - 1] == y[..t - 1] && x[t - 1] != y[t - 1]
  {
    opcode, n := if t == 1 then 0x81 else 0x82, t;
    SmallHead(0x82, 1, NO_MASK);
    SmallHead(opcode, n, NO_MASK);
    hide WsHead;
    if t == 2 {
      assert ([0x82, 129] + NO_MASK)[..1] == [0x82] == ([0x82, 130] + NO_MASK)[..1];
    }
  }

  /** The same for a byte of a sixteen-bit length. */
  lemma LengthTwins(t: nat) returns (m: nat, n: nat)
    requires t in {3, 4}
    ensures 0 < m < 0x1_0000 && 0 < n < 0x1_0000
    ensures var x, y := WsHead(0x82, m, NO_MASK), WsHead(0x82, n, NO_MASK);
            t <= |x| && t <= |y| && x[..t - 1] == y[..t - 1] && x[t - 1] != y[t - 1]
  {
    m, n := if t == 3 then 256 else 257, if t == 3 then 512 else 258;
    MediumHead(0x82, m, NO_MASK);
    MediumHead(0x82, n, NO_MASK);
    hide WsHead;
    var x, y := [0x82, 254, m / 256, m % 256] + NO_MASK, [0x82, 254, n / 256, n % 256] + NO_MASK;
    assert forall i :: 0 <= i < t - 1 ==> x[i] == y[i];
  }

  /** The same for a byte of the mask. */
  lemma MaskTwins(t: nat) returns (mask: seq<byte>)
    requires 5 <= t <= 8
    ensures |mask| == 4
    ensures var x, y := WsHead(0x82, 256, NO_MASK), WsHead(0x82, 256, mask);
            t <= |x| && t <= |y| && x[..t - 1] == y[..t - 1] && x[t - 1] != y[t - 1]
  {
    mask := NO_MASK[t - 5 := 1];
    MediumHead(0x82, 256, NO_MASK);
    MediumHead(0x82, 256, mask);
    hide WsHead;
    var x, y := [0x82, 254, 1, 0] + NO_MASK, [0x82, 254, 1, 0] + mask;
    assert forall i :: 0 <= i < t - 1 ==> x[i] == y[i];
  }

  lemma CutTwins(m: nat, opcode: byte, n: nat, mask: seq<byte>, t: nat)
      returns (front: seq<byte>, a: byte, b: byte)
    requires opcode in {0x81, 0x82} && 0 < m <= 0x7FFF_FFFF && 0 < n <= 0x7FFF_FFFF && |mask| == 4 && 0 < t
    requires var x, y := WsHead(0x82, m, NO_MASK), WsHead(opcode, n, mask);
             t <= |x| && t <= |y| && x[..t - 1] == y[..t - 1] && x[t - 1] != y[t - 1]
    ensures a != b && |front| + 1 == t && Unfinished(Ws, front + [a]) && Unfinished(Ws, front + [b])
  {
    hide WsHead, Unfinished;
    var x, y := WsHead(0x82, m, NO_MASK), WsHead(opcode, n, mask);
    front, a, b := x[..t - 1], x[t - 1], y[t - 1];
    assert x[..t] == front + [a] && y[..t] == y[..t - 1] + [b];
    CutHead(0x82, m, NO_MASK, front, a);
    CutHead(opcode, n, mask, front, b);
  }

  /** The same inside a WebSocket header: in the opcode, a length or the mask. */
  lemma TwinWsHeads(t: nat) returns (front: seq<byte>, a: byte, b: byte)
    requires 1 <= t <= 8
    ensures a != b && |front| + 1 == t && Unfinished(Ws, front + [a]) && Unfinished(Ws, front + [b])
  {
    hide WsHead, Unfinished;
    if t <= 2 {
      var opcode, n := SmallTwins(t);
      front, a, b := CutTwins(1, opcode, n, NO_MASK, t);
    } else if t <= 4 {
      var m, n := LengthTwins(t);
      front, a, b := CutTwins(m, 0x82, n, NO_MASK, t);
    } else {
      var mask := MaskTwins(t);
      front, a, b := CutTwins(256, 0x82, 256, mask, t);
    }
  }

  lemma TwinTails(p: Protocol, t: nat) returns (front: seq<byte>, a: byte, b: byte)
    requires 0 < t < WireSize(p, MAX_PAYLOAD(p))
    ensures a != b && |front| + 1 == t && Unfinished(p, front + [a]) && Unfinished(p, front + [b])
  {
    hide Unfinished;
    if p.Tcp? && t <= 2 {
      front, a, b := TwinTcpHeads(t);
    } else if p.Ws? && t <= 8 {
      front, a, b := TwinWsHeads(t);
    } else if p.Ws? && t < WireSize(p, 65535) {
      front, a, b := TwinInPayload(p, t, 65535);
    } else {
      front, a, b := TwinInPayload(p, t, MAX_PAYLOAD(p));
    }
  }

  /** The sizes a client can send, and at least one byte at the end that its frames leave open. */
  predicate Sizes(p: Protocol, sizes: seq<nat>, t: nat) {
    && (forall i :: 0 <= i < |sizes| ==> sizes[i] <= MAX_PAYLOAD(p))
    && t < WireSize(p, MAX_PAYLOAD(p))
    && (t == 0 ==> sizes != [] && 0 < sizes[|sizes| - 1])
  }

  lemma {:induction false} SomeFrames(p: Protocol, sizes: seq<nat>) returns (wires: seq<seq<byte>>)
    requires forall i :: 0 <= i < |sizes| ==> sizes[i] <= MAX_PAYLOAD(p)
    ensures |wires| == |sizes| && forall i :: 0 <= i < |sizes| ==> FrameOf(p, wires[i], sizes[i])
  {
    hide FrameOf, WsHead;
    wires := [];
    if sizes != [] {
      var n := sizes[0];
      var first: seq<byte>;
      if p.Tcp? {
        TcpFrameOf(Zeros(n));
        first := Le16(n) + Zeros(n);
      } else {
        WsFrameOf(0x82, NO_MASK, Zeros(n));
        first := WsHead(0x82, n, NO_MASK) + Zeros(n);
      }
      var later := SomeFrames(p, sizes[1..]);
      wires := [first] + later;
    }
  }

  /** Two bursts of these sizes, alike but for their last byte. */
  lemma TwinBursts(p: Protocol, sizes: seq<nat>, t: nat) returns (front: seq<byte>, a: byte, b: byte)
    requires Sizes(p, sizes, t)
    ensures a != b && Burst(p, front + [a], sizes, t) && Burst(p, front + [b], sizes, t)
  {
    hide FrameOf, Unfinished;
    if t == 0 {
      var k := |sizes| - 1;
      var wires := SomeFrames(p, sizes[..k]);
      var last := TwinFrames(p, sizes[k]);
      front, a, b := Concat(wires) + last, 0, 1;
      EndsInFrame(p, wires, last, 0, sizes);
      EndsInFrame(p, wires, last, 1, sizes);
    } else {
      var wires := SomeFrames(p, sizes);
      var last: seq<byte>;
      last, a, b := TwinTails(p, t);
      front := Concat(wires) + last;
      IsBurst(p, wires, last + [a], sizes, t);
      IsBurst(p, wires, last + [b], sizes, t);
      Assoc(Concat(wires), last, [a]);
      Assoc(Concat(wires), last, [b]);
    }
  }

  lemma IsBurst(p: Protocol, wires: seq<seq<byte>>, tail: seq<byte>, sizes: seq<nat>, t: nat)
    requires BurstOf(p, wires, tail, sizes, t)
    ensures Burst(p, Concat(wires) + tail, sizes, t)
  {
  }

  lemma EndsInFrame(p: Protocol, wires: seq<seq<byte>>, last: seq<byte>, v: byte, sizes: seq<nat>)
    requires |sizes| == |wires| + 1 && forall i :: 0 <= i < |wires| ==> FrameOf(p, wires[i], sizes[i])
    requires FrameOf(p, last + [v], sizes[|sizes| - 1])
    ensures Burst(p, Concat(wires) + last + [v], sizes, 0)
  {
    hide *;
    var whole := last + [v];
    NothingUnfinished(p, whole, sizes[|sizes| - 1]);
    OneMoreFrame(p, wires, whole, sizes);
    IsBurst(p, wires + [whole], [], sizes, 0);
    ConcatAppend(wires, [whole]);
    ConcatOne(whole);
    Assoc(Concat(wires), last, [v]);
    RightEmpty(Concat(wires + [whole]));
  }

  lemma NothingUnfinished(p: Protocol, w: seq<byte>, n: nat)
    requires FrameOf(p, w, n)
    ensures Unfinished(p, [])
  {
    FrameIsWhole(p, w, n);
    hide FrameOf;
    assert w[..0] == [];
  }

  lemma OneMoreFrame(p: Protocol, wires: seq<seq<byte>>, w: seq<byte>, sizes: seq<nat>)
    requires |sizes| == |wires| + 1 && forall i :: 0 <= i < |wires| ==> FrameOf(p, wires[i], sizes[i])
    requires FrameOf(p, w, sizes[|sizes| - 1]) && Unfinished(p, [])
    ensures BurstOf(p, wires + [w], [], sizes, 0)
  {
    hide FrameOf, Unfinished;
  }

  lemma BurstEnds(p: Protocol, s: seq<byte>, sizes: seq<nat>, t: nat)
    requires Burst(p, s, sizes, t) && Sizes(p, sizes, t)
    ensures !EndsEmpty(p, s)
  {
    var wires: seq<seq<byte>>, tail: seq<byte> :| BurstOf(p, wires, tail, sizes, t) && s == Concat(wires) + tail;
    FramesAreWhole(p, wires, sizes);
    BurstSplit(p, wires, tail);
    hide Whole, PayloadIn, FrameOf, Unfinished, Split;
  }

  lemma FramesAreWhole(p: Protocol, wires: seq<seq<byte>>, sizes: seq<nat>)
    requires |wires| == |sizes| && forall i :: 0 <= i < |sizes| ==> FrameOf(p, wires[i], sizes[i])
    ensures AllWhole(p, wires) && forall i :: 0 <= i < |sizes| ==> |PayloadsIn(p, wires)[i]| == sizes[i]
  {
    hide FrameOf, Whole, PayloadIn;
    forall i | 0 <= i < |wires| ensures Whole(p, wires[i]) && |PayloadIn(p, wires[i])| == sizes[i] {
      FrameIsWhole(p, wires[i], sizes[i]);
    }
  }

  lemma BurstSplit(p: Protocol, wires: seq<seq<byte>>, tail: seq<byte>)
    requires AllWhole(p, wires) && Unfinished(p, tail)
    ensures Split(p, Concat(wires) + tail) == Drained(PayloadsIn(p, wires), tail, Waiting)
  {
    UnfinishedWaits(p, tail);
    assert Split(p, tail) == Drained([], tail, Waiting);
    hide Whole, Split, Unfinished;
    WiresSplit(p, wires, tail);
    RightEmpty(PayloadsIn(p, wires));
  }

  /** A read that holds frames with payloads of given sizes, and then `t` bytes of an unfinished one, in
      whatever way it was cut off the bytes held before, is handled correctly for all payloads exactly
      when at each frame the bytes behind it are no more than its own; and inside the buffer besides
      exactly when every frame but a last one takes at most half of it. */
  lemma BurstExact(p: Protocol, sizes: seq<nat>, t: nat)
    requires Sizes(p, sizes, t)
    ensures (forall s | Burst(p, s, sizes, t) :: Handled(p, s)) <==> GuardedSizes(p, sizes, t)
    ensures (forall s | Burst(p, s, sizes, t) :: HandledInside(p, s))
       <==> GuardedSizes(p, sizes, t) && ShortSizes(p, sizes, t)
  {
    hide Guarded, Short, GuardedSizes, ShortSizes, Handled, EndsEmpty, BurstOf;
    forall s | Burst(p, s, sizes, t)
      ensures Guarded(p, s) <==> GuardedSizes(p, sizes, t)
      ensures Short(p, s) <==> ShortSizes(p, sizes, t)
      ensures Guarded(p, s) ==> Handled(p, s) && (InBounds(p, Consumed, s) <==> Short(p, s))
    {
      var wires: seq<seq<byte>>, tail: seq<byte> :| BurstOf(p, wires, tail, sizes, t) && s == Concat(wires) + tail;
      BurstGuard(p, wires, tail, sizes, t);
      if Guarded(p, s) {
        GuardedDrain(p, s);
      }
    }
    var front, a, b := TwinBursts(p, sizes, t);
    if !GuardedSizes(p, sizes, t) {
      BurstEnds(p, front + [a], sizes, t);
      NotBothHandled(p, front, a, b);
    }
  }

  lemma NotBothHandled(p: Protocol, front: seq<byte>, a: byte, b: byte)
    requires a != b && !Guarded(p, front + [a]) && !EndsEmpty(p, front + [a])
    ensures !(Handled(p, front + [a]) && Handled(p, front + [b]))
  {
    LastByteIgnored(p, front, a, b);
    SplitDiffers(p, front, a, b);
  }

  /** The two conditions are independent: this burst is dispatched correctly, although behind its first
      frame the code reads past the end of the buffer. */
  lemma RightButPastTheEnd(p: Protocol)
    ensures GuardedSizes(p, [2100, 100], 0) && !ShortSizes(p, [2100, 100], 0)
    ensures ShortSizes(p, [5, 5, 5], 0) && !GuardedSizes(p, [5, 5, 5], 0)
  {
    var two: seq<nat>, three: seq<nat> := [2100, 100], [5, 5, 5];
    assert two[1..] == [100] && three[1..] == [5, 5] && three[1..][1..] == [5];
    assert Total(p, two, 0) == WireSize(p, 2100) + WireSize(p, 100);
    assert Total(p, three, 0) == WireSize(p, 5) + WireSize(p, 5) + WireSize(p, 5);
  }

  /** Why the last frame of a burst must not be empty: frames without payload are handled correctly in any
      number, guarded or not. */
  lemma EmptyFramesHandled(p: Protocol, wires: seq<seq<byte>>)
    requires forall i :: 0 <= i < |wires| ==> FrameOf(p, wires[i], 0)
    ensures Handled(p, Concat(wires))
  {
    var n := WireSize(p, 0);
    forall i | 0 <= i < |wires| ensures Whole(p, wires[i]) && |wires[i]| == n && PayloadIn(p, wires[i]) == [] {
      FrameIsWhole(p, wires[i], 0);
    }
    hide Whole, PayloadIn, FrameOf, Handled;
    EqualFramesExact(p, wires, n);
  }
}
