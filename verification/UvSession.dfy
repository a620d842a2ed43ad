/** The receiving side of a session: netbus/session_uv.h, the buffer and receive callbacks of
    netbus/netbus.cc and `UVSession::close`. */
module UvSession {
  import opened Bytes
  import opened Seqs
  import opened Framing
  import W = WsProtocol
  import PM = ProtoManager

  /** What a service does with a command: it may patch the user tag where the command lies, and it
      may refuse the command. */
  datatype Verdict = Verdict(accepted: bool, patch: Option<int>)

  /** The commands among the payloads: those that hold a whole command header. */
  function Commands(payloads: seq<seq<byte>>): seq<PM.RawCmd> {
    if payloads == [] then []
    else
      (match PM.DecodeRaw(payloads[0]) case None => [] case Some(cmd) => [cmd]) + Commands(payloads[1..])
  }

  predicate Refuses(service: PM.RawCmd -> Verdict, payloads: seq<seq<byte>>) {
    exists cmd <- Commands(payloads) :: !service(cmd).accepted
  }

  lemma {:induction false} CommandsAppend(a: seq<seq<byte>>, b: seq<seq<byte>>)
    ensures Commands(a + b) == Commands(a) + Commands(b)
  {
    hide PM.DecodeRaw;
    if a == [] {
      assert a + b == b;
    } else {
      assert (a + b)[1..] == a[1..] + b;
      CommandsAppend(a[1..], b);
    }
  }

  lemma CommandsOne(payload: seq<byte>)
    ensures Commands([payload]) == match PM.DecodeRaw(payload) case None => [] case Some(cmd) => [cmd]
  {
    hide PM.DecodeRaw;
    assert [payload][1..] == [];
  }

  lemma RefusesAppend(service: PM.RawCmd -> Verdict, a: seq<seq<byte>>, b: seq<seq<byte>>)
    ensures Refuses(service, a + b) <==> Refuses(service, a) || Refuses(service, b)
    ensures !Refuses(service, [])
  {
    assert Commands([]) == [];
    hide Commands;
    CommandsAppend(a, b);
    if Refuses(service, a) {
      var cmd :| cmd in Commands(a) && !service(cmd).accepted;
      assert cmd in Commands(a + b);
    }
    if Refuses(service, b) {
      var cmd :| cmd in Commands(b) && !service(cmd).accepted;
      assert cmd in Commands(a + b);
    }
  }

  // -------------------------------------------------------------------------------------------
  // What reads do to a session
  // -------------------------------------------------------------------------------------------

  /** What a session holds and has done: bytes held, commands handed to the services, whether it is closed,
      whether a byte behind the end of a buffer was read, and whether the code ran into behaviour that C++
      leaves undefined and that is not followed further. */
  datatype Status = Status(held: seq<byte>, commands: seq<PM.RawCmd>, isShutdown: bool, overread: bool, broken: bool)

  /** One run of the receive loop: the held bytes are drained, every payload is handed on, and the session
      is closed by a refused command or a close frame. */
  function Received(p: Protocol, shift: Shift, service: PM.RawCmd -> Verdict, st: Status): Status {
    var d := Drain(p, shift, st.held);
    Status(d.rest, st.commands + Commands(d.payloads),
           st.isShutdown || Refuses(service, d.payloads) || d.stop == Closing,
           st.overread || !InBounds(p, shift, st.held), st.broken || d.stop == Undefined)
  }

  /** One turn of that loop. */
  function Turned(p: Protocol, shift: Shift, service: PM.RawCmd -> Verdict, st: Status): Status {
    match FrontOf(p, st.held)
    case Stuck(stop) =>
      st.(isShutdown := st.isShutdown || stop == Closing, broken := st.broken || stop == Undefined)
    case Frame(size, payload) =>
      Status(Shifted(shift, st.held, size), st.commands + Commands([payload]),
             st.isShutdown || Refuses(service, [payload]),
             st.overread || !ShiftInBounds(shift, |st.held|, size), st.broken)
  }

  lemma TurnByTurn(p: Protocol, shift: Shift, service: PM.RawCmd -> Verdict, st: Status)
    ensures var next := Turned(p, shift, service, st);
            Received(p, shift, service, st)
              == if FrontOf(p, st.held).Frame? then Received(p, shift, service, next) else next
  {
    var f := FrontOf(p, st.held);
    hide FrontOf, Shifted, ShiftInBounds, Commands, Refuses;
    match f
    case Stuck(stop) =>
      NothingHandedOn(service, st.commands);
    case Frame(size, payload) =>
      var later := Drain(p, shift, Shifted(shift, st.held, size)).payloads;
      CommandsAppend([payload], later);
      RefusesAppend(service, [payload], later);
      Assoc(st.commands, Commands([payload]), Commands(later));
  }

  lemma NothingHandedOn(service: PM.RawCmd -> Verdict, commands: seq<PM.RawCmd>)
    ensures commands + Commands([]) == commands && !Refuses(service, [])
  {
  }

  /** A whole run of reads: commands and held bytes are those of `Feed`. */
  function Fed(p: Protocol, shift: Shift, service: PM.RawCmd -> Verdict, st: Status, chunks: seq<seq<byte>>): Status {
    var f := Feed(p, shift, st.held, chunks);
    Status(f.rest, st.commands + Commands(f.payloads),
           st.isShutdown || Refuses(service, f.payloads) || f.stop == Closing,
           st.overread || !FeedInBounds(p, shift, st.held, chunks), st.broken || f.stop == Undefined)
  }

  lemma ReadByRead(p: Protocol, shift: Shift, service: PM.RawCmd -> Verdict, st: Status, chunks: seq<seq<byte>>)
    requires chunks != []
    ensures var next := Received(p, shift, service, st.(held := st.held + chunks[0]));
            Fed(p, shift, service, st, chunks)
              == if Drain(p, shift, st.held + chunks[0]).stop == Waiting
                 then Fed(p, shift, service, next, chunks[1..]) else next
  {
    hide Drain, InBounds, Commands, Refuses;
    var d := Drain(p, shift, st.held + chunks[0]);
    if d.stop == Waiting {
      var f := Feed(p, shift, d.rest, chunks[1..]);
      assert Feed(p, shift, st.held, chunks) == Then(d.payloads, f);
      CommandsAppend(d.payloads, f.payloads);
      RefusesAppend(service, d.payloads, f.payloads);
      Assoc(st.commands, Commands(d.payloads), Commands(f.payloads));
    } else {
      assert Feed(p, shift, st.held, chunks) == d;
    }
    assert FeedInBounds(p, shift, st.held, chunks)
       <==> InBounds(p, shift, st.held + chunks[0])
            && (d.stop == Waiting ==> FeedInBounds(p, shift, d.rest, chunks[1..]));
    hide Feed, FeedInBounds;
  }

  /** A run of reads closes a session exactly when one of the commands it hands on is refused, or at a
      close frame. */
  lemma Verdicts(p: Protocol, shift: Shift, service: PM.RawCmd -> Verdict, st: Status, chunks: seq<seq<byte>>)
    ensures var q := Fed(p, shift, service, st, chunks);
            && st.commands <= q.commands
            && (q.isShutdown <==>
                  || st.isShutdown
                  || (exists i | |st.commands| <= i < |q.commands| :: !service(q.commands[i]).accepted)
                  || Feed(p, shift, st.held, chunks).stop == Closing)
  {
    hide Feed, FeedInBounds, Commands;
    var q := Fed(p, shift, service, st, chunks);
    var news := Commands(Feed(p, shift, st.held, chunks).payloads);
    assert forall i :: 0 <= i < |news| ==> q.commands[|st.commands| + i] == news[i];
    if cmd :| cmd in news && !service(cmd).accepted {
      var i :| 0 <= i < |news| && news[i] == cmd;
      assert !service(q.commands[|st.commands| + i]).accepted;
    }
    if i :| |st.commands| <= i < |q.commands| && !service(q.commands[i]).accepted {
      assert q.commands[i] == news[i - |st.commands|];
    }
  }

  lemma NoReads(p: Protocol, shift: Shift, service: PM.RawCmd -> Verdict, st: Status)
    ensures Fed(p, shift, service, st, []) == st
  {
    NothingHandedOn(service, st.commands);
  }

  /** What `memmove` of either length leaves at the front of the buffer. */
  lemma ShiftedBytes(shift: Shift, held: seq<byte>, n: nat, now: seq<byte>)
    requires 0 < n <= |held| && |now| == |held| - n
    requires forall i :: 0 <= i < |now| && (shift.Remaining? || i < n) ==> now[i] == held[n + i]
    requires forall i :: n <= i < |now| && shift.Consumed? ==> now[i] == held[i]
    ensures now == Shifted(shift, held, n)
  {
    if shift.Consumed? && 2 * n < |held| {
      assert now[..n] == held[n..2 * n];
      assert now[n..] == held[n..|held| - n];
      assert now == now[..n] + now[n..];
    }
  }

  lemma SuffixWithin<X>(a: seq<X>, b: seq<X>, size: nat, n: nat)
    requires size <= n <= |a| == |b| && a[size..] == b[size..]
    ensures a[..n][size..] == b[..n][size..]
  {
    assert a[..n][size..] == a[size..][..n - size];
    assert b[..n][size..] == b[size..][..n - size];
  }

  /** A session whose header can be read as soon as the buffer is full. */
  predicate Readable(p: Protocol, held: seq<byte>) {
    |held| < SESSION_RECV_LEN || (HeaderOf(p, held).Some? && |held| < FrameSize(p, held))
  }

  function FrameSize(p: Protocol, held: seq<byte>): int
    requires held != [] && HeaderOf(p, held).Some?
  {
    HeaderOf(p, held).value.head + HeaderOf(p, held).value.payload
  }

  /** How many bytes the next read may bring. */
  function Window(p: Protocol, held: seq<byte>): (n: int)
    requires Readable(p, held)
    ensures 0 < n
  {
    if |held| < SESSION_RECV_LEN then SESSION_RECV_LEN - |held| else FrameSize(p, held) - |held|
  }

  /** Every chunk fits the window open at its time. */
  predicate WithinWindows(p: Protocol, shift: Shift, held: seq<byte>, chunks: seq<seq<byte>>)
    decreases |chunks|
  {
    chunks == []
    || (Readable(p, held) ==>
          && |chunks[0]| <= Window(p, held)
          && var d := Drain(p, shift, held + chunks[0]);
             d.stop == Waiting ==> WithinWindows(p, shift, d.rest, chunks[1..]))
  }

  /** At each read there is a window, and no header announces 2^31 bytes or more. */
  predicate Sound(p: Protocol, shift: Shift, held: seq<byte>, chunks: seq<seq<byte>>)
    decreases |chunks|
  {
    chunks == []
    || (&& Readable(p, held)
        && var d := Drain(p, shift, held + chunks[0]);
           d.stop != Undefined && (d.stop == Waiting ==> Sound(p, shift, d.rest, chunks[1..])))
  }

  class UVSession {
    const socketType: Protocol
    const shift: Shift
    /** The bytes that lie in memory behind a buffer, for reads past its end. */
    const outside: nat -> byte
    const service: PM.RawCmd -> Verdict
    const recvBuffer: array<byte>
    var recved: nat
    var longPkg: array?<byte>
    var longPkgLen: nat
    var isShutdown: bool
    /** How often the services were told that the session is gone. */
    var disconnects: nat
    /** The commands handed to the services, oldest first. */
    var commands: seq<PM.RawCmd>
    var overread: bool
    var broken: bool

    function Buffer(): array<byte>
      reads this
    {
      if longPkg == null then recvBuffer else longPkg
    }

    ghost predicate Sizes()
      reads this
    {
      && recvBuffer.Length == SESSION_RECV_LEN
      && recved <= Buffer().Length
      && (disconnects == if isShutdown then 1 else 0)
      && (longPkg == null ==> longPkgLen == 0)
    }

    /** A big-frame buffer has exactly the size announced by the header it begins with. */
    ghost predicate Shape()
      reads this, recvBuffer, Buffer()
    {
      && Sizes()
      && (longPkg != null ==>
            && longPkg != recvBuffer
            && longPkg.Length == longPkgLen
            && SESSION_RECV_LEN <= recved
            && HeaderOf(socketType, longPkg[..recved]).Some?
            && FrameSize(socketType, longPkg[..recved]) == longPkgLen)
    }

    ghost function Held(): seq<byte>
      requires recved <= Buffer().Length
      reads this, Buffer()
    {
      Buffer()[..recved]
    }

    ghost function Now(): Status
      requires recved <= Buffer().Length
      reads this, Buffer()
    {
      Status(Held(), commands, isShutdown, overread, broken)
    }

    /** Between two events: the held bytes contain no complete frame, and a big-frame buffer exists
        only while its frame is incomplete. */
    ghost predicate Idle()
      reads this, recvBuffer, Buffer()
    {
      && Shape()
      && (longPkg != null ==> recved < longPkgLen)
      && FrontOf(socketType, Held()).Stuck?
    }

    constructor (socketType: Protocol, shift: Shift, outside: nat -> byte, service: PM.RawCmd -> Verdict)
      ensures Idle() && fresh(recvBuffer) && longPkg == null
      ensures this.socketType == socketType && this.shift == shift && this.service == service
      ensures Now() == Status([], [], false, false, false)
    {
      this.socketType, this.shift, this.outside, this.service := socketType, shift, outside, service;
      recvBuffer := new byte[SESSION_RECV_LEN](i => 0);
      recved, longPkg, longPkgLen := 0, null, 0;
      isShutdown, disconnects, commands, overread, broken := false, 0, [], false, false;
    }

    /** However often it is called, the services hear of it once. */
    method Close()
      requires disconnects == if isShutdown then 1 else 0
      modifies this`isShutdown, this`disconnects
      ensures isShutdown && disconnects == 1
    {
      if isShutdown {
        return;
      }
      disconnects := disconnects + 1;
      isShutdown := true;
    }

    /** The window for the next read: nonempty, inside its buffer, right behind the held bytes. A full
        buffer is first moved into one that has exactly the size of the frame it begins. When it begins
        none, the code asks for a buffer of no bytes and copies the full one into it. */
    method OnAllocBuffer() returns (base: array<byte>, start: nat, len: nat)
      requires Idle()
      modifies this`longPkg, this`longPkgLen, this`broken
      ensures Idle() && Held() == old(Held())
      ensures base == Buffer() && start == recved && start + len <= base.Length
      ensures Readable(socketType, Held()) ==> len == Window(socketType, Held()) && start + len == base.Length
      ensures !Readable(socketType, Held()) ==> len == 0
      ensures longPkg == old(longPkg) || fresh(longPkg)
      ensures broken == (old(broken) || !Readable(socketType, Held()))
    {
      if recved < SESSION_RECV_LEN {
        return recvBuffer, recved, SESSION_RECV_LEN - recved;
      }
      ghost var held := Held();
      assert held == Buffer()[..recved];
      FullBuffer(socketType, held);
      hide FrontOf, HeaderOf;
      if longPkg == null {
        var header := HeaderOf(socketType, recvBuffer[..recved]);
        if header == None || header.value.payload < 0 {
          broken := true;
          return recvBuffer, recved, 0;
        }
        longPkgLen := header.value.head + header.value.payload;
        var pkg := new byte[longPkgLen](i => 0);
        forall i | 0 <= i < recved {
          pkg[i] := recvBuffer[i];
        }
        assert pkg[..recved] == held;
        longPkg := pkg;
      }
      assert longPkg[..recved] == held;
      return longPkg, recved, longPkgLen - recved;
    }

    method OnRecvClientCommand(buffer: array<byte>, head: nat, len: nat)
      requires head + len <= buffer.Length
      requires disconnects == if isShutdown then 1 else 0
      modifies this`commands, this`isShutdown, this`disconnects, buffer
      ensures disconnects == if isShutdown then 1 else 0
      ensures buffer[..head] == old(buffer[..head])
      ensures buffer[head + len..] == old(buffer[head + len..])
      ensures commands == old(commands) + Commands([old(buffer[head..head + len])])
      ensures isShutdown == (old(isShutdown) || Refuses(service, [old(buffer[head..head + len])]))
      ensures len < PM.CMD_HEADER_SIZE ==>
                buffer[..] == old(buffer[..]) && commands == old(commands) && isShutdown == old(isShutdown)
      ensures PM.CMD_HEADER_SIZE <= len ==>
                var cmd := PM.DecodeRaw(old(buffer[head..head + len])).value;
                && commands == old(commands) + [cmd]
                && isShutdown == (old(isShutdown) || !service(cmd).accepted)
                && buffer[head..head + len] == match service(cmd).patch
                                               case None => old(buffer[head..head + len])
                                               case Some(utag) => PM.PatchUtag(old(buffer[head..head + len]), utag)
    {
      ghost var payload := buffer[head..head + len];
      CommandsOne(payload);
      assert [] + commands == commands == commands + [];
      if PM.CMD_HEADER_SIZE <= len {
        var raw := new PM.RawCmdMsg(buffer, head, len);
        var stype, ctype, utag := raw.ReadHeader();
        var cmd := PM.RawCmd(stype, ctype, utag, buffer[head..head + len]);
        assert Commands([payload]) == [cmd];
        commands := commands + [cmd];
        var verdict := service(cmd);
        if verdict.patch.Some? {
          raw.SetUtag(verdict.patch.value);
        }
        if !verdict.accepted {
          Close();
        }
      }
    }

    /** `memmove` to the front of the buffer. */
    method MoveToFront(buffer: array<byte>, start: nat, count: nat)
      requires 0 < start && count <= buffer.Length
      modifies this`overread, buffer
      ensures forall i :: 0 <= i < count && start + i < buffer.Length ==> buffer[i] == old(buffer[start + i])
      ensures forall i :: count <= i < buffer.Length ==> buffer[i] == old(buffer[i])
      ensures overread == (old(overread) || (0 < count && buffer.Length < start + count))
    {
      for i := 0 to count
        invariant forall k :: 0 <= k < i && start + k < buffer.Length ==> buffer[k] == old(buffer[start + k])
        invariant forall k :: i <= k < buffer.Length ==> buffer[k] == old(buffer[k])
        invariant overread == (old(overread) || (0 < i && buffer.Length < start + i))
      {
        if start + i < buffer.Length {
          buffer[i] := buffer[start + i];
        } else {
          buffer[i] := outside(start + i);
          overread := true;
        }
      }
    }

    /** What the receive loops do behind a frame of `size` bytes. As written they read past the end of the
        buffer exactly when bytes remain and twice the frame does not fit. */
    method DropFrame(buffer: array<byte>, size: nat)
      requires buffer == Buffer() && 0 < size <= recved <= buffer.Length
      modifies this`recved, this`longPkg, this`longPkgLen, this`overread, buffer
      ensures recved == old(recved) - size
      ensures buffer[..recved] == Shifted(shift, old(Held()), size)
      ensures overread == (old(overread) || (shift.Consumed? && 0 < recved && buffer.Length < 2 * size))
      ensures if recved == 0 && old(longPkg) != null then longPkg == null && longPkgLen == 0
              else longPkg == old(longPkg) && longPkgLen == old(longPkgLen)
    {
      ghost var held := Held();
      if size < recved {
        MoveToFront(buffer, size, if shift.Consumed? then size else recved - size);
      }
      recved := recved - size;
      assert forall i :: 0 <= i < recved && (shift.Remaining? || i < size) ==> buffer[i] == held[size + i];
      assert forall i :: size <= i < recved && shift.Consumed? ==> buffer[i] == held[i];
      ShiftedBytes(shift, held, size, buffer[..recved]);
      if recved == 0 && longPkg != null {
        longPkg := null;
        longPkgLen := 0;
      }
    }

    /** One complete frame at the front of the held bytes: its payload is handed on and the frame is
        dropped. `held` is what was held before an unmasking changed the frame. */
    method HandleFrame(buffer: array<byte>, head: nat, len: nat, ghost held: seq<byte>)
      requires Sizes() && buffer == Buffer() && 2 <= head && head + len <= recved
      requires longPkg != null ==> recved == head + len
      requires |held| == recved && held[head + len..] == Held()[head + len..]
      modifies this`recved, this`longPkg, this`longPkgLen, this`commands, this`isShutdown, this`disconnects
      modifies this`overread, buffer
      ensures Shape() && recved < old(recved)
      ensures overread == (old(overread) || !ShiftInBounds(shift, old(recved), head + len))
      ensures if old(longPkg) != null then longPkg == null && recved == 0 else longPkg == null && buffer == Buffer()
      ensures Held() == Shifted(shift, held, head + len)
      ensures commands == old(commands) + Commands([old(buffer[head..head + len])])
      ensures isShutdown == (old(isShutdown) || Refuses(service, [old(buffer[head..head + len])]))
    {
      hide Shifted, Commands, Refuses, HeaderOf, PM.DecodeRaw, PM.PatchUtag;
      ghost var before := buffer[..];
      var size := head + len;
      OnRecvClientCommand(buffer, head, len);
      SuffixWithin(before, buffer[..], size, recved);
      assert Held() == buffer[..][..recved];
      ShiftIgnoresFrame(shift, Held(), held, size);
      DropFrame(buffer, size);
    }

    /** One turn of the loop of `on_receive_tcp_data`; false where the loop breaks. A payload size read
        from two bytes is never negative, so the check for one is not repeated. */
    method ReceiveTcpFrame(buffer: array<byte>) returns (taken: bool)
      requires socketType == Tcp && Shape() && buffer == Buffer() && 0 < recved
      modifies this`recved, this`longPkg, this`longPkgLen, this`commands, this`isShutdown, this`disconnects
      modifies this`overread, this`broken, buffer
      ensures Shape() && (longPkg == null || longPkg == old(longPkg))
      ensures longPkg != null ==> recved == old(recved)
      ensures taken == FrontOf(Tcp, old(Held())).Frame?
      ensures Now() == Turned(Tcp, shift, service, old(Now())) && (taken ==> recved < old(recved))
      ensures 0 < recved ==> buffer == Buffer()
      ensures !taken && longPkg != null ==> recved < longPkgLen
    {
      hide FrontOf, HeaderOf, Shifted, Commands, Refuses;
      ghost var held := Held();
      FrontCases(Tcp, held);
      var header := HeaderOf(Tcp, buffer[..recved]);
      if header == None {
        return false;
      }
      var headSize, payloadSize := header.value.head, header.value.payload;
      TcpPayloadSize(held);
      if recved < payloadSize + headSize {
        return false;
      }
      SliceOfPrefix(buffer[..], recved, headSize, headSize + payloadSize);
      assert held == buffer[..][..recved];
      HandleFrame(buffer, headSize, payloadSize, held);
      return true;
    }

    /** `on_receive_tcp_data`. */
    method OnReceiveTcpData()
      requires socketType == Tcp && Shape()
      modifies this, recvBuffer, Buffer()
      ensures Idle() && (longPkg == null || longPkg == old(longPkg))
      ensures Now() == Received(Tcp, shift, service, old(Now()))
    {
      assert FrontOf(Tcp, []) == Stuck(Waiting);
      hide FrontOf, HeaderOf, FrameSize, Turned, Received;
      var buffer := if longPkg == null then recvBuffer else longPkg;
      while recved > 0
        invariant Shape() && (0 < recved ==> buffer == Buffer())
        invariant longPkg == null || longPkg == old(longPkg)
        invariant Received(Tcp, shift, service, Now()) == Received(Tcp, shift, service, old(Now()))
        decreases recved
      {
        TurnByTurn(Tcp, shift, service, Now());
        var taken := ReceiveTcpFrame(buffer);
        if !taken {
          return;
        }
      }
      TurnByTurn(Tcp, shift, service, Now());
      NothingFound(Tcp, shift, service, Now());
    }

    /** A complete masked frame is unmasked where it lies and then handled like any other. */
    method HandleMasked(buffer: array<byte>, head: nat, len: nat)
      requires Sizes() && buffer == Buffer() && 4 <= head && head + len <= recved
      requires longPkg != null ==> recved == head + len
      modifies this`recved, this`longPkg, this`longPkgLen, this`commands, this`isShutdown, this`disconnects
      modifies this`overread, buffer
      ensures Shape() && recved < old(recved)
      ensures overread == (old(overread) || !ShiftInBounds(shift, old(recved), head + len))
      ensures if old(longPkg) != null then longPkg == null && recved == 0 else longPkg == null && buffer == Buffer()
      ensures Held() == Shifted(shift, old(Held()), head + len)
      ensures commands == old(commands) + Commands([PayloadOf(Ws, old(Held()), head, len)])
      ensures isShutdown == (old(isShutdown) || Refuses(service, [PayloadOf(Ws, old(Held()), head, len)]))
    {
      hide Shifted, Commands, Refuses, HeaderOf, FrontOf, ShiftInBounds, W.ApplyMask;
      ghost var held := Held();
      ghost var before := buffer[..];
      W.ParseWsRecvData(buffer, head, len);
      ghost var after := buffer[..];
      Unmasked(before, after, head, len, recved);
      assert buffer[head..head + len] == after[head..head + len];
      assert Held() == after[..recved] && held == before[..recved];
      HandleFrame(buffer, head, len, held);
    }

    /** One turn of the loop of `on_receive_ws_data`; false where the loop breaks. */
    method ReceiveWsFrame(buffer: array<byte>) returns (taken: bool)
      requires socketType == Ws && Shape() && buffer == Buffer() && 0 < recved
      modifies this`recved, this`longPkg, this`longPkgLen, this`commands, this`isShutdown, this`disconnects
      modifies this`overread, this`broken, buffer
      ensures Shape() && (longPkg == null || longPkg == old(longPkg))
      ensures longPkg != null ==> recved == old(recved)
      ensures taken == FrontOf(Ws, old(Held())).Frame?
      ensures Now() == Turned(Ws, shift, service, old(Now())) && (taken ==> recved < old(recved))
      ensures 0 < recved ==> buffer == Buffer()
      ensures !taken && longPkg != null ==> recved < longPkgLen
    {
      hide FrontOf, HeaderOf, Shifted, Commands, Refuses, ShiftInBounds, PayloadOf;
      ghost var held := Held();
      assert held == buffer[..recved] && held[0] == buffer[0];
      WsCases(held);
      if buffer[0] == 0x88 { // client close
        Close();
        return false;
      }
      var header := HeaderOf(Ws, buffer[..recved]);
      if header == None {
        return false;
      }
      var headSize, payloadSize := header.value.head, header.value.payload;
      if payloadSize < 0 { // passes the check below, and then moves a negative number of bytes
        broken := true;
        return false;
      }
      if recved < payloadSize + headSize {
        return false;
      }
      HandleMasked(buffer, headSize, payloadSize);
      return true;
    }

    /** `on_receive_ws_data` of a session past its handshake. */
    method OnReceiveWsData()
      requires socketType == Ws && Shape()
      modifies this, recvBuffer, Buffer()
      ensures Idle() && (longPkg == null || longPkg == old(longPkg))
      ensures Now() == Received(Ws, shift, service, old(Now()))
    {
      assert FrontOf(Ws, []) == Stuck(Waiting);
      hide FrontOf, HeaderOf, FrameSize, Turned, Received;
      var buffer := if longPkg == null then recvBuffer else longPkg;
      while recved > 0
        invariant Shape() && (0 < recved ==> buffer == Buffer())
        invariant longPkg == null || longPkg == old(longPkg)
        invariant Received(Ws, shift, service, Now()) == Received(Ws, shift, service, old(Now()))
        decreases recved
      {
        TurnByTurn(Ws, shift, service, Now());
        var taken := ReceiveWsFrame(buffer);
        if !taken {
          return;
        }
      }
      TurnByTurn(Ws, shift, service, Now());
      NothingFound(Ws, shift, service, Now());
    }

    /** `after_read`: the read brought `nread` bytes into the window, or failed. */
    method AfterRead(nread: int)
      requires Shape() && recved + nread <= Buffer().Length
      modifies this, recvBuffer, Buffer()
      ensures Sizes()
      ensures nread < 0 ==> Now() == old(Now()).(isShutdown := true)
      ensures 0 <= nread ==> Idle() && (longPkg == null || longPkg == old(longPkg))
      ensures 0 <= nread ==>
                Now() == Received(socketType, shift, service, old(Now()).(held := old(Buffer()[..recved + nread])))
    {
      if nread < 0 {
        Close();
        return;
      }
      ghost var grown := Buffer()[..recved + nread];
      if longPkg != null {
        assert grown == Held() + Buffer()[recved..recved + nread];
        HeaderKept(socketType, Held(), Buffer()[recved..recved + nread]);
      }
      hide FrontOf, HeaderOf, FrameSize, Received;
      recved := recved + nread;
      assert Held() == grown;
      if socketType == Ws {
        OnReceiveWsData();
      } else {
        OnReceiveTcpData();
      }
    }

    /** One read: the event loop asks for a window, puts the chunk into it and reports its size. Nothing
        is read once the behaviour is undefined. */
    method ReadEvent(chunk: seq<byte>)
      requires Idle()
      requires Readable(socketType, Held()) ==> |chunk| <= Window(socketType, Held())
      modifies this, recvBuffer, Buffer()
      ensures Idle() && (longPkg == null || longPkg == old(longPkg) || fresh(longPkg))
      ensures Now() == if Readable(socketType, old(Held()))
                       then Received(socketType, shift, service, old(Now()).(held := old(Held()) + chunk))
                       else old(Now()).(broken := true)
    {
      hide FrontOf, HeaderOf, FrameSize, Readable, Window, Received;
      ghost var held := Held();
      var base, start, len := OnAllocBuffer();
      if len == 0 {
        return;
      }
      forall i | 0 <= i < |chunk| {
        base[start + i] := chunk[i];
      }
      assert base[..start] == held;
      assert base[..start + |chunk|] == held + chunk;
      AfterRead(|chunk|);
    }

    /** A run of reads, up to a close frame: dispatched commands and held bytes are those of `Feed`, unless
        and until the behaviour is undefined. */
    method Serve(chunks: seq<seq<byte>>)
      requires Idle() && !broken && WithinWindows(socketType, shift, Held(), chunks)
      modifies this, recvBuffer, Buffer()
      ensures Idle() && disconnects == if isShutdown then 1 else 0
      ensures !broken ==>
                && old(commands) <= commands
                && (isShutdown <==>
                      || old(isShutdown)
                      || (exists i | |old(commands)| <= i < |commands| :: !service(commands[i]).accepted)
                      || Feed(socketType, shift, old(Held()), chunks).stop == Closing)
      ensures broken <==> !Sound(socketType, shift, old(Held()), chunks)
      ensures !broken ==> Now() == Fed(socketType, shift, service, old(Now()), chunks)
      decreases |chunks|
    {
      Verdicts(socketType, shift, service, Now(), chunks);
      hide FrontOf, HeaderOf, FrameSize, Received, Fed, Feed, Readable, Window;
      if chunks == [] {
        NoReads(socketType, shift, service, Now());
        return;
      }
      ReadByRead(socketType, shift, service, Now(), chunks);
      StoppedBy(socketType, shift, service, Now().(held := Held() + chunks[0]));
      ReadEvent(chunks[0]);
      if broken || (socketType == Ws && 0 < recved && Buffer()[0] == 0x88) {
        return;
      }
      Serve(chunks[1..]);
    }
  }

  /** Why the loop has stopped shows in what it leaves. */
  lemma StoppedBy(p: Protocol, shift: Shift, service: PM.RawCmd -> Verdict, st: Status)
    requires !st.broken
    ensures var q := Received(p, shift, service, st); var stop := Drain(p, shift, st.held).stop;
            && q.held == Drain(p, shift, st.held).rest
            && (q.broken <==> stop == Undefined)
            && (p == Ws && q.held != [] && q.held[0] == 0x88 <==> stop == Closing)
  {
    DrainFront(p, shift, st.held);
    ClosingFront(Drain(p, shift, st.held).rest);
    hide FrontOf, Drain;
  }

  lemma NothingFound(p: Protocol, shift: Shift, service: PM.RawCmd -> Verdict, st: Status)
    requires FrontOf(p, st.held) == Stuck(Waiting)
    ensures Turned(p, shift, service, st) == st
  {
  }

  /** Of the full buffers without a complete frame, those with a window begin a frame. */
  lemma FullBuffer(p: Protocol, held: seq<byte>)
    requires SESSION_RECV_LEN <= |held| && FrontOf(p, held).Stuck?
    ensures HeaderOf(p, held).Some? && 0 <= HeaderOf(p, held).value.payload ==>
              Readable(p, held) && FrameSize(p, held) > |held|
    ensures HeaderOf(p, held).None? || HeaderOf(p, held).value.payload < 0 ==> !Readable(p, held)
  {
  }

  lemma ClosingFront(held: seq<byte>)
    ensures FrontOf(Ws, held) == Stuck(Closing) <==> held != [] && held[0] == 0x88
    ensures FrontOf(Tcp, held) != Stuck(Closing)
  {
  }

  lemma {:induction false} DrainFront(p: Protocol, shift: Shift, s: seq<byte>)
    ensures var d := Drain(p, shift, s); FrontOf(p, d.rest) == Stuck(d.stop)
    decreases |s|
  {
    hide FrontOf, Shifted;
    var f := FrontOf(p, s);
    if f.Frame? {
      DrainFront(p, shift, Shifted(shift, s, f.size));
    }
  }

  /** What a WebSocket session finds at the front of the held bytes, case by case. */
  lemma WsCases(held: seq<byte>)
    requires held != []
    ensures var h := HeaderOf(Ws, held);
            && (h.Some? ==> 6 <= h.value.head <= |held| && held[0] != 0x88)
            && FrontOf(Ws, held)
               == if held[0] == 0x88 then Stuck(Closing)
                  else if h.None? then Stuck(Waiting)
                  else if h.value.payload < 0 then Stuck(Undefined)
                  else if |held| < h.value.head + h.value.payload then Stuck(Waiting)
                  else Frame(h.value.head + h.value.payload, PayloadOf(Ws, held, h.value.head, h.value.payload))
  {
  }

  lemma Unmasked(before: seq<byte>, after: seq<byte>, head: nat, len: nat, held: nat)
    requires 4 <= head && head + len <= held <= |before|
    requires after == before[..head] + W.ApplyMask(before[head - 4..head], before[head..head + len]) + before[head + len..]
    ensures |after| == |before|
    ensures after[head..head + len] == PayloadOf(Ws, before[..held], head, len)
    ensures after[..held][head + len..] == before[..held][head + len..]
  {
    var masked := W.ApplyMask(before[head - 4..head], before[head..head + len]);
    assert before[..held][head - 4..head] == before[head - 4..head];
    assert before[..held][head..head + len] == before[head..head + len];
    hide W.ApplyMask;
    assert |masked| == len;
    assert after[head..head + len] == masked;
    assert after[head + len..] == before[head + len..];
    SuffixWithin(after, before, head + len, held);
  }

  lemma HeaderKept(p: Protocol, a: seq<byte>, b: seq<byte>)
    requires a != [] && HeaderOf(p, a).Some?
    ensures HeaderOf(p, a + b) == HeaderOf(p, a)
  {
    if p.Tcp? {
      assert (a + b)[..2] == a[..2];
    } else {
      W.HeaderStable(a, b);
    }
  }

  lemma {:induction false} TcpNeverCloses(shift: Shift, s: seq<byte>)
    ensures Drain(Tcp, shift, s).stop == Waiting
    decreases |s|
  {
    var f := FrontOf(Tcp, s);
    if f.Frame? {
      TcpNeverCloses(shift, Shifted(shift, s, f.size));
    }
  }

  lemma TcpPayloadSize(s: seq<byte>)
    requires s != [] && HeaderOf(Tcp, s).Some?
    ensures 0 <= HeaderOf(Tcp, s).value.payload
  {
  }
}
