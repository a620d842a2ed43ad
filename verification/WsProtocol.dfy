/** The WebSocket framing of netbus/ws_protocol.cc against sections 5.2 and 5.3 of RFC 6455.
    Shifts by 32 bits or more are taken as the mathematical shifts they are written as. */
module WsProtocol {
  import opened Bytes
  import opened Seqs

  /** An unsigned 32-bit value stored in an `int`. */
  function ToInt32(v: nat): int {
    var u := v % 0x1_0000_0000;
    if u < 0x8000_0000 then u else u - 0x1_0000_0000
  }

  function ReadWsHeader(data: seq<byte>): (h: Option<Header>)
    requires data != []
    ensures h.Some? ==> 6 <= h.value.head <= |data|
  {
    if data[0] != 0x81 && data[0] != 0x82 then None
    else if |data| < 6 then None
    else
      var len := data[1] % 128;
      if len == 126 then
        if |data| < 8 then None else Some(Header(8, FromBigEndian(data[2..4])))
      else if len == 127 then
        if |data| < 14 then None else Some(Header(14, ToInt32(FromBigEndian(data[2..10]))))
      else
        Some(Header(6, len))
  }

  /** A header once readable does not change when more bytes arrive behind it. */
  lemma HeaderStable(a: seq<byte>, b: seq<byte>)
    requires a != [] && ReadWsHeader(a).Some?
    ensures ReadWsHeader(a + b) == ReadWsHeader(a)
  {
    assert (a + b)[0] == a[0] && (a + b)[1] == a[1];
    if a[1] % 128 == 126 {
      assert (a + b)[2..4] == a[2..4];
    } else if a[1] % 128 == 127 {
      assert (a + b)[2..10] == a[2..10];
    }
  }

  /** The payload with each byte combined with its byte of the four-byte mask. */
  function ApplyMask(mask: seq<byte>, payload: seq<byte>): (r: seq<byte>)
    requires |mask| == 4
    ensures |r| == |payload|
  {
    seq(|payload|, i requires 0 <= i < |payload| => Xor(payload[i], mask[i % 4]))
  }

  lemma MaskTwice(mask: seq<byte>, payload: seq<byte>)
    requires |mask| == 4
    ensures ApplyMask(mask, ApplyMask(mask, payload)) == payload
  {
    forall i | 0 <= i < |payload| ensures Xor(Xor(payload[i], mask[i % 4]), mask[i % 4]) == payload[i] {
      XorTwice(payload[i], mask[i % 4]);
    }
  }

  /** Unmasks a complete frame where it lies; nothing outside its payload changes. */
  method ParseWsRecvData(data: array<byte>, headSize: nat, payloadSize: nat)
    requires 4 <= headSize && headSize + payloadSize <= data.Length
    modifies data
    ensures data[..] == old(data[..headSize])
                        + ApplyMask(old(data[headSize - 4..headSize]), old(data[headSize..headSize + payloadSize]))
                        + old(data[headSize + payloadSize..])
  {
    ghost var was := data[..];
    hide Xor;
    for i := 0 to payloadSize
      invariant forall k :: 0 <= k < headSize ==> data[k] == was[k]
      invariant forall k :: 0 <= k < i ==> data[headSize + k] == Xor(was[headSize + k], was[headSize - 4 + k % 4])
      invariant forall k :: headSize + i <= k < data.Length ==> data[k] == was[k]
    {
      data[headSize + i] := Xor(data[headSize + i], data[headSize - 4 + i % 4]);
    }
    UnmaskedBytes(was, data[..], headSize, payloadSize);
  }

  lemma UnmaskedBytes(was: seq<byte>, now: seq<byte>, head: nat, len: nat)
    requires 4 <= head && head + len <= |was| == |now|
    requires forall k :: 0 <= k < head || head + len <= k < |was| ==> now[k] == was[k]
    requires forall k :: 0 <= k < len ==> now[head + k] == Xor(was[head + k], was[head - 4 + k % 4])
    ensures now == was[..head] + ApplyMask(was[head - 4..head], was[head..head + len]) + was[head + len..]
  {
    hide Xor;
    assert now[..head] == was[..head];
    assert now[head..head + len] == ApplyMask(was[head - 4..head], was[head..head + len]);
    assert now[head + len..] == was[head + len..];
    CutAt(now, head + len);
    CutAt(now[..head + len], head);
    SliceOfSlice(now, 0, head + len, 0, head);
    SliceOfSlice(now, 0, head + len, head, head + len);
  }

  // -------------------------------------------------------------------------------------------
  // Frames sent by a client (RFC 6455, sections 5.2 and 5.3)
  // -------------------------------------------------------------------------------------------

  /** A client's text (0x81) or binary (0x82) message and the mask the client drew for it. */
  datatype ClientFrame = ClientFrame(opcode: byte, mask: seq<byte>, payload: seq<byte>) {
    predicate Valid() {
      opcode in {0x81, 0x82} && |mask| == 4 && |payload| < 0x8000_0000
    }
  }

  /** The length field of section 5.2, `flag` being the value of the mask bit in place. */
  function LengthField(flag: int, n: nat): (s: seq<byte>)
    requires flag in {0, 128} && n < Power256(8)
    ensures |s| in {1, 3, 9}
  {
    if n < 126 then [flag + n]
    else if n < 0x1_0000 then [flag + 126] + BigEndian(n, 2)
    else [flag + 127] + BigEndian(n, 8)
  }

  function WireOf(f: ClientFrame): seq<byte>
    requires f.Valid()
  {
    assert Power256(8) == 0x1_0000_0000_0000_0000;
    [f.opcode] + LengthField(128, |f.payload|) + f.mask + ApplyMask(f.mask, f.payload)
  }

  /** What `ReadWsHeader` makes of an opcode and a masked length field. */
  lemma ReadLengthField(s: seq<byte>, n: nat)
    requires n < 0x8000_0000
    requires Power256(8) == 0x1_0000_0000_0000_0000
    requires var field := LengthField(128, n); 1 + |field| + 4 <= |s| && s[1..1 + |field|] == field
    requires s[0] in {0x81, 0x82}
    ensures ReadWsHeader(s) == Some(Header(5 + |LengthField(128, n)|, n))
  {
    var field := LengthField(128, n);
    assert s[1] == s[1..1 + |field|][0];
    if n < 126 {
    } else if n < 0x1_0000 {
      assert Power256(2) == 0x1_0000;
      BigEndianRoundTrip(n, 2);
      hide BigEndian, FromBigEndian;
      SliceOfSlice(s, 1, 4, 1, 3);
      SuffixOfPrefix([254], BigEndian(n, 2));
    } else {
      BigEndianRoundTrip(n, 8);
      hide BigEndian, FromBigEndian;
      SliceOfSlice(s, 1, 10, 1, 9);
      SuffixOfPrefix([255], BigEndian(n, 8));
    }
  }

  /** The server's header reader finds the client's header and payload sizes, and the mask sits in
      the last four header bytes. */
  lemma ReadClientHeader(f: ClientFrame, rest: seq<byte>)
    requires f.Valid()
    ensures var s := WireOf(f) + rest; var h := ReadWsHeader(s);
            && h.Some? && h.value.payload == |f.payload|
            && |WireOf(f)| == h.value.head + h.value.payload
            && 6 <= h.value.head
            && s[h.value.head - 4..h.value.head] == f.mask
            && s[h.value.head..h.value.head + h.value.payload] == ApplyMask(f.mask, f.payload)
  {
    var n := |f.payload|;
    assert Power256(8) == 0x1_0000_0000_0000_0000;
    var field := LengthField(128, n);
    var s := WireOf(f) + rest;
    var masked := ApplyMask(f.mask, f.payload);
    var k := 1 + |field|;
    assert s == [f.opcode] + field + f.mask + masked + rest;
    hide LengthField, ApplyMask, ReadWsHeader;
    assert s[0] == f.opcode;
    assert s[1..k] == field;
    ReadLengthField(s, n);
    assert s[k..k + 4] == f.mask;
    assert s[k + 4..k + 4 + n] == masked;
  }

  /** A length field as the code reads one: the mask bit is ignored, the longer forms may denote small
      numbers, and of the eight-byte form the low 32 bits count. */
  predicate DenotesLength(field: seq<byte>, n: nat) {
    field != [] && var form := field[0] % 128;
    if form < 126 then |field| == 1 && n == form
    else if form == 126 then |field| == 3 && n == FromBigEndian(field[1..])
    else |field| == 9 && n < 0x8000_0000 && n == FromBigEndian(field[1..]) % 0x1_0000_0000
  }

  /** Nothing but a text or binary header with a length and a mask is ever taken for a header. */
  lemma HeaderSound(s: seq<byte>) returns (field: seq<byte>, mask: seq<byte>)
    requires s != [] && ReadWsHeader(s).Some? && 0 <= ReadWsHeader(s).value.payload
    ensures s[0] in {0x81, 0x82} && |mask| == 4
    ensures var h := ReadWsHeader(s).value;
            h.head <= |s| && s[..h.head] == [s[0]] + field + mask && DenotesLength(field, h.payload)
  {
    hide FromBigEndian;
    var h := ReadWsHeader(s).value;
    field, mask := s[1..h.head - 4], s[h.head - 4..h.head];
    assert field[0] == s[1];
    SuffixOfField(s, h.head);
    assert s[..h.head] == [s[0]] + field + mask;
  }

  lemma SuffixOfField(s: seq<byte>, head: nat)
    requires 6 <= head <= |s|
    ensures s[1..head - 4][1..] == s[2..head - 4]
  {
  }

  // -------------------------------------------------------------------------------------------
  // Frames sent by the server
  // -------------------------------------------------------------------------------------------

  /** The header bytes written for `n` data bytes, before the data is copied in. */
  function WrittenHeader(n: nat): seq<byte> {
    if n < 126 then [0x82, n]
    else if n < 65535 then [0x82, 126] + BigEndian(n, 2)
    else [0x82, 127] + BigEndian(n, 8)
  }

  method WriteHeader(package: array<byte>, len: nat)
    requires |WrittenHeader(len)| <= package.Length
    modifies package
    ensures package[..|WrittenHeader(len)|] == WrittenHeader(len)
  {
    package[0] := 0x82;
    if len < 126 {
      package[1] := len;
    } else if len < 65535 {
      package[1] := 126;
      package[2] := ShiftBytes(len, 1) % 256;
      package[3] := ShiftBytes(len, 0) % 256;
      BigEndianAt(len, 2, 0);
      BigEndianAt(len, 2, 1);
    } else {
      package[1] := 127;
      package[2] := ShiftBytes(len, 7) % 256;
      package[3] := ShiftBytes(len, 6) % 256;
      package[4] := ShiftBytes(len, 5) % 256;
      package[5] := ShiftBytes(len, 4) % 256;
      package[6] := ShiftBytes(len, 3) % 256;
      package[7] := ShiftBytes(len, 2) % 256;
      package[8] := ShiftBytes(len, 1) % 256;
      package[9] := ShiftBytes(len, 0) % 256;
      forall j | 0 <= j < 8 ensures package[2 + j] == BigEndian(len, 8)[j] {
        BigEndianAt(len, 8, j);
      }
    }
  }

  /** How many bytes are reserved in front of `n` data bytes. At 65535 the reserved size and the
      written form disagree, and the data overwrites the last six bytes of the header. */
  function ReservedHeader(n: nat): nat {
    if n > 65535 then 10 else if n > 125 then 4 else 2
  }

  /** The bytes `PackageWsSendData` produces. */
  function ServerFrame(data: seq<byte>): seq<byte> {
    WrittenHeader(|data|)[..ReservedHeader(|data|)] + data
  }

  method PackageWsSendData(data: seq<byte>) returns (package: array<byte>)
    requires |data| < 0x8000_0000
    ensures fresh(package)
    ensures package[..] == ServerFrame(data)
  {
    var len := |data|;
    var headLen := 2;
    if len > 65535 {
      headLen := headLen + 8;
    } else if len > 125 {
      headLen := headLen + 2;
    }
    package := new byte[len + headLen](i => 0);
    WriteHeader(package, len);
    ghost var header := package[..headLen];
    assert header == WrittenHeader(len)[..headLen];
    forall i | 0 <= i < len {
      package[headLen + i] := data[i];
    }
    assert package[..headLen] == header;
    assert package[headLen..] == data;
    assert package[..] == header + data;
  }

  /** A client's reader of one unmasked binary frame (section 5.2): it insists on the shortest length
      form and yields the payload and the bytes after it. */
  function ReadUnmasked(s: seq<byte>): Option<(seq<byte>, seq<byte>)> {
    if |s| < 2 || s[0] != 0x82 || s[1] >= 128 then None
    else
      var form := s[1];
      var head := if form < 126 then 2 else if form == 126 then 4 else 10;
      if |s| < head then None
      else
        var n := if form < 126 then form else FromBigEndian(s[2..head]);
        if form == 126 && n < 126 then None
        else if form == 127 && n < 0x1_0000 then None
        else if |s| < head + n then None
        else Some((s[head..head + n], s[head + n..]))
  }

  /** How the client reads a stream that begins with the header `h` and the data. */
  lemma ReadBehind(h: seq<byte>, data: seq<byte>, rest: seq<byte>)
    requires 2 <= |h| && h[0] == 0x82
    ensures var s := h + data + rest;
            && s[0] == 0x82 && s[1] == h[1] && s[2..|h|] == h[2..]
            && s[|h|..|h| + |data|] == data && s[|h| + |data|..] == rest
  {
    var s := h + data + rest;
    Parts(h, data, rest);
    assert s[0] == s[..|h|][0] && s[1] == s[..|h|][1];
    assert s[2..|h|] == s[..|h|][2..];
  }

  lemma MediumReadBack(data: seq<byte>, rest: seq<byte>)
    requires 126 <= |data| < 65535
    ensures ReadUnmasked([0x82, 126] + BigEndian(|data|, 2) + data + rest) == Some((data, rest))
  {
    assert Power256(2) == 0x1_0000;
    BigEndianRoundTrip(|data|, 2);
    hide BigEndian, FromBigEndian, Power256;
    var field := BigEndian(|data|, 2);
    ReadBehind([0x82, 126] + field, data, rest);
    assert ([0x82, 126] + field)[2..] == field;
  }

  lemma LargeReadBack(data: seq<byte>, rest: seq<byte>)
    requires 65535 < |data| < 0x8000_0000
    ensures ReadUnmasked([0x82, 127] + BigEndian(|data|, 8) + data + rest) == Some((data, rest))
  {
    assert Power256(8) == 0x1_0000_0000_0000_0000;
    BigEndianRoundTrip(|data|, 8);
    hide BigEndian, FromBigEndian, Power256;
    var field := BigEndian(|data|, 8);
    ReadBehind([0x82, 127] + field, data, rest);
    assert ([0x82, 127] + field)[2..] == field;
  }

  /** Where the client takes ten bytes for the header of four, it cannot find both data and rest. */
  lemma CutHeaderMisread(h: seq<byte>, data: seq<byte>, rest: seq<byte>)
    requires |h| == 4 && h[0] == 0x82 && h[1] == 127
    ensures ReadUnmasked(h + data + rest) != Some((data, rest))
  {
    hide FromBigEndian;
    ReadBehind(h, data, rest);
  }

  /** In a stream of server frames a conforming client recovers what was framed, by the shortest
      length form, and finds the next frame, exactly when the data is not 65535 bytes long. */
  lemma ServerFrameReadBack(data: seq<byte>, rest: seq<byte>)
    requires |data| < 0x8000_0000
    ensures ReadUnmasked(ServerFrame(data) + rest) == Some((data, rest)) <==> |data| != 65535
  {
    hide BigEndian, FromBigEndian, ReadUnmasked;
    var n := |data|;
    var written := WrittenHeader(n);
    assert ServerFrame(data) == written[..ReservedHeader(n)] + data;
    if n == 65535 {
      CutHeaderMisread(written[..4], data, rest);
    } else {
      assert written[..ReservedHeader(n)] == written;
      if n < 126 {
        SmallReadBack(written, data, rest);
      } else if n < 65535 {
        MediumReadBack(data, rest);
      } else {
        LargeReadBack(data, rest);
      }
    }
  }

  lemma SmallReadBack(h: seq<byte>, data: seq<byte>, rest: seq<byte>)
    requires |data| < 126 && h == [0x82, |data|]
    ensures ReadUnmasked(h + data + rest) == Some((data, rest))
  {
    ReadBehind(h, data, rest);
  }
}
