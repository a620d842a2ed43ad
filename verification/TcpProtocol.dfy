/** The two-byte length prefix of netbus/tcp_protocol.cc. */
module TcpProtocol {
  import opened Bytes

  function ReadHeader(data: seq<byte>): (h: Option<Header>)
    ensures h.Some? ==> h.value.head == 2 <= |data| && 0 <= h.value.payload
  {
    if |data| < 2 then None else Some(Header(2, FromLe16(data[..2])))
  }

  /** What `Package` writes: the low sixteen bits of the length, then the data. */
  function Frame(data: seq<byte>): seq<byte> {
    Le16(|data|) + data
  }

  method Package(data: seq<byte>) returns (package: array<byte>)
    ensures fresh(package)
    ensures package[..] == Frame(data)
  {
    package := new byte[|data| + 2](i => 0);
    package[0] := |data| % 256;
    package[1] := |data| / 256 % 256;
    forall i | 0 <= i < |data| {
      package[2 + i] := data[i];
    }
    assert package[..2] == Le16(|data|);
    assert package[2..] == data;
    assert package[..] == package[..2] + package[2..];
  }

  /** The prefix a reader finds tells it where the data ends exactly when the data has at most
      65535 bytes: `Package` keeps only sixteen bits of a longer length. */
  lemma ReadBackLength(data: seq<byte>, rest: seq<byte>)
    ensures ReadHeader(Frame(data) + rest) == Some(Header(2, |data| % 0x1_0000))
    ensures ReadHeader(Frame(data) + rest) == Some(Header(2, |data|)) <==> |data| <= 65535
  {
    var s := Frame(data) + rest;
    assert s[..2] == Le16(|data|);
    Le16RoundTrip(|data|);
  }

  /** Reading the frame of at most 65535 bytes gives back the data and what follows it. */
  lemma ReadBackData(data: seq<byte>, rest: seq<byte>)
    requires |data| <= 65535
    ensures var s := Frame(data) + rest;
            && ReadHeader(s) == Some(Header(2, |data|))
            && s[2..2 + |data|] == data
            && s[2 + |data|..] == rest
  {
    ReadBackLength(data, rest);
    var s := Frame(data) + rest;
    assert |Le16(|data|)| == 2;
    assert s == Le16(|data|) + (data + rest);
    assert s[2..] == data + rest;
  }

  /** Every complete frame is the frame of its own payload: framing loses nothing. */
  lemma FrameOfPayload(s: seq<byte>)
    requires ReadHeader(s).Some?
    requires 2 + ReadHeader(s).value.payload <= |s|
    ensures var n := 2 + ReadHeader(s).value.payload; s[..n] == Frame(s[2..n])
  {
    var n := 2 + ReadHeader(s).value.payload;
    assert s[..n] == s[..2] + s[2..n];
    assert Le16(n - 2) == [s[0], s[1]] == s[..2];
  }
}
