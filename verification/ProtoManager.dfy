/** The eight-byte command header of netbus/proto_manager.cc and the in-place header patch of
    lua_wrapper/proto_manager_export_to_lua.cc. */
module ProtoManager {
  import opened Bytes
  import opened Seqs

  const CMD_HEADER_SIZE := 8

  type u32 = x: int | 0 <= x < 0x1_0000_0000

  /** A decoded header together with the undecoded bytes, header included. */
  datatype RawCmd = RawCmd(stype: int, ctype: int, utag: u32, raw: seq<byte>)

  /** A message; `body` is absent when the C pointer is null. */
  datatype CmdMsg<+B> = CmdMsg(stype: int, ctype: int, utag: u32, body: Option<B>)

  /** How bodies are written and read in the chosen protocol mode. `decode` gets the command type,
      which selects the protobuf message class; either side may fail. */
  datatype BodyCodec<!B> = BodyCodec(encode: B -> Option<seq<byte>>, decode: (int, seq<byte>) -> Option<B>)

  /** The bytes of a C string: everything before the first NUL. */
  function CString(s: seq<byte>): (r: seq<byte>)
    ensures r == s <==> 0 !in s
  {
    if s == [] || s[0] == 0 then []
    else
      var r := [s[0]] + CString(s[1..]);
      assert s == [s[0]] + s[1..];
      assert r[1..] == CString(s[1..]);
      r
  }

  /** JSON mode: a body is a C string, copied up to its terminator. */
  const JSON_BODIES: BodyCodec<seq<byte>> :=
    BodyCodec(text => Some(CString(text)), (ctype, bytes) => Some(CString(bytes)))

  function DecodeRaw(s: seq<byte>): Option<RawCmd> {
    if |s| < CMD_HEADER_SIZE then None
    else Some(RawCmd(FromLe16(s[0..2]), FromLe16(s[2..4]), FromLe32(s[4..8]), s))
  }

  function DecodeCmd<B>(codec: BodyCodec<B>, s: seq<byte>): Option<CmdMsg<B>> {
    if |s| < CMD_HEADER_SIZE then None
    else
      var msg := CmdMsg(FromLe16(s[0..2]), FromLe16(s[2..4]), FromLe32(s[4..8]), None);
      if |s| == CMD_HEADER_SIZE then Some(msg)
      else
        match codec.decode(msg.ctype, s[8..])
        case None => None
        case Some(body) => Some(msg.(body := Some(body)))
  }

  function HeaderOf(stype: int, ctype: int, utag: int): (s: seq<byte>)
    ensures |s| == CMD_HEADER_SIZE
  {
    Le16(stype) + Le16(ctype) + Le32(utag)
  }

  function EncodeMsg<B>(codec: BodyCodec<B>, msg: CmdMsg<B>): Option<seq<byte>> {
    match msg.body
    case None => Some(HeaderOf(msg.stype, msg.ctype, msg.utag))
    case Some(body) =>
      match codec.encode(body)
      case None => None
      case Some(bytes) => Some(HeaderOf(msg.stype, msg.ctype, msg.utag) + bytes)
  }

  /** The buffer of `ProtoManager::encode_msg_to_raw`, or no buffer when the body cannot be written. */
  method EncodeMsgToRaw<B>(codec: BodyCodec<B>, msg: CmdMsg<B>) returns (out: array?<byte>)
    ensures out == null <==> EncodeMsg(codec, msg) == None
    ensures out != null ==> fresh(out) && EncodeMsg(codec, msg) == Some(out[..])
  {
    var body: seq<byte> := [];
    if msg.body.Some? {
      var bytes := codec.encode(msg.body.value);
      if bytes == None {
        return null;
      }
      body := bytes.value;
    }
    var len := CMD_HEADER_SIZE + |body|;
    var data := new byte[len](i => 0);
    data[0] := msg.stype % 256;
    data[1] := msg.stype / 256 % 256;
    data[2] := msg.ctype % 256;
    data[3] := msg.ctype / 256 % 256;
    forall i | 0 <= i < 4 {
      data[4 + i] := Le32(msg.utag)[i];
    }
    forall i | 0 <= i < |body| {
      data[CMD_HEADER_SIZE + i] := body[i];
    }
    HeaderBytes(data[..], msg.stype, msg.ctype, msg.utag, body);
    RightEmpty(HeaderOf(msg.stype, msg.ctype, msg.utag));
    out := data;
  }

  lemma HeaderBytes(s: seq<byte>, stype: int, ctype: int, utag: int, body: seq<byte>)
    requires |s| == CMD_HEADER_SIZE + |body|
    requires s[0] == Le16(stype)[0] && s[1] == Le16(stype)[1] && s[2] == Le16(ctype)[0] && s[3] == Le16(ctype)[1]
    requires forall i :: 0 <= i < 4 ==> s[4 + i] == Le32(utag)[i]
    requires forall i :: 0 <= i < |body| ==> s[CMD_HEADER_SIZE + i] == body[i]
    ensures s == HeaderOf(stype, ctype, utag) + body
  {
    assert s[..8] == HeaderOf(stype, ctype, utag);
    assert s[8..] == body;
    assert s == s[..8] + s[8..];
  }

  lemma HeaderSlices(stype: int, ctype: int, utag: int, rest: seq<byte>)
    ensures var s := HeaderOf(stype, ctype, utag) + rest;
            s[0..2] == Le16(stype) && s[2..4] == Le16(ctype) && s[4..8] == Le32(utag) && s[8..] == rest
  {
    var a, b, c := Le16(stype), Le16(ctype), Le32(utag);
    assert |a| == 2 && |b| == 2 && |c| == 4;
    hide Le16, Le32;
    var s := a + b + c + rest;
    Parts(a + b, c, rest);
    SliceOfSlice(s, 0, 4, 0, 2);
    SliceOfSlice(s, 0, 4, 2, 4);
  }

  lemma HeaderRoundTrip(stype: int, ctype: int, utag: int, rest: seq<byte>)
    ensures DecodeRaw(HeaderOf(stype, ctype, utag) + rest)
         == Some(RawCmd(stype % 0x1_0000, ctype % 0x1_0000, utag % 0x1_0000_0000,
                        HeaderOf(stype, ctype, utag) + rest))
  {
    Le16RoundTrip(stype);
    Le16RoundTrip(ctype);
    Le32RoundTrip(utag);
    HeaderSlices(stype, ctype, utag, rest);
    hide HeaderOf, Le16, Le32, FromLe16, FromLe32;
  }

  /** A body that `codec` writes, and reads back at the command type that will arrive wherever it finds
      any bytes. */
  predicate BodyLegible<B(==)>(codec: BodyCodec<B>, ctype: int, body: B) {
    match codec.encode(body)
    case None => false
    case Some(bytes) => bytes == [] || codec.decode(ctype % 0x1_0000, bytes) == Some(body)
  }

  /** A body that arrives as it was sent. */
  predicate BodySurvives<B(==)>(codec: BodyCodec<B>, ctype: int, body: B) {
    BodyLegible(codec, ctype, body) && codec.encode(body) != Some([])
  }

  /** What arrives: types cut to sixteen bits, and no body where the body was written as no bytes. */
  function Arrives<B>(codec: BodyCodec<B>, msg: CmdMsg<B>): CmdMsg<B> {
    CmdMsg(msg.stype % 0x1_0000, msg.ctype % 0x1_0000, msg.utag,
           if msg.body.Some? && codec.encode(msg.body.value) == Some([]) then None else msg.body)
  }

  /** Decoding undoes encoding up to `Arrives`, so exactly the messages with sixteen-bit types and
      a body that takes at least one byte come back unchanged. */
  lemma MessageRoundTrip<B>(codec: BodyCodec<B>, msg: CmdMsg<B>)
    requires msg.body.Some? ==> BodyLegible(codec, msg.ctype, msg.body.value)
    ensures EncodeMsg(codec, msg).Some?
    ensures DecodeCmd(codec, EncodeMsg(codec, msg).value) == Some(Arrives(codec, msg))
    ensures Arrives(codec, msg) == msg
        <==> && 0 <= msg.stype < 0x1_0000 && 0 <= msg.ctype < 0x1_0000
             && (msg.body.Some? ==> BodySurvives(codec, msg.ctype, msg.body.value))
  {
    DecodesAsArriving(codec, msg);
  }

  lemma DecodesAsArriving<B>(codec: BodyCodec<B>, msg: CmdMsg<B>)
    requires msg.body.Some? ==> BodyLegible(codec, msg.ctype, msg.body.value)
    ensures EncodeMsg(codec, msg).Some?
    ensures DecodeCmd(codec, EncodeMsg(codec, msg).value) == Some(Arrives(codec, msg))
  {
    var bytes := if msg.body.Some? then codec.encode(msg.body.value).value else [];
    var header := HeaderOf(msg.stype, msg.ctype, msg.utag);
    HeaderRoundTrip(msg.stype, msg.ctype, msg.utag, bytes);
    HeaderSlices(msg.stype, msg.ctype, msg.utag, bytes);
    RightEmpty(header);
    hide HeaderOf, FromLe16, FromLe32;
  }

  /** In JSON mode the bodies that survive are the texts that are not empty and hold no NUL byte; an
      empty C string arrives as no body, and any other text is cut at its first NUL. */
  lemma JsonBodySurvives(ctype: int, text: seq<byte>)
    ensures BodySurvives(JSON_BODIES, ctype, text) <==> text != [] && 0 !in text
    ensures BodyLegible(JSON_BODIES, ctype, text) <==> text == [] || text[0] == 0 || 0 !in text
  {
    var r := CString(text);
    if text != [] && text[0] != 0 {
      CStringIdempotent(text);
    }
  }

  lemma {:induction false} CStringIdempotent(s: seq<byte>)
    ensures 0 !in CString(s)
    ensures CString(CString(s)) == CString(s)
  {
    if s != [] && s[0] != 0 {
      CStringIdempotent(s[1..]);
    }
  }

  /** The raw command a message arrives as. */
  lemma RawOfMessage<B>(codec: BodyCodec<B>, msg: CmdMsg<B>)
    requires EncodeMsg(codec, msg).Some?
    ensures var s := EncodeMsg(codec, msg).value;
            DecodeRaw(s) == Some(RawCmd(msg.stype % 0x1_0000, msg.ctype % 0x1_0000, msg.utag, s))
  {
    var bytes := if msg.body.Some? then codec.encode(msg.body.value).value else [];
    HeaderRoundTrip(msg.stype, msg.ctype, msg.utag, bytes);
    RightEmpty(HeaderOf(msg.stype, msg.ctype, msg.utag));
    hide HeaderOf, DecodeRaw;
  }

  /** The other direction: exactly the bytes with a whole header, and a body that decodes when there is one,
      are decoded; and encoding what they were decoded to gives them back, where the codec writes the
      body as it was. */
  lemma DecodeExact<B>(codec: BodyCodec<B>, s: seq<byte>)
    ensures DecodeCmd(codec, s).Some?
       <==> |s| == CMD_HEADER_SIZE || (|s| > CMD_HEADER_SIZE && codec.decode(FromLe16(s[2..4]), s[8..]).Some?)
    ensures DecodeCmd(codec, s).Some? ==>
              var msg := DecodeCmd(codec, s).value;
              && (msg.body == if |s| == CMD_HEADER_SIZE then None else codec.decode(msg.ctype, s[8..]))
              && ((msg.body.Some? ==> codec.encode(msg.body.value) == Some(s[8..])) ==> EncodeMsg(codec, msg) == Some(s))
  {
    if DecodeCmd(codec, s).Some? {
      HeaderBack(s);
      var msg := DecodeCmd(codec, s).value;
      CutAt(s, 8);
      hide HeaderOf, FromLe16, FromLe32;
      RightEmpty(s[..8]);
    }
  }

  lemma HeaderBack(s: seq<byte>)
    requires CMD_HEADER_SIZE <= |s|
    ensures HeaderOf(FromLe16(s[0..2]), FromLe16(s[2..4]), FromLe32(s[4..8])) == s[..8]
  {
    Le16Back(s[0..2]);
    Le16Back(s[2..4]);
    Le32Back(s[4..8]);
    hide Le16, Le32, FromLe16, FromLe32;
    assert s[..8] == s[0..2] + s[2..4] + s[4..8];
  }

  lemma Le16Back(s: seq<byte>)
    requires |s| == 2
    ensures Le16(FromLe16(s)) == s
  {
  }

  // -------------------------------------------------------------------------------------------
  // RawCmd.read_header and RawCmd.set_utag
  // -------------------------------------------------------------------------------------------

  lemma FieldsOf(s: seq<byte>, header: seq<byte>)
    requires CMD_HEADER_SIZE == |header| <= |s| && header == s[..8]
    ensures DecodeRaw(s) == Some(RawCmd(FromLe16(header[0..2]), FromLe16(header[2..4]), FromLe32(header[4..8]), s))
  {
    hide FromLe16, FromLe32;
    SliceOfSlice(s, 0, 8, 0, 2);
    SliceOfSlice(s, 0, 8, 2, 4);
    SliceOfSlice(s, 0, 8, 4, 8);
  }

  /** The bytes of a command with its user tag replaced. */
  function PatchUtag(s: seq<byte>, utag: int): seq<byte>
    requires CMD_HEADER_SIZE <= |s|
  {
    s[..4] + Le32(utag) + s[8..]
  }

  /** `struct raw_cmd_msg`: decoded header fields, and a pointer into the buffer the command lies in. */
  class RawCmdMsg {
    var stype: int
    var ctype: int
    var utag: u32
    const data: array<byte>
    const start: nat
    const len: nat

    ghost predicate Valid()
      reads this, data
    {
      && CMD_HEADER_SIZE <= len && start + len <= data.Length
      && DecodeRaw(Raw()) == Some(RawCmd(stype, ctype, utag, Raw()))
    }

    ghost function Raw(): seq<byte>
      requires start + len <= data.Length
      reads data
    {
      data[start..start + len]
    }

    /** `ProtoManager::decode_raw_cmd` on a command that has its whole header. */
    constructor (data: array<byte>, start: nat, len: nat)
      requires CMD_HEADER_SIZE <= len && start + len <= data.Length
      ensures Valid() && this.data == data && this.start == start && this.len == len
    {
      this.data, this.start, this.len := data, start, len;
      var header := data[start..start + CMD_HEADER_SIZE];
      stype := FromLe16(header[0..2]);
      ctype := FromLe16(header[2..4]);
      utag := FromLe32(header[4..8]);
      new;
      FieldsOf(Raw(), header);
    }

    method ReadHeader() returns (stype: int, ctype: int, utag: u32)
      requires Valid()
      ensures DecodeRaw(Raw()) == Some(RawCmd(stype, ctype, utag, Raw()))
    {
      return this.stype, this.ctype, this.utag;
    }

    /** Patches the field and the four bytes behind it; every other byte of the buffer, in
        particular whatever is buffered after the command, keeps its value. */
    method SetUtag(utag: int)
      requires Valid()
      modifies this`utag, data
      ensures Valid()
      ensures this.utag == utag % 0x1_0000_0000
      ensures Raw() == PatchUtag(old(Raw()), utag)
      ensures data[..start] == old(data[..start])
      ensures data[start + len..] == old(data[start + len..])
    {
      this.utag := utag % 0x1_0000_0000;
      ghost var was := Raw();
      hide FromLe16, FromLe32;
      data[start + 4] := utag % 256;
      data[start + 5] := utag / 256 % 256;
      data[start + 6] := utag / 0x1_0000 % 256;
      data[start + 7] := utag / 0x100_0000 % 256;
      PatchedBytes(was, Raw(), utag);
      PatchedHeader(was, utag);
    }
  }

  lemma PatchedBytes(was: seq<byte>, now: seq<byte>, utag: int)
    requires CMD_HEADER_SIZE <= |was| == |now|
    requires now[4] == Le32(utag)[0] && now[5] == Le32(utag)[1] && now[6] == Le32(utag)[2] && now[7] == Le32(utag)[3]
    requires forall i :: 0 <= i < |was| && (i < 4 || 8 <= i) ==> now[i] == was[i]
    ensures now == PatchUtag(was, utag)
  {
    assert now[..4] == was[..4] && now[4..8] == Le32(utag) && now[8..] == was[8..];
    assert now == now[..4] + now[4..8] + now[8..];
  }

  /** A patched command reads back with the new tag and is otherwise what it was. */
  lemma PatchedHeader(s: seq<byte>, utag: int)
    requires CMD_HEADER_SIZE <= |s|
    ensures |PatchUtag(s, utag)| == |s|
    ensures DecodeRaw(PatchUtag(s, utag))
         == Some(DecodeRaw(s).value.(utag := utag % 0x1_0000_0000, raw := PatchUtag(s, utag)))
    ensures PatchUtag(s, utag)[8..] == s[8..]
  {
    var p := PatchUtag(s, utag);
    Le32RoundTrip(utag);
    hide Le32, FromLe16, FromLe32;
    assert |Le32(utag)| == 4;
    Parts(s[..4], Le32(utag), s[8..]);
    SliceOfSlice(p, 0, 4, 0, 2);
    SliceOfSlice(p, 0, 4, 2, 4);
    SliceOfSlice(s, 0, 4, 0, 2);
    SliceOfSlice(s, 0, 4, 2, 4);
  }

  /** Patching and decoding commute: the receiver sees the message with only its tag changed. */
  lemma PatchThenDecode<B>(codec: BodyCodec<B>, s: seq<byte>, utag: int)
    requires CMD_HEADER_SIZE <= |s|
    ensures DecodeCmd(codec, PatchUtag(s, utag)).Some? <==> DecodeCmd(codec, s).Some?
    ensures DecodeCmd(codec, s).Some? ==>
              DecodeCmd(codec, PatchUtag(s, utag)).value
                == DecodeCmd(codec, s).value.(utag := utag % 0x1_0000_0000)
  {
    PatchedHeader(s, utag);
  }

  /** Restoring the old tag restores the command. */
  lemma PatchUndone(s: seq<byte>, utag: int)
    requires CMD_HEADER_SIZE <= |s|
    ensures PatchUtag(PatchUtag(s, utag), DecodeRaw(s).value.utag) == s
  {
    Le32Back(s[4..8]);
    hide Le32, FromLe32, FromLe16;
    var patched := PatchUtag(s, utag);
    assert |Le32(utag)| == 4;
    Parts(s[..4], Le32(utag), s[8..]);
    CutAt(s, 8);
    CutAt(s[..8], 4);
    SliceOfSlice(s, 0, 8, 0, 4);
    SliceOfSlice(s, 0, 8, 4, 8);
  }

  lemma Le32Back(s: seq<byte>)
    requires |s| == 4
    ensures Le32(FromLe32(s)) == s
  {
    var t := FromLe32(s);
    assert t / 256 == s[1] as int + s[2] as int * 256 + s[3] as int * 0x1_0000;
    assert t / 0x1_0000 == s[2] as int + s[3] as int * 256;
    assert t / 0x100_0000 == s[3] as int;
  }
}
