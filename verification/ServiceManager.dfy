/** The service table of netbus/service_manager.cc: who is handed a command. */
module ServiceManager {
  import opened Bytes
  import opened UvSession
  import PM = ProtoManager

  const MAX_SERVICE := 512

  /** A service takes raw commands, which it may patch, or decoded messages. */
  datatype Service<!B> = OfRaw(onRaw: PM.RawCmd -> Verdict) | OfMessages(onMessage: PM.CmdMsg<B> -> bool)

  /** The registered services, by type. */
  type Table<!B> = map<int, Service<B>>

  function Registered<B>(table: Table<B>, stype: int, service: Service<B>): Table<B> {
    if 0 <= stype < MAX_SERVICE && stype !in table then table[stype := service] else table
  }

  function RegisteredAll<B>(table: Table<B>, services: seq<(int, Service<B>)>): Table<B>
    decreases |services|
  {
    if services == [] then table
    else RegisteredAll(Registered(table, services[0].0, services[0].1), services[1..])
  }

  /** What becomes of a command: no service, or a message that cannot be decoded, refuses it. */
  function Dispatched<B>(table: Table<B>, codec: PM.BodyCodec<B>, cmd: PM.RawCmd): Verdict {
    if cmd.stype !in table then Verdict(false, None)
    else
      match table[cmd.stype]
      case OfRaw(onRaw) => onRaw(cmd)
      case OfMessages(onMessage) =>
        match PM.DecodeCmd(codec, cmd.raw)
        case None => Verdict(false, None)
        case Some(msg) => Verdict(onMessage(msg), None)
  }

  /** The first service registered under a type keeps it. */
  lemma {:induction false} FirstStays<B>(table: Table<B>, services: seq<(int, Service<B>)>, stype: int)
    ensures var q := RegisteredAll(table, services);
            && (stype in table ==> stype in q && q[stype] == table[stype])
            && (stype !in table ==>
                  (stype in q <==> 0 <= stype < MAX_SERVICE && exists i :: 0 <= i < |services| && services[i].0 == stype))
    ensures var q := RegisteredAll(table, services);
            forall i | 0 <= i < |services| && services[i].0 == stype && stype !in table && stype in q
                       && (forall j :: 0 <= j < i ==> services[j].0 != stype) ::
              q[stype] == services[i].1
    decreases |services|
  {
    if services != [] {
      var (first, service) := services[0];
      var next, later := Registered(table, first, service), services[1..];
      FirstStays(next, later, stype);
      var q := RegisteredAll(next, later);
      assert forall i :: 0 <= i < |later| ==> services[i + 1] == later[i];
      if first == stype {
        assert services[0].0 == stype;
      } else {
        if i :| 0 <= i < |services| && services[i].0 == stype {
          assert later[i - 1].0 == stype;
        }
        forall i | 0 <= i < |services| && services[i].0 == stype && stype !in table && stype in q
                   && (forall j :: 0 <= j < i ==> services[j].0 != stype)
          ensures q[stype] == services[i].1
        {
          assert later[i - 1] == services[i];
          assert forall j :: 0 <= j < i - 1 ==> later[j] == services[j + 1];
        }
      }
    }
  }

  /** A message sent to a service that takes messages is the one that arrives there. */
  lemma MessageDispatched<B>(table: Table<B>, codec: PM.BodyCodec<B>, msg: PM.CmdMsg<B>)
    requires msg.body.Some? ==> PM.BodyLegible(codec, msg.ctype, msg.body.value)
    requires 0 <= msg.stype < 0x1_0000
    ensures PM.EncodeMsg(codec, msg).Some?
    ensures var s := PM.EncodeMsg(codec, msg).value;
            && PM.DecodeRaw(s).Some?
            && Dispatched(table, codec, PM.DecodeRaw(s).value)
               == if msg.stype !in table then Verdict(false, None)
                  else match table[msg.stype]
                       case OfRaw(onRaw) => onRaw(PM.DecodeRaw(s).value)
                       case OfMessages(onMessage) => Verdict(onMessage(PM.Arrives(codec, msg)), None)
  {
    PM.MessageRoundTrip(codec, msg);
    PM.RawOfMessage(codec, msg);
    hide PM.EncodeMsg, PM.DecodeCmd, PM.DecodeRaw, PM.Arrives;
  }

  /** A service that takes messages is never handed bytes without a whole header, or with a body that does not
      decode: they are refused. All others it is handed, and only its own answer counts. */
  lemma OnlyDecoded<B>(table: Table<B>, codec: PM.BodyCodec<B>, cmd: PM.RawCmd)
    requires cmd.stype in table && table[cmd.stype].OfMessages?
    ensures var s := cmd.raw;
            var decodes := |s| == PM.CMD_HEADER_SIZE
                           || (|s| > PM.CMD_HEADER_SIZE && codec.decode(FromLe16(s[2..4]), s[8..]).Some?);
            && PM.DecodeCmd(codec, s).Some? == decodes
            && Dispatched(table, codec, cmd)
               == Verdict(decodes && table[cmd.stype].onMessage(PM.DecodeCmd(codec, s).value), None)
  {
    PM.DecodeExact(codec, cmd.raw);
    hide PM.DecodeCmd;
  }

  class Registry<!B> {
    /** One slot for each type. */
    const slots: array<Option<Service<B>>>
    /** What lies in memory behind the slots, for types past the last one. */
    const behind: int -> Option<Service<B>>

    ghost predicate Valid() {
      slots.Length == MAX_SERVICE
    }

    ghost function Services(): Table<B>
      requires Valid()
      reads slots
    {
      map k: int | 0 <= k < MAX_SERVICE && slots[k].Some? :: slots[k].value
    }

    constructor (behind: int -> Option<Service<B>>)
      ensures Valid() && fresh(slots) && Services() == map[] && this.behind == behind
    {
      this.behind := behind;
      slots := new Option<Service<B>>[MAX_SERVICE](_ => None);
    }

    method RegisterService(stype: int, service: Service<B>) returns (ok: bool)
      requires Valid()
      modifies slots
      ensures Services() == Registered(old(Services()), stype, service)
      ensures ok <==> 0 <= stype < MAX_SERVICE && stype !in old(Services())
    {
      if stype < 0 || stype >= MAX_SERVICE {
        return false;
      }
      if slots[stype] != None {
        return false;
      }
      slots[stype] := Some(service);
      return true;
    }

    /** The type is not compared with the size of the table: one of 512 and more is looked up behind it. */
    method OnRecvRawCmd(codec: PM.BodyCodec<B>, cmd: PM.RawCmd) returns (verdict: Verdict, outside: bool)
      requires Valid() && 0 <= cmd.stype
      ensures outside <==> MAX_SERVICE <= cmd.stype
      ensures !outside ==> verdict == Dispatched(Services(), codec, cmd)
      ensures outside ==>
                verdict == match behind(cmd.stype)
                           case None => Verdict(false, None)
                           case Some(service) => Dispatched(map[cmd.stype := service], codec, cmd)
    {
      outside := cmd.stype >= MAX_SERVICE;
      var slot := if outside then behind(cmd.stype) else slots[cmd.stype];
      if slot == None {
        return Verdict(false, None), outside;
      }
      match slot.value
      case OfRaw(onRaw) =>
        verdict := onRaw(cmd);
      case OfMessages(onMessage) =>
        verdict := Verdict(false, None);
        var msg := PM.DecodeCmd(codec, cmd.raw);
        if msg.Some? {
          verdict := Verdict(onMessage(msg.value), None);
        }
    }
  }
}
