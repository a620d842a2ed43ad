/** The gateway service as it runs: the module state of apps/lua/scripts/gateway/gateway_service.lua, the
    session fields, and the handlers that change them in place. */
module GatewayService {
  import opened Gateway

  class Service {
    /** The service types the gateway is registered under, ascending. */
    const services: seq<int>
    var sessions: map<Sid, Session>
    var servers: map<int, Sid>
    var ukeys: map<int, Sid>
    var uids: map<int, Sid>
    var nextKey: int
    var sent: seq<Msg>

    ghost function Now(): State
      reads this
    {
      State(sessions, servers, ukeys, uids, nextKey, sent)
    }

    /** Each server connection is a known session, filed under one service type. */
    ghost predicate ServersOk()
      reads this
    {
      && (forall k <- servers :: servers[k] in sessions)
      && (forall j <- servers, k <- servers :: servers[j] == servers[k] ==> j == k)
    }

    constructor (services: seq<int>)
      ensures Now() == INITIAL && this.services == services && ServersOk()
    {
      this.services := services;
      sessions, servers, ukeys, uids, nextKey, sent := map[], map[], map[], map[], 1, [];
    }

    method SendMsg(msg: Msg)
      modifies this`sent
      ensures sent == old(sent) + [msg]
    {
      sent := sent + [msg];
    }

    method SetUtag(s: Sid, utag: int)
      requires s in sessions
      modifies this`sessions
      ensures sessions == old(sessions)[s := old(sessions)[s].(utag := U32(utag))]
    {
      sessions := sessions[s := sessions[s].(utag := U32(utag))];
    }

    method SetUid(s: Sid, uid: int)
      requires s in sessions
      modifies this`sessions
      ensures sessions == old(sessions)[s := old(sessions)[s].(uid := U32(uid))]
    {
      sessions := sessions[s := sessions[s].(uid := U32(uid))];
    }

    method OnSessionDisconnect(s: Sid, stype: int)
      requires s in sessions && ServersOk()
      modifies this
      ensures Now() == SessionDisconnect(old(Now()), s, stype)
      ensures s in sessions && ServersOk()
    {
      if sessions[s].asClient {
        ghost var was := servers;
        ghost var kept := map k | k in was && was[k] != s :: was[k];
        if key :| key in servers && servers[key] == s {
          servers := servers - {key};
          assert forall k <- was :: k != key ==> was[k] != s;
          assert servers == kept;
        } else {
          assert forall k <- was :: was[k] != s;
          assert servers == kept;
        }
        return;
      }
      var utag := sessions[s].utag;
      if utag in ukeys && ukeys[utag] == s {
        ukeys := ukeys - {utag};
        SetUtag(s, 0);
      }
      var uid := sessions[s].uid;
      if uid in uids && uids[uid] == s {
        uids := uids - {uid};
      }
      if stype !in servers {
        assert sent == old(sent) + [];
        return;
      }
      if uid != 0 {
        SendMsg(Msg(servers[stype], stype, USER_LOST_CONN, uid, LostConn(s)));
      } else {
        assert sent == old(sent) + [];
      }
    }

    /** `ServiceManager::on_session_disconnect`. */
    method TellServices(s: Sid)
      requires s in sessions && ServersOk()
      modifies this
      ensures Now() == Broadcast(old(Now()), s, services)
      ensures ServersOk()
    {
      assert services[0..] == services;
      for i := 0 to |services|
        invariant s in sessions && ServersOk()
        invariant Broadcast(Now(), s, services[i..]) == Broadcast(old(Now()), s, services)
      {
        assert services[i..][0] == services[i] && services[i..][1..] == services[i + 1..];
        OnSessionDisconnect(s, services[i]);
      }
    }

    /** `UVSession::close`. The services run, and change the maps, before the session counts as shut. */
    method CloseSession(s: Sid)
      requires s in sessions && ServersOk()
      modifies this
      ensures Now() == Close(old(Now()), s, services)
      ensures ServersOk()
    {
      if sessions[s].shut {
        return;
      }
      TellServices(s);
      sessions := sessions[s := sessions[s].(shut := true)];
    }

    /** `send_to_client`. */
    method ToClient(stype: int, ctype: int, tag: int, body: LoginBody)
      requires KeysOk(Now()) && UidsOk(Now()) && ServersOk() && services != []
      modifies this
      ensures Now() == SendToClient(old(Now()), stype, ctype, tag, body, services)
      ensures ServersOk()
    {
      if IsLoginReturn(ctype) {
        if body.Undecodable? { // decoding fails before anything is changed
          return;
        }
        if tag !in ukeys {
          return;
        }
        PendingSession(Now(), tag);
        var s := ukeys[tag];
        ukeys := ukeys - {tag};
        if body.Unreadable? {
          return;
        }
        if body.Refused? {
          SendMsg(Msg(s, stype, ctype, 0, Reply(tag)));
          return;
        }
        var uid := body.uid;
        ghost var st1 := Now();
        OlderClosedKeeps(st1, s, uid, services);
        if uid in uids && uids[uid] != s {
          var older := uids[uid];
          SendMsg(Msg(older, AUTH, RELOGIN_RES, 0, Relogin));
          CloseSession(older);
        }
        assert Now() == OlderClosed(st1, s, uid, services);
        uids := uids[uid := s];
        SetUid(s, uid);
        SendMsg(Msg(s, AUTH, ctype, 0, Reply(tag)));
      } else if tag in uids {
        var s := uids[tag];
        SendMsg(Msg(s, stype, ctype, 0, Reply(tag)));
        if ctype == LOGOUT_RES {
          SetUid(s, 0);
          uids := uids - {tag};
        }
      }
    }

    /** `send_to_server`. */
    method ToServer(s: Sid, stype: int, ctype: int, table: bool)
      requires s in sessions && ServersOk()
      modifies this`sessions, this`ukeys, this`nextKey, this`sent
      ensures ServersOk()
      ensures Now() == SendToServer(old(Now()), s, stype, ctype, table)
    {
      if stype !in servers {
        return;
      }
      var server := servers[stype];
      var utag: int;
      if IsLoginRequest(ctype) {
        utag := sessions[s].utag;
        if utag == 0 {
          utag := nextKey;
          nextKey := nextKey + 1;
          SetUtag(s, utag);
        }
        ukeys := ukeys[utag := s];
      } else if ctype == LOGIC_LOGIN_REQ {
        var uid := sessions[s].uid;
        if uid == 0 {
          return;
        }
        if table {
          SendMsg(Msg(server, stype, ctype, U32(uid), Addressed(s)));
        }
        return;
      } else {
        var uid := sessions[s].uid;
        if uid == 0 {
          return;
        }
        utag := uid;
      }
      SendMsg(Msg(server, stype, ctype, U32(utag), Forwarded(s)));
    }

    /** One event; the invariants of `Gateway` are those of the running service. */
    method Handle(e: Event)
      requires KeysOk(Now()) && UidsOk(Now()) && ServersOk() && services != []
      requires Enabled(Now(), e) && UidFits(e) && Step(Now(), e, services).nextKey <= KEY_LIMIT
      modifies this
      ensures Now() == Step(old(Now()), e, services)
      ensures KeysOk(Now()) && UidsOk(Now()) && ServersOk()
      ensures UidsExact(old(Now())) ==> (UidsExact(Now()) <==> !Switches(old(Now()), e))
    {
      StepKeeps(Now(), e, services);
      hide KeysOk, UidsOk, UidsExact, SendToClient, SendToServer, Close, Switches;
      match e
      case Connect(s) =>
        sessions := sessions[s := Session(false, 0, 0, false)];
      case BackendUp(stype, s) =>
        sessions := sessions[s := Session(true, 0, 0, false)];
        servers := servers[stype := s];
      case FromClient(s, stype, ctype, table) =>
        ToServer(s, stype, ctype, table);
      case FromBackend(_, stype, ctype, tag, body) =>
        ToClient(stype, ctype, tag, body);
      case Disconnect(s) =>
        CloseSession(s);
    }

    /** A whole run. */
    method HandleAll(events: seq<Event>)
      requires KeysOk(Now()) && UidsOk(Now()) && ServersOk() && services != []
      requires EnabledRun(Now(), events, services)
      modifies this
      ensures Now() == Run(old(Now()), events, services)
      ensures KeysOk(Now()) && UidsOk(Now()) && ServersOk()
    {
      assert events[0..] == events;
      for i := 0 to |events|
        invariant KeysOk(Now()) && UidsOk(Now()) && ServersOk()
        invariant EnabledRun(Now(), events[i..], services)
        invariant Run(Now(), events[i..], services) == Run(old(Now()), events, services)
      {
        assert events[i..][0] == events[i] && events[i..][1..] == events[i + 1..];
        hide KeysOk, UidsOk, UidsExact, Step, Enabled, UidFits;
        Handle(events[i]);
      }
    }
  }
}
