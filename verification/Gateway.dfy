/** The routing of apps/lua/scripts/gateway/gateway_service.lua together with the session close of
    netbus/session_uv.cc and the service broadcast of netbus/service_manager.cc, as a state machine.
    Sessions are unique ids. */
module Gateway {
  import opened Seqs

  type Sid = nat

  const AUTH := 1

  const GUEST_LOGIN_REQ := 1
  const GUEST_LOGIN_RES := 2
  const RELOGIN_RES := 3
  const USER_LOST_CONN := 4
  const USER_LOGIN_REQ := 9
  const USER_LOGIN_RES := 10
  const LOGOUT_RES := 12
  const LOGIC_LOGIN_REQ := 21

  predicate IsLoginReturn(ctype: int) {
    ctype == GUEST_LOGIN_RES || ctype == USER_LOGIN_RES
  }

  predicate IsLoginRequest(ctype: int) {
    ctype == GUEST_LOGIN_REQ || ctype == USER_LOGIN_REQ
  }

  /** What the fields `utag` and `uid` keep of a Lua number. */
  function U32(n: int): int {
    n % 0x1_0000_0000
  }

  /** `asClient` marks the gateway's own connections to the servers behind it. */
  datatype Session = Session(asClient: bool, utag: int, uid: int, shut: bool)

  /** Why the gateway sent a message. `Addressed` is a command whose body got the client's address. */
  datatype Cause = Forwarded(from: Sid) | Addressed(from: Sid) | Reply(tag: int) | LostConn(of: Sid) | Relogin

  datatype Msg = Msg(to: Sid, stype: int, ctype: int, utag: int, cause: Cause)

  /** The body of a login reply: accepted for a user, refused, without the fields that are read, or a
      JSON text that is none. */
  datatype LoginBody = Accepted(uid: int) | Refused | Unreadable | Undecodable

  /** `servers` is map_server_session, `ukeys` and `uids` are client_sessions_ukey and
      client_sessions_uid, `nextKey` is g_ukey; `sent` lists every message sent so far. */
  datatype State = State(
    sessions: map<Sid, Session>,
    servers: map<int, Sid>,
    ukeys: map<int, Sid>,
    uids: map<int, Sid>,
    nextKey: int,
    sent: seq<Msg>)

  const INITIAL := State(map[], map[], map[], map[], 1, [])

  function Send(st: State, msg: Msg): State {
    st.(sent := st.sent + [msg])
  }

  predicate Names(m: map<int, Sid>, key: int, s: Sid) {
    key in m && m[key] == s
  }

  // -------------------------------------------------------------------------------------------
  // The handlers
  // -------------------------------------------------------------------------------------------

  /** The maps and the temporary key with the client session `s` taken out. */
  function Dropped(st: State, s: Sid): State
    requires s in st.sessions
  {
    var x := st.sessions[s];
    var st1 := if Names(st.ukeys, x.utag, s)
               then st.(ukeys := st.ukeys - {x.utag}, sessions := st.sessions[s := x.(utag := 0)])
               else st;
    if Names(st1.uids, x.uid, s) then st1.(uids := st1.uids - {x.uid}) else st1
  }

  /** The lost-connection command for one service: none without a server or a user. */
  function LostConnTo(servers: map<int, Sid>, stype: int, uid: int, s: Sid): seq<Msg> {
    if stype in servers && uid != 0 then [Msg(servers[stype], stype, USER_LOST_CONN, uid, LostConn(s))] else []
  }

  /** `session_disconnect` for the service registered under `stype`. */
  function SessionDisconnect(st: State, s: Sid, stype: int): State
    requires s in st.sessions
  {
    var x := st.sessions[s];
    if x.asClient then st.(servers := map k | k in st.servers && st.servers[k] != s :: st.servers[k])
    else Dropped(st, s).(sent := st.sent + LostConnTo(st.servers, stype, x.uid, s))
  }

  /** `ServiceManager::on_session_disconnect`: every registered service is told. */
  function Broadcast(st: State, s: Sid, services: seq<int>): (r: State)
    requires s in st.sessions
    ensures s in r.sessions
    decreases |services|
  {
    if services == [] then st else Broadcast(SessionDisconnect(st, s, services[0]), s, services[1..])
  }

  /** `UVSession::close`. */
  function Close(st: State, s: Sid, services: seq<int>): State
    requires s in st.sessions
  {
    if st.sessions[s].shut then st
    else
      var told := Broadcast(st, s, services);
      told.(sessions := told.sessions[s := told.sessions[s].(shut := true)])
  }

  /** The state behind the relogin check: an older session of the user is told, and closed. */
  function OlderClosed(st: State, s: Sid, uid: int, services: seq<int>): State {
    if uid in st.uids && st.uids[uid] != s && st.uids[uid] in st.sessions
    then Close(Send(st, Msg(st.uids[uid], AUTH, RELOGIN_RES, 0, Relogin)), st.uids[uid], services)
    else st
  }

  /** `s` becomes the session of the user, and gets the login reply. */
  function LoggedIn(st: State, s: Sid, ctype: int, tag: int, uid: int): State {
    if s !in st.sessions then st
    else
      Send(st.(uids := st.uids[uid := s], sessions := st.sessions[s := st.sessions[s].(uid := U32(uid))]),
           Msg(s, AUTH, ctype, 0, Reply(tag)))
  }

  /** An accepted login of the session `s`. */
  function CompleteLogin(st: State, s: Sid, ctype: int, tag: int, uid: int, services: seq<int>): State {
    LoggedIn(OlderClosed(st, s, uid, services), s, ctype, tag, uid)
  }

  /** `send_to_client`. */
  function SendToClient(st: State, stype: int, ctype: int, tag: int, body: LoginBody, services: seq<int>): State {
    if IsLoginReturn(ctype) then
      if body.Undecodable? || tag !in st.ukeys then st
      else
        var s := st.ukeys[tag];
        var st1 := st.(ukeys := st.ukeys - {tag});
        match body
        case Unreadable => st1
        case Refused => Send(st1, Msg(s, stype, ctype, 0, Reply(tag)))
        case Accepted(uid) => CompleteLogin(st1, s, ctype, tag, uid, services)
    else if tag !in st.uids then st
    else
      var s := st.uids[tag];
      var st1 := Send(st, Msg(s, stype, ctype, 0, Reply(tag)));
      if ctype == LOGOUT_RES && s in st.sessions
      then st1.(sessions := st.sessions[s := st.sessions[s].(uid := 0)], uids := st.uids - {tag})
      else st1
  }

  /** The temporary key a login request of `s` travels under: its own, or the next unused one. */
  function KeyFor(st: State, s: Sid): int
    requires s in st.sessions
  {
    if st.sessions[s].utag == 0 then st.nextKey else st.sessions[s].utag
  }

  /** The state with a login request of `s` pending under its key. */
  function Filed(st: State, s: Sid): State
    requires s in st.sessions
  {
    var key := KeyFor(st, s);
    if st.sessions[s].utag == 0
    then st.(nextKey := st.nextKey + 1, sessions := st.sessions[s := st.sessions[s].(utag := U32(key))],
             ukeys := st.ukeys[key := s])
    else st.(ukeys := st.ukeys[key := s])
  }

  /** `send_to_server`. A login to the logic server gets the client's address into its body, and fails
      when that is no table. */
  function SendToServer(st: State, s: Sid, stype: int, ctype: int, table: bool): State
    requires s in st.sessions
  {
    if stype !in st.servers then st
    else if IsLoginRequest(ctype) then
      Send(Filed(st, s), Msg(st.servers[stype], stype, ctype, U32(KeyFor(st, s)), Forwarded(s)))
    else if st.sessions[s].uid == 0 then st
    else if ctype == LOGIC_LOGIN_REQ then
      if table then Send(st, Msg(st.servers[stype], stype, ctype, U32(st.sessions[s].uid), Addressed(s))) else st
    else Send(st, Msg(st.servers[stype], stype, ctype, U32(st.sessions[s].uid), Forwarded(s)))
  }

  // -------------------------------------------------------------------------------------------
  // Closing a client session
  // -------------------------------------------------------------------------------------------

  /** One lost-connection command for each service whose server is connected, none without a user. */
  function LostConns(servers: map<int, Sid>, services: seq<int>, uid: int, s: Sid): seq<Msg> {
    if services == [] then []
    else LostConnTo(servers, services[0], uid, s) + LostConns(servers, services[1..], uid, s)
  }

  /** Once a session is out of the maps, telling more services only sends their commands. */
  lemma {:induction false} BroadcastOfDropped(st: State, s: Sid, sent: seq<Msg>, services: seq<int>)
    requires s in st.sessions && !st.sessions[s].asClient
    requires Dropped(st, s) == st
    ensures Broadcast(st.(sent := sent), s, services)
         == st.(sent := sent + LostConns(st.servers, services, st.sessions[s].uid, s))
    decreases |services|
  {
    var uid := st.sessions[s].uid;
    if services == [] {
      Assoc(sent, [], []);
    } else {
      var one, later := LostConnTo(st.servers, services[0], uid, s), LostConns(st.servers, services[1..], uid, s);
      assert SessionDisconnect(st.(sent := sent), s, services[0]) == st.(sent := sent + one) by {
        DroppedIgnoresSent(st, s, sent);
      }
      BroadcastOfDropped(st, s, sent + one, services[1..]);
      Assoc(sent, one, later);
    }
  }

  lemma DroppedIgnoresSent(st: State, s: Sid, sent: seq<Msg>)
    requires s in st.sessions
    ensures Dropped(st.(sent := sent), s) == Dropped(st, s).(sent := sent)
  {
  }

  lemma DroppedOnce(st: State, s: Sid)
    requires s in st.sessions && 0 !in st.ukeys
    ensures Dropped(Dropped(st, s), s) == Dropped(st, s)
    ensures s in Dropped(st, s).sessions
    ensures Dropped(st, s).servers == st.servers && Dropped(st, s).sessions[s].uid == st.sessions[s].uid
    ensures Dropped(st, s).sessions[s].asClient == st.sessions[s].asClient
  {
  }

  /** The broadcast tells every service in turn, but only the first call finds the session in the
      maps: the rest find it gone and only send their lost-connection command. */
  lemma BroadcastClient(st: State, s: Sid, services: seq<int>)
    requires s in st.sessions && !st.sessions[s].asClient && services != [] && 0 !in st.ukeys
    ensures Broadcast(st, s, services)
         == Dropped(st, s).(sent := st.sent + LostConns(st.servers, services, st.sessions[s].uid, s))
  {
    DroppedOnce(st, s);
    var uid := st.sessions[s].uid;
    var one, later := LostConnTo(st.servers, services[0], uid, s), LostConns(st.servers, services[1..], uid, s);
    hide Dropped;
    BroadcastOfDropped(Dropped(st, s), s, st.sent + one, services[1..]);
    Assoc(st.sent, one, later);
  }

  // -------------------------------------------------------------------------------------------
  // Runs
  // -------------------------------------------------------------------------------------------

  datatype Event =
    | Connect(s: Sid)
    | BackendUp(stype: int, s: Sid)
    | FromClient(s: Sid, stype: int, ctype: int, table: bool)
    | FromBackend(s: Sid, stype: int, ctype: int, tag: int, body: LoginBody)
    | Disconnect(s: Sid)

  /** Ids are not reused, and nothing is received from a session after its close. */
  predicate Enabled(st: State, e: Event) {
    match e
    case Connect(s) => s !in st.sessions
    case BackendUp(stype, s) => s !in st.sessions
    case FromClient(s, _, _, _) => s in st.sessions && !st.sessions[s].asClient && !st.sessions[s].shut
    case FromBackend(s, _, _, _, _) => s in st.sessions && st.sessions[s].asClient && !st.sessions[s].shut
    case Disconnect(s) => s in st.sessions
  }

  /** User ids fit the field they are kept in. */
  predicate UidFits(e: Event) {
    e.FromBackend? && e.body.Accepted? ==> 0 <= e.body.uid < 0x1_0000_0000
  }

  function Step(st: State, e: Event, services: seq<int>): State
    requires Enabled(st, e)
  {
    match e
    case Connect(s) => st.(sessions := st.sessions[s := Session(false, 0, 0, false)])
    case BackendUp(stype, s) =>
      st.(sessions := st.sessions[s := Session(true, 0, 0, false)], servers := st.servers[stype := s])
    case FromClient(s, stype, ctype, table) => SendToServer(st, s, stype, ctype, table)
    case FromBackend(_, stype, ctype, tag, body) => SendToClient(st, stype, ctype, tag, body, services)
    case Disconnect(s) => Close(st, s, services)
  }

  /** The last key a session's 32-bit field can keep has not been passed. */
  const KEY_LIMIT := 0x1_0000_0000

  predicate EnabledRun(st: State, events: seq<Event>, services: seq<int>)
    decreases |events|
  {
    events == []
    || (&& Enabled(st, events[0]) && UidFits(events[0])
        && Step(st, events[0], services).nextKey <= KEY_LIMIT
        && EnabledRun(Step(st, events[0], services), events[1..], services))
  }

  function Run(st: State, events: seq<Event>, services: seq<int>): State
    requires EnabledRun(st, events, services)
    decreases |events|
  {
    if events == [] then st else Run(Step(st, events[0], services), events[1..], services)
  }

  // -------------------------------------------------------------------------------------------
  // What every reachable state satisfies
  // -------------------------------------------------------------------------------------------

  /** Temporary keys: no two sessions share one, and a pending key names the open client session
      that has it. */
  predicate KeysOk(st: State) {
    && 1 <= st.nextKey
    && (forall s <- st.sessions :: 0 <= st.sessions[s].utag < st.nextKey)
    && (forall s <- st.sessions :: st.sessions[s].asClient ==> st.sessions[s].utag == st.sessions[s].uid == 0)
    && (forall s <- st.sessions, t <- st.sessions ::
          st.sessions[s].utag == st.sessions[t].utag != 0 ==> s == t)
    && (forall k <- st.ukeys :: k != 0 && PendingOk(st, k, st.ukeys[k]))
  }

  predicate PendingOk(st: State, k: int, s: Sid) {
    s in st.sessions && !st.sessions[s].asClient && !st.sessions[s].shut && st.sessions[s].utag == k
  }

  /** Users: an open client session with a user is the one its user id leads to. */
  predicate UidsOk(st: State) {
    && (forall u <- st.uids :: st.uids[u] in st.sessions && !st.sessions[st.uids[u]].asClient)
    && (forall s <- st.sessions :: OpenUser(st, s) ==> Names(st.uids, st.sessions[s].uid, s))
  }

  predicate OpenUser(st: State, s: Sid)
    requires s in st.sessions
  {
    !st.sessions[s].asClient && !st.sessions[s].shut && st.sessions[s].uid != 0
  }

  /** Nothing else is held: every entry is the id of an open session's user. */
  predicate UidsExact(st: State) {
    && UidsOk(st)
    && (forall u <- st.uids :: !st.sessions[st.uids[u]].shut && st.sessions[st.uids[u]].uid == u)
  }

  /** A login is completed for one user by a session still logged in as another. */
  predicate Switches(st: State, e: Event) {
    && e.FromBackend? && IsLoginReturn(e.ctype) && e.body.Accepted?
    && e.tag in st.ukeys && st.ukeys[e.tag] in st.sessions
    && var s := st.ukeys[e.tag];
       Names(st.uids, st.sessions[s].uid, s) && st.sessions[s].uid != e.body.uid
  }

  lemma {:induction false} BroadcastServer(st: State, s: Sid, services: seq<int>)
    requires s in st.sessions && st.sessions[s].asClient && services != []
    ensures Broadcast(st, s, services)
         == st.(servers := map k | k in st.servers && st.servers[k] != s :: st.servers[k])
    decreases |services|
  {
    var next := SessionDisconnect(st, s, services[0]);
    assert next == st.(servers := next.servers);
    if |services| > 1 {
      BroadcastServer(next, s, services[1..]);
    } else {
      assert services[1..] == [];
    }
  }

  /** What closing changes: the session is shut and gone from the maps, and the servers are told. */
  function Closed(st: State, s: Sid, services: seq<int>): State
    requires s in st.sessions
  {
    var x := st.sessions[s];
    if x.shut then st
    else if x.asClient then
      st.(servers := map k | k in st.servers && st.servers[k] != s :: st.servers[k],
          sessions := st.sessions[s := x.(shut := true)])
    else
      var d := Dropped(st, s);
      if s !in d.sessions then d
      else d.(sessions := d.sessions[s := d.sessions[s].(shut := true)],
              sent := st.sent + LostConns(st.servers, services, x.uid, s))
  }

  lemma CloseIsClosed(st: State, s: Sid, services: seq<int>)
    requires s in st.sessions && services != [] && 0 !in st.ukeys
    ensures Close(st, s, services) == Closed(st, s, services)
    ensures s in Dropped(st, s).sessions
  {
    DroppedOnce(st, s);
    hide Dropped, Broadcast;
    if st.sessions[s].asClient {
      BroadcastServer(st, s, services);
    } else {
      BroadcastClient(st, s, services);
    }
  }

  lemma NoZeroKey(st: State)
    requires KeysOk(st)
    ensures 0 !in st.ukeys
  {
  }

  /** Closing a session leaves every other session as it was and only shrinks the maps. */
  lemma CloseFrame(st: State, s: Sid, services: seq<int>)
    requires s in st.sessions && services != [] && 0 !in st.ukeys
    ensures var q := Close(st, s, services);
            && q.sessions.Keys == st.sessions.Keys && q.nextKey == st.nextKey
            && (forall t <- st.sessions :: t != s ==> q.sessions[t] == st.sessions[t])
            && q.sessions[s].shut && q.sessions[s].uid == st.sessions[s].uid
            && q.sessions[s].asClient == st.sessions[s].asClient
            && (q.sessions[s].utag == st.sessions[s].utag || q.sessions[s].utag == 0)
            && (forall k <- q.ukeys :: Names(st.ukeys, k, q.ukeys[k]))
            && (forall u <- q.uids :: Names(st.uids, u, q.uids[u]))
            && (forall u <- st.uids :: st.uids[u] != s ==> Names(q.uids, u, st.uids[u]))
  {
    CloseIsClosed(st, s, services);
    hide Close, LostConns;
  }

  lemma CloseKeepsKeys(st: State, s: Sid, services: seq<int>)
    requires s in st.sessions && services != [] && KeysOk(st)
    ensures KeysOk(Close(st, s, services))
  {
    NoZeroKey(st);
    CloseForgetsKeys(st, s, services);
    CloseFrame(st, s, services);
    var q := Close(st, s, services);
    hide Close;
    forall k | k in q.ukeys ensures PendingOk(q, k, q.ukeys[k]) {
      assert Names(st.ukeys, k, q.ukeys[k]);
      assert PendingOk(st, k, st.ukeys[k]);
    }
  }

  /** No pending key names a closed session. */
  lemma CloseForgetsKeys(st: State, s: Sid, services: seq<int>)
    requires s in st.sessions && services != [] && KeysOk(st)
    ensures var q := Close(st, s, services); forall k <- q.ukeys :: q.ukeys[k] != s
  {
    NoZeroKey(st);
    CloseIsClosed(st, s, services);
    var q := Closed(st, s, services);
    forall k | k in q.ukeys ensures q.ukeys[k] != s {
      assert k in st.ukeys && PendingOk(st, k, st.ukeys[k]);
    }
  }

  lemma CloseKeepsUids(st: State, s: Sid, services: seq<int>)
    requires s in st.sessions && services != [] && 0 !in st.ukeys && UidsOk(st)
    ensures UidsOk(Close(st, s, services))
    ensures UidsExact(st) ==> UidsExact(Close(st, s, services))
  {
    CloseFrame(st, s, services);
    var q := Close(st, s, services);
    if UidsExact(st) && !st.sessions[s].asClient && !st.sessions[s].shut {
      CloseIsClosed(st, s, services);
      forall u | u in q.uids ensures q.uids[u] != s {
        assert Names(st.uids, u, q.uids[u]);
      }
    }
    hide Close;
    forall t | t in q.sessions && OpenUser(q, t) ensures Names(q.uids, q.sessions[t].uid, t) {
      assert OpenUser(st, t);
    }
    forall u | u in q.uids ensures q.uids[u] in q.sessions && !q.sessions[q.uids[u]].asClient {
      assert Names(st.uids, u, q.uids[u]);
    }
    if UidsExact(st) {
      forall u | u in q.uids ensures !q.sessions[q.uids[u]].shut && q.sessions[q.uids[u]].uid == u {
        assert Names(st.uids, u, q.uids[u]);
      }
    }
  }

  /** The open client session whose login is completed, when `tag` is pending. */
  lemma PendingSession(st: State, tag: int)
    requires KeysOk(st) && tag in st.ukeys
    ensures PendingOk(st, tag, st.ukeys[tag])
    ensures KeysOk(st.(ukeys := st.ukeys - {tag}))
  {
  }

  lemma SendKeeps(st: State, msg: Msg)
    ensures KeysOk(st) ==> KeysOk(Send(st, msg))
    ensures Send(st, msg).nextKey == st.nextKey
    ensures UidsOk(st) ==> UidsOk(Send(st, msg))
    ensures UidsExact(st) ==> UidsExact(Send(st, msg))
  {
  }

  /** Behind the relogin check no other open session is left with the user id. */
  lemma OlderClosedKeeps(st: State, s: Sid, uid: int, services: seq<int>)
    requires KeysOk(st) && UidsOk(st) && services != []
    requires s in st.sessions && !st.sessions[s].asClient && !st.sessions[s].shut
    ensures var q := OlderClosed(st, s, uid, services);
            && KeysOk(q) && UidsOk(q) && (UidsExact(st) ==> UidsExact(q))
            && q.sessions.Keys == st.sessions.Keys && q.sessions[s] == st.sessions[s] && q.nextKey == st.nextKey
            && (forall t <- q.sessions :: OpenUser(q, t) && q.sessions[t].uid == uid ==> t == s)
            && (forall u <- st.uids :: st.uids[u] == s ==> Names(q.uids, u, s))
            && (forall u <- q.uids :: Names(st.uids, u, q.uids[u]))
            && (forall t <- st.sessions :: q.sessions[t].utag == st.sessions[t].utag || q.sessions[t].utag == 0)
  {
    if uid in st.uids && st.uids[uid] != s {
      var older := st.uids[uid];
      var st1 := Send(st, Msg(older, AUTH, RELOGIN_RES, 0, Relogin));
      SendKeeps(st, Msg(older, AUTH, RELOGIN_RES, 0, Relogin));
      NoZeroKey(st1);
      CloseFrame(st1, older, services);
      CloseKeepsKeys(st1, older, services);
      CloseKeepsUids(st1, older, services);
      hide Close, KeysOk, UidsExact;
      var q := Close(st1, older, services);
      forall t | t in q.sessions ensures OpenUser(q, t) ==> q.sessions[t].uid != uid {
        assert OpenUser(q, t) ==> OpenUser(st, t) && t != older;
      }
    }
  }

  lemma CompleteLoginKeeps(st: State, s: Sid, ctype: int, tag: int, uid: int, services: seq<int>)
    requires KeysOk(st) && UidsOk(st) && services != [] && 0 <= uid < 0x1_0000_0000
    requires s in st.sessions && !st.sessions[s].asClient && !st.sessions[s].shut
    ensures var q := CompleteLogin(st, s, ctype, tag, uid, services);
            && KeysOk(q) && UidsOk(q) && q.nextKey == st.nextKey
            && (UidsExact(st) ==>
                  (UidsExact(q) <==> !(Names(st.uids, st.sessions[s].uid, s) && st.sessions[s].uid != uid)))
  {
    OlderClosedKeeps(st, s, uid, services);
    var r := OlderClosed(st, s, uid, services);
    var q := CompleteLogin(st, s, ctype, tag, uid, services);
    var x := r.sessions[s];
    assert q.sessions == r.sessions[s := x.(uid := uid)] && q.uids == r.uids[uid := s];
    assert q.ukeys == r.ukeys && q.nextKey == r.nextKey;
    LoginUids(st, r, q, s, uid);
    hide CompleteLogin, OlderClosed, Names, UidsOk, UidsExact, OpenUser, Close;
    UidIgnored(r, q, s, uid);
  }

  lemma UidIgnored(r: State, q: State, s: Sid, uid: int)
    requires KeysOk(r) && s in r.sessions && !r.sessions[s].asClient
    requires q.sessions == r.sessions[s := r.sessions[s].(uid := uid)]
    requires q.ukeys == r.ukeys && q.nextKey == r.nextKey
    ensures KeysOk(q)
  {
    forall k | k in q.ukeys ensures PendingOk(q, k, q.ukeys[k]) {
      assert PendingOk(r, k, r.ukeys[k]);
    }
  }

  lemma LoginUids(st: State, r: State, q: State, s: Sid, uid: int)
    requires s in st.sessions && UidsOk(st) && UidsOk(r) && (UidsExact(st) ==> UidsExact(r))
    requires s in r.sessions && r.sessions[s] == st.sessions[s] && !r.sessions[s].asClient && !r.sessions[s].shut
    requires forall t <- r.sessions :: OpenUser(r, t) && r.sessions[t].uid == uid ==> t == s
    requires forall u <- st.uids :: st.uids[u] == s ==> Names(r.uids, u, s)
    requires forall u <- r.uids :: Names(st.uids, u, r.uids[u])
    requires q.sessions == r.sessions[s := r.sessions[s].(uid := uid)] && q.uids == r.uids[uid := s]
    ensures UidsOk(q)
    ensures UidsExact(st) ==>
              (UidsExact(q) <==> !(Names(st.uids, st.sessions[s].uid, s) && st.sessions[s].uid != uid))
  {
    forall t | t in q.sessions && OpenUser(q, t) ensures Names(q.uids, q.sessions[t].uid, t) {
      if t != s {
        assert OpenUser(r, t);
      }
    }
    if UidsExact(st) {
      var v := st.sessions[s].uid;
      if Names(st.uids, v, s) && v != uid {
        assert v in q.uids && q.uids[v] == s && q.sessions[s].uid == uid;
      } else {
        forall u | u in q.uids ensures !q.sessions[q.uids[u]].shut && q.sessions[q.uids[u]].uid == u {
          if u != uid {
            assert Names(st.uids, u, r.uids[u]);
          }
        }
      }
    }
  }

  lemma FitsU32(n: int)
    ensures 0 <= n < KEY_LIMIT ==> U32(n) == n
  {
  }

  lemma FiledAgain(st: State, s: Sid)
    requires KeysOk(st) && s in st.sessions && !st.sessions[s].asClient && !st.sessions[s].shut
    requires st.sessions[s].utag != 0
    ensures KeysOk(st.(ukeys := st.ukeys[st.sessions[s].utag := s]))
  {
    var q := st.(ukeys := st.ukeys[st.sessions[s].utag := s]);
    forall k | k in q.ukeys ensures k != 0 && PendingOk(q, k, q.ukeys[k]) {
      assert k in st.ukeys ==> PendingOk(st, k, st.ukeys[k]);
    }
  }

  lemma FiledNew(st: State, s: Sid)
    requires KeysOk(st) && s in st.sessions && !st.sessions[s].asClient && !st.sessions[s].shut
    requires st.sessions[s].utag == 0
    ensures KeysOk(st.(nextKey := st.nextKey + 1, sessions := st.sessions[s := st.sessions[s].(utag := st.nextKey)],
                       ukeys := st.ukeys[st.nextKey := s]))
  {
    var key := st.nextKey;
    var q := st.(nextKey := key + 1, sessions := st.sessions[s := st.sessions[s].(utag := key)],
                 ukeys := st.ukeys[key := s]);
    forall k | k in q.ukeys ensures k != 0 && PendingOk(q, k, q.ukeys[k]) {
      assert k in st.ukeys ==> PendingOk(st, k, st.ukeys[k]);
    }
    forall t, u | t in q.sessions && u in q.sessions && q.sessions[t].utag == q.sessions[u].utag != 0 ensures t == u {
      assert st.sessions[t].utag < key && st.sessions[u].utag < key;
    }
  }

  lemma FiledKeeps(st: State, s: Sid)
    requires KeysOk(st) && s in st.sessions && !st.sessions[s].asClient && !st.sessions[s].shut
    requires Filed(st, s).nextKey <= KEY_LIMIT
    ensures KeysOk(Filed(st, s)) && Filed(st, s).sessions[s].utag == KeyFor(st, s) == U32(KeyFor(st, s)) != 0
    ensures st.nextKey <= Filed(st, s).nextKey && KeyFor(st, s) < Filed(st, s).nextKey
  {
    FitsU32(KeyFor(st, s));
    assert 1 <= st.nextKey && 0 <= st.sessions[s].utag < st.nextKey;
    if st.sessions[s].utag == 0 {
      FiledNew(st, s);
    } else {
      FiledAgain(st, s);
    }
    hide U32, KeysOk;
  }

  lemma FiledKeepsUids(st: State, s: Sid)
    requires UidsOk(st) && s in st.sessions
    ensures UidsOk(Filed(st, s)) && (UidsExact(st) ==> UidsExact(Filed(st, s)))
  {
    var q := Filed(st, s);
    assert forall t <- st.sessions :: OpenUser(q, t) == OpenUser(st, t) && q.sessions[t].uid == st.sessions[t].uid;
  }

  lemma SendToServerKeeps(st: State, s: Sid, stype: int, ctype: int, table: bool)
    requires KeysOk(st) && UidsOk(st)
    requires s in st.sessions && !st.sessions[s].asClient && !st.sessions[s].shut
    requires SendToServer(st, s, stype, ctype, table).nextKey <= KEY_LIMIT
    ensures var q := SendToServer(st, s, stype, ctype, table);
            KeysOk(q) && UidsOk(q) && (UidsExact(st) ==> UidsExact(q)) && st.nextKey <= q.nextKey
  {
    hide KeysOk, UidsOk, UidsExact, Filed, KeyFor;
    if stype in st.servers && IsLoginRequest(ctype) {
      FiledKeeps(st, s);
      FiledKeepsUids(st, s);
      SendKeeps(Filed(st, s), Msg(st.servers[stype], stype, ctype, U32(KeyFor(st, s)), Forwarded(s)));
    } else if stype in st.servers {
      SendKeeps(st, Msg(st.servers[stype], stype, ctype, U32(st.sessions[s].uid), Forwarded(s)));
      SendKeeps(st, Msg(st.servers[stype], stype, ctype, U32(st.sessions[s].uid), Addressed(s)));
    }
  }

  lemma LogoutKeeps(st: State, tag: int)
    requires KeysOk(st) && UidsOk(st) && tag in st.uids
    ensures var s := st.uids[tag];
            var q := st.(sessions := st.sessions[s := st.sessions[s].(uid := 0)], uids := st.uids - {tag});
            KeysOk(q) && UidsOk(q) && (UidsExact(st) ==> UidsExact(q))
  {
    var s := st.uids[tag];
    var q := st.(sessions := st.sessions[s := st.sessions[s].(uid := 0)], uids := st.uids - {tag});
    UidIgnored(st, q, s, 0);
    hide KeysOk;
    forall t | t in q.sessions && OpenUser(q, t) ensures Names(q.uids, q.sessions[t].uid, t) {
      assert OpenUser(st, t);
    }
  }

  /** The temporary keys have no say in the user map. */
  lemma KeysIgnored(st: State, ukeys: map<int, Sid>)
    ensures UidsOk(st.(ukeys := ukeys)) <==> UidsOk(st)
    ensures UidsExact(st.(ukeys := ukeys)) <==> UidsExact(st)
  {
    var q := st.(ukeys := ukeys);
    assert forall s <- st.sessions :: OpenUser(q, s) <==> OpenUser(st, s);
  }

  lemma AcceptedKeepsMaps(st: State, e: Event, services: seq<int>)
    requires KeysOk(st) && UidsOk(st) && services != []
    requires e.FromBackend? && UidFits(e) && IsLoginReturn(e.ctype) && e.tag in st.ukeys && e.body.Accepted?
    ensures var q := SendToClient(st, e.stype, e.ctype, e.tag, e.body, services);
            && KeysOk(q) && UidsOk(q) && q.nextKey == st.nextKey
            && (UidsExact(st) ==> (UidsExact(q) <==> !Switches(st, e)))
  {
    PendingSession(st, e.tag);
    var st1 := st.(ukeys := st.ukeys - {e.tag});
    KeysIgnored(st, st1.ukeys);
    hide KeysOk, UidsOk, UidsExact, CompleteLogin, Names;
    CompleteLoginKeeps(st1, st.ukeys[e.tag], e.ctype, e.tag, e.body.uid, services);
  }

  lemma RefusedKeepsMaps(st: State, e: Event, services: seq<int>)
    requires KeysOk(st) && UidsOk(st)
    requires e.FromBackend? && IsLoginReturn(e.ctype) && e.tag in st.ukeys && !e.body.Accepted?
    ensures var q := SendToClient(st, e.stype, e.ctype, e.tag, e.body, services);
            KeysOk(q) && UidsOk(q) && q.nextKey == st.nextKey && (UidsExact(st) ==> UidsExact(q))
  {
    PendingSession(st, e.tag);
    var st1 := st.(ukeys := st.ukeys - {e.tag});
    KeysIgnored(st, st1.ukeys);
    hide KeysOk, UidsOk, UidsExact, Send, CompleteLogin, PendingOk;
    SendKeeps(st1, Msg(st.ukeys[e.tag], e.stype, e.ctype, 0, Reply(e.tag)));
  }

  lemma RoutedReplyKeeps(st: State, e: Event, services: seq<int>)
    requires KeysOk(st) && UidsOk(st)
    requires e.FromBackend? && !IsLoginReturn(e.ctype) && e.tag in st.uids
    ensures var q := SendToClient(st, e.stype, e.ctype, e.tag, e.body, services);
            KeysOk(q) && UidsOk(q) && q.nextKey == st.nextKey && (UidsExact(st) ==> UidsExact(q))
  {
    LogoutKeeps(st, e.tag);
    assert st.uids[e.tag] in st.sessions;
    hide KeysOk, UidsOk, UidsExact;
    var s := st.uids[e.tag];
    var msg := Msg(s, e.stype, e.ctype, 0, Reply(e.tag));
    SendKeeps(st, msg);
    SendKeeps(st.(sessions := st.sessions[s := st.sessions[s].(uid := 0)], uids := st.uids - {e.tag}), msg);
  }

  lemma SendToClientKeeps(st: State, e: Event, services: seq<int>)
    requires KeysOk(st) && UidsOk(st) && services != []
    requires e.FromBackend? && UidFits(e)
    ensures var q := SendToClient(st, e.stype, e.ctype, e.tag, e.body, services);
            && KeysOk(q) && UidsOk(q) && q.nextKey == st.nextKey
            && (UidsExact(st) ==> (UidsExact(q) <==> !Switches(st, e)))
  {
    hide KeysOk, UidsOk, UidsExact;
    if IsLoginReturn(e.ctype) && e.tag in st.ukeys {
      if e.body.Accepted? {
        AcceptedKeepsMaps(st, e, services);
      } else {
        RefusedKeepsMaps(st, e, services);
      }
    } else if !IsLoginReturn(e.ctype) && e.tag in st.uids {
      RoutedReplyKeeps(st, e, services);
    }
  }

  lemma ConnectKeeps(st: State, s: Sid, asClient: bool, servers: map<int, Sid>)
    requires KeysOk(st) && UidsOk(st) && s !in st.sessions
    ensures var q := st.(sessions := st.sessions[s := Session(asClient, 0, 0, false)], servers := servers);
            KeysOk(q) && UidsOk(q) && (UidsExact(st) ==> UidsExact(q))
  {
    var q := st.(sessions := st.sessions[s := Session(asClient, 0, 0, false)], servers := servers);
    NewcomerKeys(st, q, s, asClient);
    NewcomerUids(st, q, s, asClient);
  }

  lemma NewcomerKeys(st: State, q: State, s: Sid, asClient: bool)
    requires KeysOk(st) && s !in st.sessions && q.ukeys == st.ukeys && q.nextKey == st.nextKey
    requires q.sessions == st.sessions[s := Session(asClient, 0, 0, false)]
    ensures KeysOk(q)
  {
    forall k | k in q.ukeys ensures PendingOk(q, k, q.ukeys[k]) {
      assert PendingOk(st, k, st.ukeys[k]);
    }
  }

  lemma NewcomerUids(st: State, q: State, s: Sid, asClient: bool)
    requires UidsOk(st) && s !in st.sessions && q.uids == st.uids
    requires q.sessions == st.sessions[s := Session(asClient, 0, 0, false)]
    ensures UidsOk(q) && (UidsExact(st) ==> UidsExact(q))
  {
    forall t | t in q.sessions && OpenUser(q, t) ensures Names(q.uids, q.sessions[t].uid, t) {
      assert OpenUser(st, t);
    }
  }

  /** Every step keeps both invariants; and it keeps the user map exact exactly when it does not
      complete a login for another user than the one its session is still logged in as. */
  lemma StepKeeps(st: State, e: Event, services: seq<int>)
    requires KeysOk(st) && UidsOk(st) && services != []
    requires Enabled(st, e) && UidFits(e) && Step(st, e, services).nextKey <= KEY_LIMIT
    ensures var q := Step(st, e, services);
            && KeysOk(q) && UidsOk(q) && st.nextKey <= q.nextKey
            && (UidsExact(st) ==> (UidsExact(q) <==> !Switches(st, e)))
  {
    hide KeysOk, UidsOk, UidsExact;
    match e
    case Connect(s) => ConnectKeeps(st, s, false, st.servers);
    case BackendUp(stype, s) => ConnectKeeps(st, s, true, st.servers[stype := s]);
    case FromClient(s, stype, ctype, table) => SendToServerKeeps(st, s, stype, ctype, table);
    case FromBackend(_, _, _, _, _) => SendToClientKeeps(st, e, services);
    case Disconnect(s) =>
      NoZeroKey(st);
      CloseFrame(st, s, services);
      CloseKeepsKeys(st, s, services);
      CloseKeepsUids(st, s, services);
  }

  predicate NeverSwitches(st: State, events: seq<Event>, services: seq<int>)
    requires EnabledRun(st, events, services)
    decreases |events|
  {
    events == []
    || (!Switches(st, events[0]) && NeverSwitches(Step(st, events[0], services), events[1..], services))
  }

  lemma {:induction false} RunKeeps(st: State, events: seq<Event>, services: seq<int>)
    requires KeysOk(st) && UidsOk(st) && services != [] && EnabledRun(st, events, services)
    ensures KeysOk(Run(st, events, services)) && UidsOk(Run(st, events, services))
    ensures UidsExact(st) && NeverSwitches(st, events, services) ==> UidsExact(Run(st, events, services))
    decreases |events|
  {
    hide KeysOk, UidsOk, UidsExact, Step, Switches;
    if events != [] {
      StepKeeps(st, events[0], services);
      RunKeeps(Step(st, events[0], services), events[1..], services);
    }
  }

  /** The user map is exact before the run and after each of its events. */
  predicate StaysExact(st: State, events: seq<Event>, services: seq<int>)
    requires EnabledRun(st, events, services)
    decreases |events|
  {
    UidsExact(st)
    && (events == [] || StaysExact(Step(st, events[0], services), events[1..], services))
  }

  /** The user map stays exact over a run exactly when no session completes a login as a second user. */
  lemma {:induction false} StaysExactIff(st: State, events: seq<Event>, services: seq<int>)
    requires KeysOk(st) && UidsOk(st) && UidsExact(st) && services != [] && EnabledRun(st, events, services)
    ensures StaysExact(st, events, services) <==> NeverSwitches(st, events, services)
    decreases |events|
  {
    hide KeysOk, UidsOk, UidsExact, Step, Switches;
    if events != [] {
      StepKeeps(st, events[0], services);
      if !Switches(st, events[0]) {
        StaysExactIff(Step(st, events[0], services), events[1..], services);
      } else {
        NotExact(Step(st, events[0], services), events[1..], services);
      }
    }
  }

  lemma NotExact(st: State, events: seq<Event>, services: seq<int>)
    requires EnabledRun(st, events, services) && !UidsExact(st)
    ensures !StaysExact(st, events, services)
  {
  }

  /** The run from the `i`-th event on, in terms of the run from the next one on. */
  lemma RunFrom(st: State, events: seq<Event>, i: nat, q: State, services: seq<int>)
    requires i < |events| && Goes(st, events[i], q, services)
    requires EnabledRun(q, events[i + 1..], services)
    ensures EnabledRun(st, events[i..], services)
    ensures Run(st, events[i..], services) == Run(q, events[i + 1..], services)
    ensures NeverSwitches(st, events[i..], services)
       <==> !Switches(st, events[i]) && NeverSwitches(q, events[i + 1..], services)
  {
    hide Step, Enabled, Switches;
    assert events[i..][1..] == events[i + 1..];
  }

  const SERVER := Session(true, 0, 0, false)

  /** Session 5 logs in as user 7, and then once more as user 8. */
  const SWITCH_RUN: seq<Event> := [
    BackendUp(1, 0), BackendUp(2, 9), Connect(5),
    FromClient(5, 1, GUEST_LOGIN_REQ, true), FromBackend(0, 1, GUEST_LOGIN_RES, 1, Accepted(7)),
    FromClient(5, 1, GUEST_LOGIN_REQ, true), FromBackend(0, 1, GUEST_LOGIN_RES, 1, Accepted(8))]

  const REQUEST := Msg(0, 1, GUEST_LOGIN_REQ, 1, Forwarded(5))
  const REPLY := Msg(5, AUTH, GUEST_LOGIN_RES, 0, Reply(1))

  const STEP3 :=
    State(map[0 := SERVER, 9 := SERVER, 5 := Session(false, 0, 0, false)], map[1 := 0, 2 := 9], map[], map[], 1, [])
  const STEP4 := STEP3.(sessions := STEP3.sessions[5 := Session(false, 1, 0, false)], ukeys := map[1 := 5],
                        nextKey := 2, sent := [REQUEST])
  const STEP5 := STEP4.(sessions := STEP3.sessions[5 := Session(false, 1, 7, false)], ukeys := map[],
                        uids := map[7 := 5], sent := [REQUEST, REPLY])
  const STEP6 := STEP5.(ukeys := map[1 := 5], sent := [REQUEST, REPLY, REQUEST])
  const STEP7 := STEP6.(sessions := STEP3.sessions[5 := Session(false, 1, 8, false)], ukeys := map[],
                        uids := map[7 := 5, 8 := 5], sent := [REQUEST, REPLY, REQUEST, REPLY])

  predicate Goes(st: State, e: Event, q: State, services: seq<int>) {
    Enabled(st, e) && UidFits(e) && Step(st, e, services) == q && q.nextKey <= KEY_LIMIT
  }

  const STEP1 := State(map[0 := SERVER], map[1 := 0], map[], map[], 1, [])
  const STEP2 := State(map[0 := SERVER, 9 := SERVER], map[1 := 0, 2 := 9], map[], map[], 1, [])

  lemma SwitchSetUp(services: seq<int>)
    ensures Goes(INITIAL, SWITCH_RUN[0], STEP1, services) && Goes(STEP1, SWITCH_RUN[1], STEP2, services)
    ensures Goes(STEP2, SWITCH_RUN[2], STEP3, services)
  {
  }

  lemma SwitchSteps(services: seq<int>)
    ensures Goes(STEP3, SWITCH_RUN[3], STEP4, services) && Goes(STEP4, SWITCH_RUN[4], STEP5, services)
    ensures Goes(STEP5, SWITCH_RUN[5], STEP6, services) && Goes(STEP6, SWITCH_RUN[6], STEP7, services)
    ensures Switches(STEP6, SWITCH_RUN[6])
  {
  }

  lemma SwitchRunEnds(services: seq<int>)
    ensures EnabledRun(INITIAL, SWITCH_RUN, services)
    ensures Run(INITIAL, SWITCH_RUN, services) == STEP7 && !NeverSwitches(INITIAL, SWITCH_RUN, services)
  {
    SwitchSetUp(services);
    SwitchSteps(services);
    assert SWITCH_RUN[7..] == [] && SWITCH_RUN[0..] == SWITCH_RUN;
    assert EnabledRun(STEP7, [], services);
    hide Goes, Switches, Run, EnabledRun, NeverSwitches;
    RunFrom(STEP6, SWITCH_RUN, 6, STEP7, services);
    RunFrom(STEP5, SWITCH_RUN, 5, STEP6, services);
    RunFrom(STEP4, SWITCH_RUN, 4, STEP5, services);
    RunFrom(STEP3, SWITCH_RUN, 3, STEP4, services);
    RunFrom(STEP2, SWITCH_RUN, 2, STEP3, services);
    RunFrom(STEP1, SWITCH_RUN, 1, STEP2, services);
    RunFrom(INITIAL, SWITCH_RUN, 0, STEP1, services);
    RunNothing(STEP7, services);
  }

  lemma RunNothing(st: State, services: seq<int>)
    ensures EnabledRun(st, [], services) && Run(st, [], services) == st
  {
  }

  /** That run can happen, and behind it a reply for user 7 is sent to the session of user 8. */
  lemma SwitchMisroutes(services: seq<int>, stype: int, ctype: int, body: LoginBody)
    requires services != [] && !IsLoginReturn(ctype)
    ensures EnabledRun(INITIAL, SWITCH_RUN, services)
    ensures var st := Run(INITIAL, SWITCH_RUN, services); var e := FromBackend(9, stype, ctype, 7, body);
            && !NeverSwitches(INITIAL, SWITCH_RUN, services) && !UidsExact(st)
            && 5 in st.sessions && OpenUser(st, 5) && st.sessions[5].uid == 8
            && Enabled(st, e) && Step(st, e, services).sent == st.sent + [Msg(5, stype, ctype, 0, Reply(7))]
  {
    SwitchRunEnds(services);
    hide Run, EnabledRun, NeverSwitches;
    assert 7 in STEP7.uids && STEP7.sessions[5].uid == 8;
  }

  /** In every reachable state, whatever was interleaved, each open client session with a user is the
      session the user map holds for that user, so no two open sessions share a user. */
  lemma OneSessionPerUser(events: seq<Event>, services: seq<int>, s: Sid, t: Sid)
    requires services != [] && EnabledRun(INITIAL, events, services)
    ensures var q := Run(INITIAL, events, services);
            s in q.sessions && OpenUser(q, s) ==>
              && Names(q.uids, q.sessions[s].uid, s)
              && (t in q.sessions && OpenUser(q, t) && q.sessions[t].uid == q.sessions[s].uid ==> t == s)
  {
    RunKeeps(INITIAL, events, services);
  }

  /** In every state reached without such a switch, a non-login reply tagged `u` is sent to exactly the
      open session logged in as `u`, and nowhere when there is none. */
  lemma RepliesReachTheirUser(events: seq<Event>, services: seq<int>, e: Event)
    requires services != [] && EnabledRun(INITIAL, events, services) && NeverSwitches(INITIAL, events, services)
    requires e.FromBackend? && !IsLoginReturn(e.ctype)
    requires Enabled(Run(INITIAL, events, services), e)
    ensures var st := Run(INITIAL, events, services);
            var q := Step(st, e, services);
            if exists s <- st.sessions :: OpenUser(st, s) && st.sessions[s].uid == e.tag then
              exists s <- st.sessions :: OpenUser(st, s) && st.sessions[s].uid == e.tag
                && q.sent == st.sent + [Msg(s, e.stype, e.ctype, 0, Reply(e.tag))]
            else e.tag != 0 ==> q.sent == st.sent
  {
    RunKeeps(INITIAL, events, services);
    var st := Run(INITIAL, events, services);
    if e.tag in st.uids && e.tag != 0 {
      HeldIsOpen(st, e.tag);
    }
    if s :| s in st.sessions && OpenUser(st, s) && st.sessions[s].uid == e.tag {
      assert Names(st.uids, e.tag, s);
    }
  }

  lemma HeldIsOpen(st: State, u: int)
    requires UidsExact(st) && u in st.uids && u != 0
    ensures st.uids[u] in st.sessions && OpenUser(st, st.uids[u]) && st.sessions[st.uids[u]].uid == u
  {
  }

  // -------------------------------------------------------------------------------------------
  // What one close sends
  // -------------------------------------------------------------------------------------------

  /** How many of the messages were sent for the service `stype`. */
  function Told(msgs: seq<Msg>, stype: int): nat {
    if msgs == [] then 0 else (if msgs[0].stype == stype then 1 else 0) + Told(msgs[1..], stype)
  }

  lemma {:induction false} LostConnsTold(servers: map<int, Sid>, services: seq<int>, uid: int, s: Sid, stype: int)
    requires forall i, j :: 0 <= i < j < |services| ==> services[i] != services[j]
    ensures Told(LostConns(servers, services, uid, s), stype)
         == if stype in services && stype in servers && uid != 0 then 1 else 0
    ensures forall m <- LostConns(servers, services, uid, s) ::
              Names(servers, m.stype, m.to) && m == Msg(m.to, m.stype, USER_LOST_CONN, uid, LostConn(s))
  {
    if services != [] {
      var later := LostConns(servers, services[1..], uid, s);
      LostConnsTold(servers, services[1..], uid, s, stype);
      var one := LostConnTo(servers, services[0], uid, s);
      if one == [] {
        assert one + later == later;
      } else {
        assert (one + later)[1..] == later;
      }
      assert stype in services <==> stype == services[0] || stype in services[1..];
      if stype == services[0] {
        assert stype !in services[1..];
      }
    }
  }

  /** One close of a client session, however often it is called, tells each service whose server is
      connected exactly once, and none when the session has no user; afterwards no pending key and
      no entry under its user lead to the session. */
  lemma CloseTellsOnce(st: State, s: Sid, services: seq<int>, stype: int)
    requires KeysOk(st) && s in st.sessions && !st.sessions[s].asClient && !st.sessions[s].shut && services != []
    requires forall i, j :: 0 <= i < j < |services| ==> services[i] != services[j]
    ensures var q := Close(st, s, services); var uid := st.sessions[s].uid;
            && s in q.sessions && Close(q, s, services) == q
            && |st.sent| <= |q.sent| && q.sent[..|st.sent|] == st.sent
            && Told(q.sent[|st.sent|..], stype)
                 == (if stype in services && stype in st.servers && uid != 0 then 1 else 0)
            && (forall m <- q.sent[|st.sent|..] ::
                  Names(st.servers, m.stype, m.to) && m == Msg(m.to, m.stype, USER_LOST_CONN, uid, LostConn(s)))
            && (forall k <- q.ukeys :: q.ukeys[k] != s)
            && !Names(q.uids, uid, s)
  {
    NoZeroKey(st);
    CloseIsClosed(st, s, services);
    CloseForgetsKeys(st, s, services);
    var uid := st.sessions[s].uid;
    var q := Closed(st, s, services);
    var news := LostConns(st.servers, services, uid, s);
    LostConnsTold(st.servers, services, uid, s, stype);
    assert q.sent == st.sent + news;
    assert q.sent[|st.sent|..] == news;
    hide LostConns;
  }

  // -------------------------------------------------------------------------------------------
  // User ids and the field that keeps them
  // -------------------------------------------------------------------------------------------

  /** When a login is accepted, users keep leading to their sessions exactly when the 32-bit field keeps
      the id, or nothing of it, or an id that already led to the session. */
  lemma UidFieldExact(st: State, s: Sid, ctype: int, tag: int, uid: int, services: seq<int>)
    requires KeysOk(st) && UidsOk(st) && services != []
    requires s in st.sessions && !st.sessions[s].asClient && !st.sessions[s].shut
    ensures UidsOk(CompleteLogin(st, s, ctype, tag, uid, services))
       <==> U32(uid) == uid || U32(uid) == 0 || Names(st.uids, U32(uid), s)
  {
    OlderClosedKeeps(st, s, uid, services);
    var r := OlderClosed(st, s, uid, services);
    var q := LoggedIn(r, s, ctype, tag, uid);
    hide KeysOk, UidsOk, OlderClosed, U32, UidsExact, OpenUser;
    assert q.uids == r.uids[uid := s] && q.sessions == r.sessions[s := r.sessions[s].(uid := U32(uid))];
    assert Names(r.uids, U32(uid), s) <==> Names(st.uids, U32(uid), s);
    FieldExact(r, q, s, uid, U32(uid));
  }

  lemma FieldExact(r: State, q: State, s: Sid, uid: int, field: int)
    requires UidsOk(r) && s in r.sessions && !r.sessions[s].asClient && !r.sessions[s].shut
    requires forall t <- r.sessions :: OpenUser(r, t) && r.sessions[t].uid == uid ==> t == s
    requires q.sessions == r.sessions[s := r.sessions[s].(uid := field)] && q.uids == r.uids[uid := s]
    ensures UidsOk(q) <==> field == uid || field == 0 || Names(r.uids, field, s)
  {
    if field == uid || field == 0 || Names(r.uids, field, s) {
      forall t | t in q.sessions && OpenUser(q, t) ensures Names(q.uids, q.sessions[t].uid, t) {
        assert t != s ==> OpenUser(r, t);
      }
    } else {
      assert OpenUser(q, s) && !Names(q.uids, field, s);
    }
  }
}
