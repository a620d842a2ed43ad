/** Where the gateway sends what it receives, and what logging in and out changes, in every reachable
    state. */
module GatewayRouting {
  import opened Seqs
  import opened Gateway

  // -------------------------------------------------------------------------------------------
  // User ids fit their field
  // -------------------------------------------------------------------------------------------

  predicate UidRange(st: State) {
    forall s <- st.sessions :: 0 <= st.sessions[s].uid < 0x1_0000_0000
  }

  lemma RangeAfter(st: State, q: State, s: Sid)
    requires UidRange(st)
    requires forall t <- q.sessions :: t == s || (t in st.sessions && q.sessions[t].uid == st.sessions[t].uid)
    requires s in q.sessions ==> 0 <= q.sessions[s].uid < 0x1_0000_0000
    ensures UidRange(q)
  {
  }

  predicate Replaces(st: State, s: Sid, uid: int) {
    uid in st.uids && st.uids[uid] != s
  }

  /** At most the older session of the user is shut and out of the maps; the others are what they were. */
  predicate OlderOut(st: State, q: State, s: Sid, uid: int) {
    && q.sessions.Keys == st.sessions.Keys && q.servers == st.servers && q.nextKey == st.nextKey
    && (forall t <- st.sessions :: q.sessions[t].uid == st.sessions[t].uid)
    && (forall t <- st.sessions :: !Names(st.uids, uid, t) || t == s ==> q.sessions[t] == st.sessions[t])
    && (forall k <- q.ukeys :: Names(st.ukeys, k, q.ukeys[k]))
    && (forall u <- q.uids :: Names(st.uids, u, q.uids[u]))
    && if Replaces(st, s, uid)
       then && st.uids[uid] in q.sessions && q.sessions[st.uids[uid]].shut
            && (forall k <- st.ukeys :: st.ukeys[k] != st.uids[uid] ==> Names(q.ukeys, k, st.ukeys[k]))
            && (forall u <- st.uids :: st.uids[u] != st.uids[uid] ==> Names(q.uids, u, st.uids[u]))
       else q == st
  }

  lemma OlderClosedFrame(st: State, s: Sid, uid: int, services: seq<int>)
    requires KeysOk(st) && UidsOk(st) && services != []
    ensures OlderOut(st, OlderClosed(st, s, uid, services), s, uid)
  {
    if uid in st.uids && st.uids[uid] != s {
      var older := st.uids[uid];
      var notice := Msg(older, AUTH, RELOGIN_RES, 0, Relogin);
      assert older in st.sessions && !st.sessions[older].asClient;
      NoZeroKey(st);
      var st1 := Send(st, notice);
      CloseFrame(st1, older, services);
      ClientCloseFrame(st1, older, services);
      hide KeysOk, UidsOk, Close;
      assert OlderClosed(st, s, uid, services) == Close(st1, older, services);
    }
  }

  lemma ClientCloseFrame(st: State, s: Sid, services: seq<int>)
    requires s in st.sessions && !st.sessions[s].asClient && services != [] && 0 !in st.ukeys
    ensures var q := Close(st, s, services);
            && q.servers == st.servers
            && forall k <- st.ukeys :: st.ukeys[k] != s ==> Names(q.ukeys, k, st.ukeys[k])
  {
    CloseIsClosed(st, s, services);
    hide Close, LostConns;
  }

  lemma AcceptedKeepsRange(st: State, s: Sid, ctype: int, tag: int, uid: int, services: seq<int>)
    requires KeysOk(st) && UidsOk(st) && UidRange(st) && services != []
    ensures UidRange(CompleteLogin(st, s, ctype, tag, uid, services))
  {
    OlderClosedFrame(st, s, uid, services);
    hide KeysOk, UidsOk, OlderClosed;
    var r := OlderClosed(st, s, uid, services);
    RangeAfter(st, r, s);
    RangeAfter(r, LoggedIn(r, s, ctype, tag, uid), s);
  }

  lemma ReplyKeepsRange(st: State, e: Event, services: seq<int>)
    requires KeysOk(st) && UidsOk(st) && UidRange(st) && services != [] && Enabled(st, e) && e.FromBackend?
    ensures UidRange(Step(st, e, services))
  {
    var q := Step(st, e, services);
    if !IsLoginReturn(e.ctype) {
      hide KeysOk;
      if e.tag in st.uids {
        RangeAfter(st, q, st.uids[e.tag]);
      }
    } else if e.tag in st.ukeys && e.body.Accepted? {
      var st1 := st.(ukeys := st.ukeys - {e.tag});
      PendingSession(st, e.tag);
      KeysIgnored(st, st1.ukeys);
      hide KeysOk, UidsOk, CompleteLogin;
      AcceptedKeepsRange(st1, st.ukeys[e.tag], e.ctype, e.tag, e.body.uid, services);
    }
  }

  lemma StepKeepsRange(st: State, e: Event, services: seq<int>)
    requires KeysOk(st) && UidsOk(st) && UidRange(st) && services != [] && Enabled(st, e)
    ensures UidRange(Step(st, e, services))
  {
    var q := Step(st, e, services);
    match e
    case Connect(s) => RangeAfter(st, q, s);
    case BackendUp(_, s) => RangeAfter(st, q, s);
    case FromClient(s, _, _, _) => RangeAfter(st, q, s);
    case FromBackend(_, stype, ctype, tag, body) => ReplyKeepsRange(st, e, services);
    case Disconnect(s) =>
      NoZeroKey(st);
      CloseFrame(st, s, services);
      hide Close;
      RangeAfter(st, q, s);
  }

  /** What holds in every reachable state. */
  predicate Fine(st: State) {
    KeysOk(st) && UidsOk(st) && UidRange(st)
  }

  lemma {:induction false} RunIsFine(st: State, events: seq<Event>, services: seq<int>)
    requires Fine(st) && services != [] && EnabledRun(st, events, services)
    ensures Fine(Run(st, events, services))
    ensures UidsExact(st) && NeverSwitches(st, events, services) ==> UidsExact(Run(st, events, services))
    decreases |events|
  {
    hide KeysOk, UidsOk, UidsExact, UidRange, Step, Switches;
    if events != [] {
      StepKeeps(st, events[0], services);
      StepKeepsRange(st, events[0], services);
      RunIsFine(Step(st, events[0], services), events[1..], services);
    }
  }

  lemma ReachableIsFine(events: seq<Event>, services: seq<int>)
    requires services != [] && EnabledRun(INITIAL, events, services)
    ensures Fine(Run(INITIAL, events, services))
    ensures NeverSwitches(INITIAL, events, services) ==> UidsExact(Run(INITIAL, events, services))
  {
    assert Fine(INITIAL) && UidsExact(INITIAL);
    RunIsFine(INITIAL, events, services);
  }

  // -------------------------------------------------------------------------------------------
  // From clients to servers
  // -------------------------------------------------------------------------------------------

  /** A command of a client that is no login request reaches the one server of its service type, tagged
      with the client's user, and changes nothing else. Without a user, or a server, nothing is sent; nor
      is a login to the logic server whose body is no table. */
  lemma CommandRouted(events: seq<Event>, services: seq<int>, s: Sid, stype: int, ctype: int, table: bool)
    requires services != [] && EnabledRun(INITIAL, events, services) && !IsLoginRequest(ctype)
    requires Enabled(Run(INITIAL, events, services), FromClient(s, stype, ctype, table))
    ensures var st := Run(INITIAL, events, services); var q := Step(st, FromClient(s, stype, ctype, table), services);
            if stype in st.servers && OpenUser(st, s) && (ctype == LOGIC_LOGIN_REQ ==> table)
            then q == st.(sent := st.sent + [UserCommand(st, s, stype, ctype)]) else q == st
  {
    ReachableIsFine(events, services);
    var st := Run(INITIAL, events, services);
    hide Run, EnabledRun, KeysOk, UidsOk;
    UserField(st, s);
  }

  /** The command as the server receives it. */
  function UserCommand(st: State, s: Sid, stype: int, ctype: int): Msg
    requires s in st.sessions && stype in st.servers
  {
    Msg(st.servers[stype], stype, ctype, st.sessions[s].uid,
        if ctype == LOGIC_LOGIN_REQ then Addressed(s) else Forwarded(s))
  }

  lemma UserField(st: State, s: Sid)
    requires UidRange(st) && s in st.sessions
    ensures U32(st.sessions[s].uid) == st.sessions[s].uid
  {
  }

  /** A login request goes to the server of its service type under the client's temporary key, which
      no other session has and which is pending from then on. */
  lemma LoginRequestRouted(events: seq<Event>, services: seq<int>, s: Sid, stype: int, ctype: int, table: bool)
    requires services != [] && EnabledRun(INITIAL, events, services) && IsLoginRequest(ctype)
    requires var st := Run(INITIAL, events, services); var e := FromClient(s, stype, ctype, table);
             Enabled(st, e) && Step(st, e, services).nextKey <= KEY_LIMIT
    ensures var st := Run(INITIAL, events, services); var q := Step(st, FromClient(s, stype, ctype, table), services);
            if stype in st.servers
            then var k := q.sessions[s].utag;
                 && k != 0 && Names(q.ukeys, k, s)
                 && (st.sessions[s].utag != 0 ==> k == st.sessions[s].utag)
                 && q.sessions == st.sessions[s := st.sessions[s].(utag := k)]
                 && q.ukeys == st.ukeys[k := s] && q.uids == st.uids && q.servers == st.servers
                 && (forall t <- st.sessions :: st.sessions[t].utag == k ==> t == s)
                 && q.sent == st.sent + [Msg(st.servers[stype], stype, ctype, k, Forwarded(s))]
            else q == st
  {
    ReachableIsFine(events, services);
    var st := Run(INITIAL, events, services);
    hide Run, EnabledRun, UidsOk, UidRange;
    if stype in st.servers {
      FiledKeeps(st, s);
      KeyIsFree(st, s);
      hide KeysOk;
      assert st.sessions[s].(utag := st.sessions[s].utag) == st.sessions[s];
    }
  }

  lemma KeyIsFree(st: State, s: Sid)
    requires KeysOk(st) && s in st.sessions
    ensures forall t <- st.sessions :: st.sessions[t].utag == KeyFor(st, s) ==> t == s
  {
  }

  // -------------------------------------------------------------------------------------------
  // From servers to clients
  // -------------------------------------------------------------------------------------------

  /** A command and its answer, with anything in between: as long as the client is still logged in as the
      user it was when it sent the command, a reply under the tag the server was given is sent to that
      client, and to nobody else. */
  lemma AnswerComesBack(events: seq<Event>, services: seq<int>, s: Sid, stype: int, ctype: int, table: bool,
                        later: seq<Event>, reply: Event, m: Msg)
    requires services != [] && EnabledRun(INITIAL, events, services) && NeverSwitches(INITIAL, events, services)
    requires !IsLoginRequest(ctype) && Enabled(Run(INITIAL, events, services), FromClient(s, stype, ctype, table))
    requires var st := Run(INITIAL, events, services);
             Step(st, FromClient(s, stype, ctype, table), services).sent == st.sent + [m]
    requires var q := Step(Run(INITIAL, events, services), FromClient(s, stype, ctype, table), services);
             && EnabledRun(q, later, services) && NeverSwitches(q, later, services)
             && var r := Run(q, later, services);
                && s in r.sessions && OpenUser(r, s)
                && r.sessions[s].uid == Run(INITIAL, events, services).sessions[s].uid
                && Enabled(r, reply)
    requires reply.FromBackend? && !IsLoginReturn(reply.ctype) && reply.tag == m.utag
    ensures var r := Run(Step(Run(INITIAL, events, services), FromClient(s, stype, ctype, table), services), later, services);
            Step(r, reply, services).sent == r.sent + [Msg(s, reply.stype, reply.ctype, 0, Reply(m.utag))]
  {
    var st := Run(INITIAL, events, services);
    assert s in st.sessions;
    hide *;
    ReachableIsFine(events, services);
    CommandRouted(events, services, s, stype, ctype, table);
    CommandSent(st, Step(st, FromClient(s, stype, ctype, table), services), s, m, stype, ctype, table);
    var q := Step(st, FromClient(s, stype, ctype, table), services);
    RunIsFine(q, later, services);
    ReplyToUser(Run(q, later, services), s, reply, services);
  }

  /** What `CommandRouted` says of the message that is sent. */
  lemma CommandSent(st: State, q: State, s: Sid, m: Msg, stype: int, ctype: int, table: bool)
    requires Fine(st) && s in st.sessions && q.sent == st.sent + [m]
    requires if stype in st.servers && OpenUser(st, s) && (ctype == LOGIC_LOGIN_REQ ==> table)
             then q == st.(sent := st.sent + [UserCommand(st, s, stype, ctype)]) else q == st
    ensures m.utag == st.sessions[s].uid && Fine(q) && (UidsExact(st) ==> UidsExact(q))
  {
    hide KeysOk, UidsOk, UidsExact;
    LastOf(st.sent, m);
    SendKeeps(st, m);
  }

  lemma ReplyToUser(st: State, s: Sid, reply: Event, services: seq<int>)
    requires Fine(st) && s in st.sessions && OpenUser(st, s)
    requires reply.FromBackend? && !IsLoginReturn(reply.ctype) && reply.tag == st.sessions[s].uid && Enabled(st, reply)
    ensures Step(st, reply, services).sent == st.sent + [Msg(s, reply.stype, reply.ctype, 0, Reply(reply.tag))]
  {
    hide KeysOk, UidRange;
    assert Names(st.uids, reply.tag, s);
  }

  lemma LastOf(sent: seq<Msg>, m: Msg)
    ensures forall n: Msg :: sent + [m] == sent + [n] ==> m == n
    ensures sent + [m] != sent
  {
    forall n: Msg | sent + [m] == sent + [n] ensures m == n {
      assert (sent + [m])[|sent|] == (sent + [n])[|sent|];
    }
  }

  /** A login reply for a key that is not pending, or that cannot be decoded, changes nothing; a refusal is
      delivered to the session that has the key, under its own service type; a body that cannot be
      read only uses up the request. */
  lemma LoginNotAccepted(events: seq<Event>, services: seq<int>, e: Event)
    requires services != [] && EnabledRun(INITIAL, events, services) && Enabled(Run(INITIAL, events, services), e)
    requires e.FromBackend? && IsLoginReturn(e.ctype)
    ensures var st := Run(INITIAL, events, services); var q := Step(st, e, services);
            && (e.tag !in st.ukeys || e.body.Undecodable? ==> q == st)
            && (e.tag in st.ukeys && e.body.Refused? ==>
                  && PendingOk(st, e.tag, st.ukeys[e.tag])
                  && q == st.(ukeys := st.ukeys - {e.tag},
                              sent := st.sent + [Msg(st.ukeys[e.tag], e.stype, e.ctype, 0, Reply(e.tag))]))
            && (e.tag in st.ukeys && e.body.Unreadable? ==> q == st.(ukeys := st.ukeys - {e.tag}))
  {
    ReachableIsFine(events, services);
    hide Run, EnabledRun;
  }

  /** Session `s`, whose request was pending under `k`, is now the one that user `uid` leads to, in place of
      any older one, which is shut. Every other session and entry is what it was. */
  predicate LoginDone(st: State, q: State, k: int, s: Sid, uid: int) {
    && s in st.sessions && s in q.sessions && q.sessions[s] == st.sessions[s].(uid := uid) && Names(q.uids, uid, s)
    && k !in q.ukeys && q.sessions.Keys == st.sessions.Keys && q.servers == st.servers
    && (forall t <- st.sessions :: t != s && !Names(st.uids, uid, t) ==> q.sessions[t] == st.sessions[t])
    && (Replaces(st, s, uid) ==> st.uids[uid] in q.sessions && q.sessions[st.uids[uid]].shut)
    && (forall j <- q.ukeys :: Names(st.ukeys, j, q.ukeys[j]))
    && (forall j <- st.ukeys :: j != k && !Names(st.uids, uid, st.ukeys[j]) ==> Names(q.ukeys, j, st.ukeys[j]))
    && (forall u <- q.uids :: u != uid ==> Names(st.uids, u, q.uids[u]))
    && (forall u <- st.uids :: u != uid && !Names(st.uids, uid, st.uids[u]) ==> Names(q.uids, u, st.uids[u]))
  }

  lemma LoginDoneBy(st: State, r: State, q: State, k: int, s: Sid, uid: int)
    requires k in st.ukeys && s in st.sessions && OlderOut(st.(ukeys := st.ukeys - {k}), r, s, uid)
    requires q.sessions == r.sessions[s := r.sessions[s].(uid := uid)] && q.uids == r.uids[uid := s]
    requires q.ukeys == r.ukeys && q.servers == r.servers
    ensures LoginDone(st, q, k, s, uid)
  {
    var taken := st.(ukeys := st.ukeys - {k});
    forall j | j in st.ukeys && j != k && !Names(st.uids, uid, st.ukeys[j]) ensures Names(q.ukeys, j, st.ukeys[j]) {
      assert j in taken.ukeys && taken.ukeys[j] == st.ukeys[j];
    }
    forall j | j in q.ukeys ensures j != k && Names(st.ukeys, j, q.ukeys[j]) {
      assert Names(taken.ukeys, j, q.ukeys[j]);
    }
  }

  lemma {:induction false} LostConnsShape(servers: map<int, Sid>, services: seq<int>, uid: int, s: Sid)
    ensures forall m <- LostConns(servers, services, uid, s) :: m.ctype == USER_LOST_CONN && m.cause == LostConn(s)
  {
    if services != [] {
      LostConnsShape(servers, services[1..], uid, s);
    }
  }

  /** What the relogin check sends: the notice to the older session, and then what its close sends. */
  lemma OlderClosedTells(st: State, s: Sid, uid: int, services: seq<int>) returns (lost: seq<Msg>)
    requires KeysOk(st) && UidsOk(st) && services != []
    ensures Replaces(st, s, uid) ==> forall m <- lost :: m.ctype == USER_LOST_CONN && m.cause == LostConn(st.uids[uid])
    ensures OlderClosed(st, s, uid, services).sent
         == st.sent + if Replaces(st, s, uid) then [Msg(st.uids[uid], AUTH, RELOGIN_RES, 0, Relogin)] + lost else []
  {
    lost := [];
    if Replaces(st, s, uid) {
      var older := st.uids[uid];
      var notice := Msg(older, AUTH, RELOGIN_RES, 0, Relogin);
      var st1 := Send(st, notice);
      NoZeroKey(st1);
      CloseIsClosed(st1, older, services);
      hide KeysOk, UidsOk, Close, LostConns, Dropped;
      if !st.sessions[older].shut {
        lost := LostConns(st.servers, services, st.sessions[older].uid, older);
        LostConnsShape(st.servers, services, st.sessions[older].uid, older);
      } else {
        RightEmpty([notice]);
      }
      Assoc(st.sent, [notice], lost);
    } else {
      RightEmpty(st.sent);
    }
  }

  /** An accepted login takes effect, tells the session it replaces, and is answered last. */
  lemma LoginTakesEffect(events: seq<Event>, services: seq<int>, e: Event) returns (lost: seq<Msg>)
    requires services != [] && EnabledRun(INITIAL, events, services) && Enabled(Run(INITIAL, events, services), e)
    requires e.FromBackend? && IsLoginReturn(e.ctype) && e.body.Accepted? && UidFits(e)
    requires e.tag in Run(INITIAL, events, services).ukeys
    ensures var st := Run(INITIAL, events, services); var q := Step(st, e, services);
            var s, uid := st.ukeys[e.tag], e.body.uid;
            && PendingOk(st, e.tag, s) && LoginDone(st, q, e.tag, s, uid)
            && (Replaces(st, s, uid) ==>
                  forall m <- lost :: m.ctype == USER_LOST_CONN && m.cause == LostConn(st.uids[uid]))
            && q.sent == (st.sent + if Replaces(st, s, uid)
                                    then [Msg(st.uids[uid], AUTH, RELOGIN_RES, 0, Relogin)] + lost else [])
                         + [Msg(s, AUTH, e.ctype, 0, Reply(e.tag))]
  {
    ReachableIsFine(events, services);
    lost := AcceptedEffect(Run(INITIAL, events, services), e, services);
  }

  lemma AcceptedEffect(st: State, e: Event, services: seq<int>) returns (lost: seq<Msg>)
    requires e.FromBackend? && IsLoginReturn(e.ctype) && e.body.Accepted? && 0 <= e.body.uid < 0x1_0000_0000
    requires Fine(st) && services != [] && e.tag in st.ukeys && Enabled(st, e)
    ensures var q := Step(st, e, services); var s, uid := st.ukeys[e.tag], e.body.uid;
            && PendingOk(st, e.tag, s) && LoginDone(st, q, e.tag, s, uid)
            && (Replaces(st, s, uid) ==>
                  forall m <- lost :: m.ctype == USER_LOST_CONN && m.cause == LostConn(st.uids[uid]))
            && q.sent == (st.sent + if Replaces(st, s, uid)
                                    then [Msg(st.uids[uid], AUTH, RELOGIN_RES, 0, Relogin)] + lost else [])
                         + [Msg(s, AUTH, e.ctype, 0, Reply(e.tag))]
  {
    hide *;
    var k, s, uid := e.tag, st.ukeys[e.tag], e.body.uid;
    var st1 := st.(ukeys := st.ukeys - {k});
    PendingRemoved(st, k);
    AcceptedStep(st, e, services);
    OlderClosedFrame(st1, s, uid, services);
    lost := OlderClosedTells(st1, s, uid, services);
    var r := OlderClosed(st1, s, uid, services);
    StillThere(st1, r, s, uid);
    SameReplaces(st, st1, s, uid);
    LoggedInBy(r, s, e.ctype, k, uid);
    LoginDoneBy(st, r, LoggedIn(r, s, e.ctype, k, uid), k, s, uid);
  }

  lemma PendingRemoved(st: State, k: int)
    requires Fine(st) && k in st.ukeys
    ensures PendingOk(st, k, st.ukeys[k]) && st.ukeys[k] in st.sessions
    ensures var st1 := st.(ukeys := st.ukeys - {k}); KeysOk(st1) && UidsOk(st1)
  {
    PendingSession(st, k);
    KeysIgnored(st, st.ukeys - {k});
    hide KeysOk, UidsOk;
  }

  lemma AcceptedStep(st: State, e: Event, services: seq<int>)
    requires e.FromBackend? && IsLoginReturn(e.ctype) && e.body.Accepted? && e.tag in st.ukeys && Enabled(st, e)
    ensures Step(st, e, services)
         == LoggedIn(OlderClosed(st.(ukeys := st.ukeys - {e.tag}), st.ukeys[e.tag], e.body.uid, services),
                     st.ukeys[e.tag], e.ctype, e.tag, e.body.uid)
  {
    hide OlderClosed, LoggedIn;
  }

  lemma SameReplaces(st: State, st1: State, s: Sid, uid: int)
    requires st1.uids == st.uids
    ensures Replaces(st1, s, uid) <==> Replaces(st, s, uid)
  {
  }

  lemma LoggedInBy(r: State, s: Sid, ctype: int, tag: int, uid: int)
    requires s in r.sessions && 0 <= uid < 0x1_0000_0000
    ensures var q := LoggedIn(r, s, ctype, tag, uid);
            && q.sessions == r.sessions[s := r.sessions[s].(uid := uid)] && q.uids == r.uids[uid := s]
            && q.ukeys == r.ukeys && q.servers == r.servers
            && q.sent == r.sent + [Msg(s, AUTH, ctype, 0, Reply(tag))]
  {
  }

  lemma StillThere(st: State, r: State, s: Sid, uid: int)
    requires OlderOut(st, r, s, uid) && s in st.sessions
    ensures s in r.sessions
  {
  }

  /** A reply under a tag that no user leads to is dropped; one that is no logout changes nothing but what is
      sent. */
  lemma ReplyChangesNothing(events: seq<Event>, services: seq<int>, e: Event)
    requires services != [] && EnabledRun(INITIAL, events, services) && Enabled(Run(INITIAL, events, services), e)
    requires e.FromBackend? && !IsLoginReturn(e.ctype)
    ensures var st := Run(INITIAL, events, services); var q := Step(st, e, services);
            && (e.tag !in st.uids ==> q == st)
            && (e.tag in st.uids && e.ctype != LOGOUT_RES ==>
                  q == st.(sent := st.sent + [Msg(st.uids[e.tag], e.stype, e.ctype, 0, Reply(e.tag))]))
  {
  }

  /** Logging out. The user leads nowhere any more and its session has no user; every other session and
      entry is what it was. From then on a command of that session that is no login request goes
      nowhere, and a reply for that user reaches nobody. */
  lemma LogoutEnds(events: seq<Event>, services: seq<int>, e: Event, next: Event)
    requires services != [] && EnabledRun(INITIAL, events, services) && Enabled(Run(INITIAL, events, services), e)
    requires e.FromBackend? && e.ctype == LOGOUT_RES && e.tag in Run(INITIAL, events, services).uids
    ensures var st := Run(INITIAL, events, services); var q := Step(st, e, services); var s := st.uids[e.tag];
            && s in st.sessions && q.sessions == st.sessions[s := st.sessions[s].(uid := 0)]
            && q.uids == st.uids - {e.tag}
            && q.ukeys == st.ukeys && q.servers == st.servers && q.nextKey == st.nextKey
            && q.sent == st.sent + [Msg(s, e.stype, LOGOUT_RES, 0, Reply(e.tag))]
            && (Enabled(q, next) && next.FromClient? && next.s == s && !IsLoginRequest(next.ctype) ==>
                  Step(q, next, services) == q)
            && (Enabled(q, next) && next.FromBackend? && next.tag == e.tag && !IsLoginReturn(next.ctype) ==>
                  Step(q, next, services) == q)
  {
    ReachableIsFine(events, services);
    hide Run, EnabledRun, KeysOk;
  }

  /** Exactly the pending entry that leads to the session, and the entry of its user that does, are gone, and its
      key with the former. */
  ghost predicate Forgotten(st: State, q: State, s: Sid)
    requires s in st.sessions
  {
    var pending := exists k <- st.ukeys :: st.ukeys[k] == s;
    && (forall k :: k in q.ukeys <==> k in st.ukeys && st.ukeys[k] != s)
    && (forall k <- q.ukeys :: q.ukeys[k] == st.ukeys[k])
    && (forall u :: u in q.uids <==> u in st.uids && !(st.uids[u] == s && u == st.sessions[s].uid))
    && (forall u <- q.uids :: q.uids[u] == st.uids[u])
    && q.servers == st.servers && q.nextKey == st.nextKey
    && q.sessions == st.sessions[s := st.sessions[s].(shut := true, utag := if pending then 0 else st.sessions[s].utag)]
  }

  /** Closing a client's session forgets it, and changes nothing else but what is sent. */
  lemma CloseForgets(events: seq<Event>, services: seq<int>, s: Sid)
    requires services != [] && EnabledRun(INITIAL, events, services)
    requires var st := Run(INITIAL, events, services); s in st.sessions && !st.sessions[s].asClient && !st.sessions[s].shut
    ensures var st := Run(INITIAL, events, services); var q := Step(st, Disconnect(s), services);
            Forgotten(st, q, s)
  {
    ReachableIsFine(events, services);
    var st := Run(INITIAL, events, services);
    ForgottenBy(st, s, services);
    hide *;
  }

  lemma ForgottenBy(st: State, s: Sid, services: seq<int>)
    requires Fine(st) && services != [] && s in st.sessions && !st.sessions[s].asClient && !st.sessions[s].shut
    ensures Forgotten(st, Close(st, s, services), s)
  {
    NoZeroKey(st);
    OwnEntry(st, s);
    CloseIsClosed(st, s, services);
    hide KeysOk, UidsOk, UidRange, Close, LostConns;
  }

  lemma OwnEntry(st: State, s: Sid)
    requires KeysOk(st) && s in st.sessions
    ensures forall k <- st.ukeys :: st.ukeys[k] == s ==> k == st.sessions[s].utag
  {
    forall k | k in st.ukeys && st.ukeys[k] == s ensures k == st.sessions[s].utag {
      assert PendingOk(st, k, s);
    }
  }

  // -------------------------------------------------------------------------------------------
  // Servers come and go
  // -------------------------------------------------------------------------------------------

  /** When the connection to a server is lost, commands for its service type go nowhere; nothing is sent,
      and the clients notice nothing. */
  lemma ServerGone(events: seq<Event>, services: seq<int>, server: Sid, stype: int)
    requires services != [] && EnabledRun(INITIAL, events, services)
    requires var st := Run(INITIAL, events, services);
             server in st.sessions && st.sessions[server].asClient && !st.sessions[server].shut
    ensures var st := Run(INITIAL, events, services); var q := Step(st, Disconnect(server), services);
            && (stype in q.servers <==> stype in st.servers && st.servers[stype] != server)
            && (stype in q.servers ==> q.servers[stype] == st.servers[stype])
            && q == st.(servers := q.servers, sessions := st.sessions[server := st.sessions[server].(shut := true)])
            && (forall s, ctype, table | Enabled(q, FromClient(s, stype, ctype, table)) && stype !in q.servers ::
                  Step(q, FromClient(s, stype, ctype, table), services) == q)
  {
    ReachableIsFine(events, services);
    var st := Run(INITIAL, events, services);
    NoZeroKey(st);
    CloseIsClosed(st, server, services);
    hide Run, EnabledRun, Close, KeysOk, UidsOk;
  }

  /** A client starts without a user and without a key, and a server takes over its service type. */
  lemma Newcomers(st: State, s: Sid, stype: int, services: seq<int>)
    requires Enabled(st, Connect(s))
    ensures var q := Step(st, Connect(s), services);
            s in q.sessions && !OpenUser(q, s) && q.sessions[s].utag == 0 && q == st.(sessions := q.sessions)
    ensures var q := Step(st, BackendUp(stype, s), services); Names(q.servers, stype, s) && q.sessions[s].asClient
  {
  }
}
