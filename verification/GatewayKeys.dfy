/** The temporary keys of the gateway over whole runs: to whom each key was ever issued, and how often
    a reply under it was delivered. */
module GatewayKeys {
  import opened Gateway
  import opened Seqs

  /** The message concerns the temporary key `k` of session `s`: a login request of `s` forwarded
      under it, or a login reply to it delivered to `s`. */
  predicate KeyUse(m: Msg, k: int, s: Sid) {
    (IsForward(m, k) && m.cause == Forwarded(s)) || (IsDelivery(m, k) && m.to == s)
  }

  predicate IsForward(m: Msg, k: int) {
    IsLoginRequest(m.ctype) && m.cause.Forwarded? && m.utag == k
  }

  predicate IsDelivery(m: Msg, k: int) {
    IsLoginReturn(m.ctype) && m.cause == Reply(k)
  }

  /** The key `k` has been issued, and no session but `s` has it. */
  predicate Owns(st: State, k: int, s: Sid) {
    && 0 < k < st.nextKey && s in st.sessions
    && (forall t <- st.sessions :: st.sessions[t].utag == k ==> t == s)
  }

  ghost predicate HistoryOk(st: State) {
    && (forall m, k, s | m in st.sent && KeyUse(m, k, s) :: Owns(st, k, s))
    && (forall m, n, k, s, t | m in st.sent && n in st.sent && KeyUse(m, k, s) && KeyUse(n, k, t) :: s == t)
  }

  function Forwards(sent: seq<Msg>, k: int): nat {
    if sent == [] then 0 else (if IsForward(sent[0], k) then 1 else 0) + Forwards(sent[1..], k)
  }

  function Deliveries(sent: seq<Msg>, k: int): nat {
    if sent == [] then 0 else (if IsDelivery(sent[0], k) then 1 else 0) + Deliveries(sent[1..], k)
  }

  function Pending(st: State, k: int): nat {
    if k in st.ukeys then 1 else 0
  }

  /** Each forwarded login request pays for one delivered reply. */
  ghost predicate CountsOk(st: State) {
    forall k: int :: Deliveries(st.sent, k) + Pending(st, k) <= Forwards(st.sent, k)
  }

  lemma {:induction false} CountsAppend(a: seq<Msg>, b: seq<Msg>, k: int)
    ensures Forwards(a + b, k) == Forwards(a, k) + Forwards(b, k)
    ensures Deliveries(a + b, k) == Deliveries(a, k) + Deliveries(b, k)
  {
    if a == [] {
      assert a + b == b;
    } else {
      assert (a + b)[1..] == a[1..] + b;
      CountsAppend(a[1..], b, k);
    }
  }

  /** Messages that concern no temporary key. */
  predicate Neutral(news: seq<Msg>) {
    forall m <- news :: !IsLoginRequest(m.ctype) && !IsLoginReturn(m.ctype)
  }

  lemma {:induction false} NeutralCounts(news: seq<Msg>, k: int)
    requires Neutral(news)
    ensures Forwards(news, k) == Deliveries(news, k) == 0
  {
    if news != [] {
      assert news[0] in news;
      assert forall m <- news[1..] :: m in news;
      NeutralCounts(news[1..], k);
    }
  }

  /** Keys only disappear, or are the next one issued. */
  predicate KeyFrame(st: State, q: State) {
    && st.nextKey <= q.nextKey
    && (forall t <- st.sessions :: t in q.sessions)
    && (forall t <- q.sessions :: q.sessions[t].utag == 0 || q.sessions[t].utag == st.nextKey
                                  || (t in st.sessions && q.sessions[t].utag == st.sessions[t].utag))
  }

  /** A step whose messages concern at most the key `k0` of `s0` keeps the history in order. */
  lemma HistoryGrows(st: State, q: State, news: seq<Msg>, k0: int, s0: Sid)
    requires HistoryOk(st) && KeyFrame(st, q) && q.sent == st.sent + news
    requires forall m, k, s | m in news && KeyUse(m, k, s) :: k == k0 && s == s0 && Owns(q, k0, s0)
    requires forall s | Owns(st, k0, s) :: s == s0
    ensures HistoryOk(q)
  {
    forall m, k, s | m in st.sent && KeyUse(m, k, s) ensures Owns(q, k, s) {
      assert Owns(st, k, s);
    }
    hide KeyUse, Owns, KeyFrame;
    forall m, n, k, s, t | m in q.sent && n in q.sent && KeyUse(m, k, s) && KeyUse(n, k, t) ensures s == t {
      if m in st.sent {
        assert Owns(st, k, s);
      }
      if n in st.sent {
        assert Owns(st, k, t);
      }
    }
  }

  lemma {:induction false} LostConnsNeutral(servers: map<int, Sid>, services: seq<int>, uid: int, s: Sid)
    ensures Neutral(LostConns(servers, services, uid, s))
  {
    if services != [] {
      LostConnsNeutral(servers, services[1..], uid, s);
    }
  }

  ghost predicate Good(st: State) {
    KeysOk(st) && UidsOk(st) && HistoryOk(st) && CountsOk(st)
  }

  lemma {:induction false} NeutralAppend(a: seq<Msg>, b: seq<Msg>)
    requires Neutral(a) && Neutral(b)
    ensures Neutral(a + b)
  {
  }

  /** Closing sends only messages without a key, and changes no key but to 0. */
  lemma CloseSends(st: State, s: Sid, services: seq<int>) returns (news: seq<Msg>)
    requires s in st.sessions && services != [] && KeysOk(st)
    ensures var q := Close(st, s, services); q.sent == st.sent + news && Neutral(news) && KeyFrame(st, q)
    ensures var q := Close(st, s, services); forall k <- q.ukeys :: k in st.ukeys
  {
    NoZeroKey(st);
    CloseIsClosed(st, s, services);
    CloseFrame(st, s, services);
    var q := Close(st, s, services);
    var x := st.sessions[s];
    if x.asClient || x.shut {
      news := [];
      assert st.sent + [] == st.sent;
    } else {
      news := LostConns(st.servers, services, x.uid, s);
      LostConnsNeutral(st.servers, services, x.uid, s);
    }
    assert q.sent == st.sent + news;
    hide Close, Closed;
    assert forall k <- q.ukeys :: Names(st.ukeys, k, q.ukeys[k]);
  }

  lemma OlderClosedSends(st: State, s: Sid, uid: int, services: seq<int>) returns (news: seq<Msg>)
    requires KeysOk(st) && UidsOk(st) && services != []
    ensures var q := OlderClosed(st, s, uid, services);
            && q.sent == st.sent + news && Neutral(news) && KeyFrame(st, q)
            && forall k <- q.ukeys :: k in st.ukeys
  {
    news := [];
    assert st.sent + [] == st.sent;
    if uid in st.uids && st.uids[uid] != s {
      var older := st.uids[uid];
      var msg := Msg(older, AUTH, RELOGIN_RES, 0, Relogin);
      SendKeeps(st, msg);
      assert older in st.sessions;
      var lost := CloseSends(Send(st, msg), older, services);
      news := [msg] + lost;
      hide Close, KeysOk, UidsOk;
      assert (st.sent + [msg]) + lost == st.sent + news;
      NeutralAppend([msg], lost);
    }
  }

  /** The delivered reply to a login is the last message and the only one that concerns the key. */
  lemma DeliveryGrows(st: State, q: State, before: seq<Msg>, msg: Msg, k: int)
    requires KeysOk(st) && HistoryOk(st) && KeyFrame(st, q)
    requires k in st.ukeys && msg.to == st.ukeys[k] && IsDelivery(msg, k) && Neutral(before)
    requires q.sent == st.sent + (before + [msg])
    requires KeysOk(q) && q.sessions.Keys == st.sessions.Keys && q.nextKey == st.nextKey
    requires q.sessions[st.ukeys[k]].utag == k
    ensures HistoryOk(q)
  {
    var s := st.ukeys[k];
    PendingSession(st, k);
    assert PendingOk(st, k, s);
    assert Owns(q, k, s) by { KeyOwned(q, s); }
    forall s' | Owns(st, k, s') ensures s' == s {
    }
    var news := before + [msg];
    forall m, k', t | m in news && KeyUse(m, k', t) ensures k' == k && t == s {
      assert m in before || m == msg;
    }
    hide KeysOk, KeyUse, KeyFrame, Owns;
    HistoryGrows(st, q, news, k, s);
  }

  lemma KeyOwned(q: State, s: Sid)
    requires KeysOk(q) && s in q.sessions && q.sessions[s].utag != 0
    ensures Owns(q, q.sessions[s].utag, s)
  {
  }

  lemma OneMoreDelivery(st: State, q: State, before: seq<Msg>, msg: Msg, k: int)
    requires CountsOk(st) && k in st.ukeys && k !in q.ukeys && (forall j <- q.ukeys :: j in st.ukeys)
    requires Neutral(before) && IsLoginReturn(msg.ctype) && msg.cause == Reply(k)
    requires q.sent == st.sent + (before + [msg])
    ensures CountsOk(q)
  {
    forall j: int ensures Deliveries(q.sent, j) + Pending(q, j) <= Forwards(q.sent, j) {
      CountsAppend(st.sent, before + [msg], j);
      CountsAppend(before, [msg], j);
      NeutralCounts(before, j);
      OneMessage(msg, j);
      assert Deliveries(st.sent, j) + Pending(st, j) <= Forwards(st.sent, j);
    }
  }

  lemma OneMessage(msg: Msg, k: int)
    ensures Forwards([msg], k) == if IsForward(msg, k) then 1 else 0
    ensures Deliveries([msg], k) == if IsDelivery(msg, k) then 1 else 0
  {
    assert [msg][1..] == [];
  }

  lemma NeutralKeeps(st: State, q: State, news: seq<Msg>)
    requires HistoryOk(st) && CountsOk(st) && KeyFrame(st, q) && Neutral(news) && q.sent == st.sent + news
    requires forall k <- q.ukeys :: k in st.ukeys
    ensures HistoryOk(q) && CountsOk(q)
  {
    HistoryGrows(st, q, news, 0, 0);
    forall j: int ensures Deliveries(q.sent, j) + Pending(q, j) <= Forwards(q.sent, j) {
      CountsAppend(st.sent, news, j);
      NeutralCounts(news, j);
      assert Deliveries(st.sent, j) + Pending(st, j) <= Forwards(st.sent, j);
    }
  }

  lemma LoggedInGrows(st: State, r: State, ctype: int, k: int, uid: int, news: seq<Msg>)
    requires KeysOk(st) && HistoryOk(st) && CountsOk(st)
    requires k in st.ukeys && st.ukeys[k] in r.sessions && r.sessions[st.ukeys[k]].utag == k
    requires KeyFrame(st, r) && r.sessions.Keys == st.sessions.Keys && r.nextKey == st.nextKey
    requires r.sent == st.sent + news && Neutral(news) && IsLoginReturn(ctype)
    requires k !in r.ukeys && forall j <- r.ukeys :: j in st.ukeys
    requires KeysOk(LoggedIn(r, st.ukeys[k], ctype, k, uid))
    ensures var q := LoggedIn(r, st.ukeys[k], ctype, k, uid); HistoryOk(q) && CountsOk(q)
  {
    var q := LoggedIn(r, st.ukeys[k], ctype, k, uid);
    var msg := Msg(st.ukeys[k], AUTH, ctype, 0, Reply(k));
    hide KeysOk, HistoryOk, CountsOk, U32;
    Assoc(st.sent, news, [msg]);
    assert KeyFrame(st, q);
    DeliveryGrows(st, q, news, msg, k);
    OneMoreDelivery(st, q, news, msg, k);
  }

  lemma AcceptedKeeps(st: State, e: Event, services: seq<int>)
    requires Good(st) && services != []
    requires e.FromBackend? && UidFits(e) && IsLoginReturn(e.ctype) && e.tag in st.ukeys && e.body.Accepted?
    ensures var q := SendToClient(st, e.stype, e.ctype, e.tag, e.body, services); HistoryOk(q) && CountsOk(q)
  {
    var k, s, uid := e.tag, st.ukeys[e.tag], e.body.uid;
    var st1 := st.(ukeys := st.ukeys - {k});
    PendingSession(st, k);
    assert UidsOk(st1) by { hide KeysOk, HistoryOk, CountsOk; }
    hide KeysOk, UidsOk, HistoryOk, CountsOk, LoggedIn, OlderClosed;
    SendToClientKeeps(st, e, services);
    OlderClosedKeeps(st1, s, uid, services);
    var news := OlderClosedSends(st1, s, uid, services);
    LoggedInGrows(st, OlderClosed(st1, s, uid, services), e.ctype, k, uid, news);
  }

  lemma LoginReplyKeeps(st: State, e: Event, services: seq<int>)
    requires Good(st) && services != []
    requires e.FromBackend? && UidFits(e) && IsLoginReturn(e.ctype) && e.tag in st.ukeys
    ensures var q := SendToClient(st, e.stype, e.ctype, e.tag, e.body, services); HistoryOk(q) && CountsOk(q)
  {
    var k, s := e.tag, st.ukeys[e.tag];
    PendingSession(st, k);
    SendToClientKeeps(st, e, services);
    var q := SendToClient(st, e.stype, e.ctype, k, e.body, services);
    match e.body
    case Accepted(_) =>
      AcceptedKeeps(st, e, services);
    case Unreadable =>
      hide KeysOk, UidsOk, HistoryOk, CountsOk;
      Assoc(st.sent, [], []);
      NeutralKeeps(st, q, []);
    case Undecodable =>
    case Refused =>
      hide KeysOk, UidsOk, HistoryOk, CountsOk;
      var msg := Msg(s, e.stype, e.ctype, 0, Reply(k));
      assert [] + [msg] == [msg];
      assert KeyFrame(st, q);
      DeliveryGrows(st, q, [], msg, k);
      OneMoreDelivery(st, q, [], msg, k);
  }

  lemma ForwardKeeps(st: State, s: Sid, stype: int, ctype: int, table: bool)
    requires Good(st) && s in st.sessions && !st.sessions[s].asClient && !st.sessions[s].shut
    requires SendToServer(st, s, stype, ctype, table).nextKey <= KEY_LIMIT
    requires stype in st.servers && IsLoginRequest(ctype)
    ensures var q := SendToServer(st, s, stype, ctype, table); HistoryOk(q) && CountsOk(q)
  {
    var k := KeyFor(st, s);
    var msg := Msg(st.servers[stype], stype, ctype, k, Forwarded(s));
    var q := Send(Filed(st, s), msg);
    FiledKeeps(st, s);
    FitsU32(k);
    assert SendToServer(st, s, stype, ctype, table) == q;
    KeyOwned(Filed(st, s), s);
    FiledFrame(st, s, msg);
    hide KeysOk, UidsOk, HistoryOk, CountsOk, U32, Filed, KeyFor, SendToServer, Owns, KeyFrame;
    HistoryGrows(st, q, [msg], k, s);
    OneMoreForward(st, q, msg, k);
  }

  /** A login request is filed under a key that no other session has. */
  lemma FiledFrame(st: State, s: Sid, msg: Msg)
    requires KeysOk(st) && s in st.sessions && KeyFor(st, s) == U32(KeyFor(st, s))
    requires Owns(Filed(st, s), KeyFor(st, s), s)
    ensures var q := Send(Filed(st, s), msg); var k := KeyFor(st, s);
            && Owns(q, k, s) && KeyFrame(st, q) && (forall t | Owns(st, k, t) :: t == s)
            && forall j <- q.ukeys :: j == k || j in st.ukeys
  {
    hide U32;
    var k := KeyFor(st, s);
    assert forall t | Owns(st, k, t) :: t == s by {
      assert st.sessions[s].utag == k || k == st.nextKey;
    }
  }

  lemma OneMoreForward(st: State, q: State, msg: Msg, k: int)
    requires CountsOk(st) && IsForward(msg, k) && q.sent == st.sent + [msg]
    requires forall j <- q.ukeys :: j == k || j in st.ukeys
    ensures CountsOk(q)
  {
    forall j: int ensures Deliveries(q.sent, j) + Pending(q, j) <= Forwards(q.sent, j) {
      CountsAppend(st.sent, [msg], j);
      OneMessage(msg, j);
      assert Deliveries(st.sent, j) + Pending(st, j) <= Forwards(st.sent, j);
    }
  }

  /** A step that is neither a forwarded login request nor a delivered login reply. */
  lemma OtherStepKeeps(st: State, e: Event, services: seq<int>)
    requires Good(st) && services != []
    requires Enabled(st, e)
    requires e.FromClient? ==> !(e.stype in st.servers && IsLoginRequest(e.ctype))
    requires e.FromBackend? ==> !IsLoginReturn(e.ctype) || e.tag !in st.ukeys
    ensures var q := Step(st, e, services); HistoryOk(q) && CountsOk(q)
  {
    var q := Step(st, e, services);
    hide HistoryOk, CountsOk;
    assert st.sent + [] == st.sent;
    match e
    case Connect(s) =>
      NeutralKeeps(st, q, []);
    case BackendUp(stype, s) =>
      NeutralKeeps(st, q, []);
    case FromClient(s, stype, ctype, table) =>
      if stype in st.servers && st.sessions[s].uid != 0 && (ctype != LOGIC_LOGIN_REQ || table) {
        var cause := if ctype == LOGIC_LOGIN_REQ then Addressed(s) else Forwarded(s);
        OtherMessageKeeps(st, q, Msg(st.servers[stype], stype, ctype, U32(st.sessions[s].uid), cause));
      } else {
        NeutralKeeps(st, q, []);
      }
    case FromBackend(_, stype, ctype, tag, body) =>
      if !IsLoginReturn(ctype) && tag in st.uids {
        var msg := Msg(st.uids[tag], stype, ctype, 0, Reply(tag));
        assert q.sent == st.sent + [msg];
        OtherMessageKeeps(st, q, msg);
      } else {
        NeutralKeeps(st, q, []);
      }
    case Disconnect(s) =>
      var news := CloseSends(st, s, services);
      NeutralKeeps(st, q, news);
  }

  /** One message that concerns no key. */
  lemma OtherMessageKeeps(st: State, q: State, msg: Msg)
    requires HistoryOk(st) && CountsOk(st) && KeyFrame(st, q) && q.sent == st.sent + [msg]
    requires forall k <- q.ukeys :: k in st.ukeys
    requires msg.cause.Forwarded? ==> !IsLoginRequest(msg.ctype)
    requires msg.cause.Reply? ==> !IsLoginReturn(msg.ctype)
    ensures HistoryOk(q) && CountsOk(q)
  {
    HistoryGrows(st, q, [msg], 0, 0);
    forall j: int ensures Deliveries(q.sent, j) + Pending(q, j) <= Forwards(q.sent, j) {
      CountsAppend(st.sent, [msg], j);
      OneMessage(msg, j);
      assert Deliveries(st.sent, j) + Pending(st, j) <= Forwards(st.sent, j);
    }
  }

  lemma StepKeepsKeyHistory(st: State, e: Event, services: seq<int>)
    requires Good(st) && services != []
    requires Enabled(st, e) && UidFits(e) && Step(st, e, services).nextKey <= KEY_LIMIT
    ensures Good(Step(st, e, services))
  {
    StepKeeps(st, e, services);
    if e.FromBackend? && IsLoginReturn(e.ctype) && e.tag in st.ukeys {
      LoginReplyKeeps(st, e, services);
    } else if e.FromClient? && e.stype in st.servers && IsLoginRequest(e.ctype) {
      ForwardKeeps(st, e.s, e.stype, e.ctype, e.table);
    } else {
      OtherStepKeeps(st, e, services);
    }
  }

  lemma {:induction false} RunIsGood(st: State, events: seq<Event>, services: seq<int>)
    requires Good(st) && services != [] && EnabledRun(st, events, services)
    ensures Good(Run(st, events, services))
    decreases |events|
  {
    hide Good, Step, Enabled, UidFits;
    if events != [] {
      StepKeepsKeyHistory(st, events[0], services);
      RunIsGood(Step(st, events[0], services), events[1..], services);
    }
  }

  lemma ReachableIsGood(events: seq<Event>, services: seq<int>)
    requires services != [] && EnabledRun(INITIAL, events, services)
    ensures Good(Run(INITIAL, events, services))
  {
    assert Good(INITIAL);
    RunIsGood(INITIAL, events, services);
  }

  /** A temporary key serves one session ever: every login request forwarded under it and every login
      reply delivered for it, in a whole run, is that session's. */
  lemma KeyServesOneSession(events: seq<Event>, services: seq<int>, m: Msg, n: Msg, k: int, s: Sid, t: Sid)
    requires services != [] && EnabledRun(INITIAL, events, services)
    requires var sent := Run(INITIAL, events, services).sent; m in sent && n in sent
    requires KeyUse(m, k, s) && KeyUse(n, k, t)
    ensures s == t
  {
    ReachableIsGood(events, services);
    hide Run, KeyUse, EnabledRun;
  }

  /** Replies under a key are delivered at most as often as login requests were forwarded under it,
      and once less while a request is pending; a pending key names the open session that has it. */
  lemma RepliesArePaidFor(events: seq<Event>, services: seq<int>, k: int)
    requires services != [] && EnabledRun(INITIAL, events, services)
    ensures var q := Run(INITIAL, events, services);
            && Deliveries(q.sent, k) + Pending(q, k) <= Forwards(q.sent, k)
            && (k in q.ukeys ==> PendingOk(q, k, q.ukeys[k]))
  {
    ReachableIsGood(events, services);
    hide Run;
  }

  /** A reply to a login request of a session that has since been closed is dropped. */
  lemma LateReplyDropped(events: seq<Event>, services: seq<int>, m: Msg, k: int, s: Sid, e: Event)
    requires services != [] && EnabledRun(INITIAL, events, services)
    requires var q := Run(INITIAL, events, services); m in q.sent && s in q.sessions && q.sessions[s].shut
    requires KeyUse(m, k, s)
    requires e.FromBackend? && IsLoginReturn(e.ctype) && e.tag == k && Enabled(Run(INITIAL, events, services), e)
    ensures Step(Run(INITIAL, events, services), e, services) == Run(INITIAL, events, services)
  {
    ReachableIsGood(events, services);
    var q := Run(INITIAL, events, services);
    assert Owns(q, k, s);
    ShutIsNotPending(q, k, s);
  }

  lemma ShutIsNotPending(q: State, k: int, s: Sid)
    requires KeysOk(q) && Owns(q, k, s) && q.sessions[s].shut
    ensures k !in q.ukeys
  {
    assert k in q.ukeys ==> PendingOk(q, k, q.ukeys[k]);
  }
}
