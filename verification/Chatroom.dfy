/** The membership protocol of apps/lua/scripts/chatroom/chatroom_server.lua. A session stands for the
    address it is announced by. */
module Chatroom {

  type Sid = nat

  datatype Note =
    | LoginStatus(ok: bool)
    | ExitStatus(ok: bool)
    | SayStatus(ok: bool)
    | Joined(who: Sid)
    | Left(who: Sid)
    | Said(who: Sid, text: string)

  datatype Sent = Sent(to: Sid, note: Note)

  /** `members` is session_set; `sent` lists every message sent so far. */
  datatype State = State(members: seq<Sid>, sent: seq<Sent>)

  const INITIAL := State([], [])

  function Broadcast(members: seq<Sid>, note: Note, except: Sid): seq<Sent> {
    if members == [] then []
    else (if members[0] != except then [Sent(members[0], note)] else []) + Broadcast(members[1..], note, except)
  }

  function Without(members: seq<Sid>, s: Sid): seq<Sid> {
    if members == [] then []
    else if members[0] == s then members[1..]
    else [members[0]] + Without(members[1..], s)
  }

  datatype Event = Login(s: Sid) | Exit(s: Sid) | SendText(s: Sid, text: string) | Disconnect(s: Sid)

  /** A message to `s` itself, if any, and one note to every other member. */
  function Announce(s: Sid, answer: seq<Note>, members: seq<Sid>, note: Note): seq<Sent> {
    (if answer == [] then [] else [Sent(s, answer[0])]) + Broadcast(members, note, s)
  }

  function Step(st: State, e: Event): State {
    match e
    case Login(s) =>
      if s in st.members then st.(sent := st.sent + [Sent(s, LoginStatus(false))])
      else
        var members := st.members + [s];
        State(members, st.sent + Announce(s, [LoginStatus(true)], members, Joined(s)))
    case Exit(s) =>
      if s !in st.members then st.(sent := st.sent + [Sent(s, ExitStatus(false))])
      else State(Without(st.members, s), st.sent + Announce(s, [ExitStatus(true)], st.members, Left(s)))
    case SendText(s, text) =>
      if s !in st.members then st.(sent := st.sent + [Sent(s, SayStatus(false))])
      else st.(sent := st.sent + Announce(s, [SayStatus(true)], st.members, Said(s, text)))
    case Disconnect(s) =>
      if s !in st.members then st
      else State(Without(st.members, s), st.sent + Announce(s, [], st.members, Left(s)))
  }

  function Run(st: State, events: seq<Event>): State
    decreases |events|
  {
    if events == [] then st else Run(Step(st, events[0]), events[1..])
  }

  // -------------------------------------------------------------------------------------------
  // What a member makes of its messages
  // -------------------------------------------------------------------------------------------

  /** The notes sent to `m`, folded in order. */
  function Fold<A>(a: A, msgs: seq<Sent>, m: Sid, update: (A, Note) -> A): A
    decreases |msgs|
  {
    if msgs == [] then a
    else Fold(if msgs[0].to == m then update(a, msgs[0].note) else a, msgs[1..], m, update)
  }

  /** Who is here, according to the announcements since the last login. */
  function SeenUpdate(seen: seq<Sid>, note: Note): seq<Sid> {
    match note
    case LoginStatus(ok) => if ok then [] else seen
    case Joined(x) => seen + [x]
    case Left(x) => Without(seen, x)
    case _ => seen
  }

  function Seen(sent: seq<Sent>, m: Sid): seq<Sid> {
    Fold([], sent, m, SeenUpdate)
  }

  /** What the announcements about one other session amount to since the last login. `Broken` records a
      second join without a leave, or a second leave without a join. */
  datatype Ledger = Unknown | Present | Gone | Broken

  function LedgerUpdate(x: Sid): (Ledger, Note) -> Ledger {
    (l: Ledger, note: Note) =>
      if l == Broken then Broken
      else
        match note
        case LoginStatus(ok) => if ok then Unknown else l
        case Joined(y) => if y != x then l else if l == Present then Broken else Present
        case Left(y) => if y != x then l else if l == Gone then Broken else Gone
        case _ => l
  }

  function LedgerOf(sent: seq<Sent>, m: Sid, x: Sid): Ledger {
    Fold(Unknown, sent, m, LedgerUpdate(x))
  }

  predicate NoDuplicates(s: seq<Sid>) {
    forall i, j :: 0 <= i < j < |s| ==> s[i] != s[j]
  }

  /** The members behind `m`. */
  function After(members: seq<Sid>, m: Sid): seq<Sid> {
    if members == [] then [] else if members[0] == m then members[1..] else After(members[1..], m)
  }

  predicate LedgerOk(members: seq<Sid>, m: Sid, x: Sid, l: Ledger) {
    && l != Broken
    && (m in members ==>
          if x in After(members, m) then l == Present
          else if x in members then l == Unknown
          else l != Present)
  }

  ghost predicate Inv(st: State) {
    && NoDuplicates(st.members)
    && (forall m <- st.members :: Seen(st.sent, m) == After(st.members, m))
    && (forall m, x :: LedgerOk(st.members, m, x, LedgerOf(st.sent, m, x)))
  }

  lemma {:induction false} FoldAppend<A>(a: A, p: seq<Sent>, q: seq<Sent>, m: Sid, update: (A, Note) -> A)
    ensures Fold(a, p + q, m, update) == Fold(Fold(a, p, m, update), q, m, update)
    decreases |p|
  {
    if p == [] {
      assert p + q == q;
    } else {
      assert (p + q)[1..] == p[1..] + q;
      FoldAppend(if p[0].to == m then update(a, p[0].note) else a, p[1..], q, m, update);
    }
  }

  /** A broadcast reaches each member but one, exactly once, and nobody else. */
  lemma {:induction false} FoldBroadcast<A>(a: A, members: seq<Sid>, note: Note, except: Sid, m: Sid, update: (A, Note) -> A)
    requires NoDuplicates(members)
    ensures Fold(a, Broadcast(members, note, except), m, update)
         == if m in members && m != except then update(a, note) else a
    decreases |members|
  {
    if members != [] {
      var later := Broadcast(members[1..], note, except);
      assert NoDuplicates(members[1..]);
      assert members[0] !in members[1..];
      assert m in members <==> m == members[0] || m in members[1..];
      if members[0] == except {
        assert [] + later == later;
        FoldBroadcast(a, members[1..], note, except, m, update);
      } else {
        var one := Sent(members[0], note);
        assert ([one] + later)[1..] == later;
        FoldBroadcast(if one.to == m then update(a, note) else a, members[1..], note, except, m, update);
      }
    }
  }

  /** What `m` makes of a step that answers `s` and tells the other members. */
  lemma FoldAnnounce<A>(a: A, sent: seq<Sent>, s: Sid, answer: seq<Note>, members: seq<Sid>, note: Note, m: Sid,
                        update: (A, Note) -> A, was: A)
    requires NoDuplicates(members) && |answer| <= 1 && was == Fold(a, sent, m, update)
    ensures Fold(a, sent + Announce(s, answer, members, note), m, update)
         == if m == s then (if answer == [] then was else update(was, answer[0]))
            else if m in members then update(was, note) else was
  {
    var first: seq<Sent> := if answer == [] then [] else [Sent(s, answer[0])];
    FoldAppend(a, sent, Announce(s, answer, members, note), m, update);
    FoldAppend(was, first, Broadcast(members, note, s), m, update);
    FoldBroadcast(Fold(was, first, m, update), members, note, s, m, update);
    if answer != [] {
      assert first[1..] == [];
    }
  }

  // -------------------------------------------------------------------------------------------
  // Lists of members
  // -------------------------------------------------------------------------------------------

  lemma {:induction false} AfterAppend(members: seq<Sid>, s: Sid, m: Sid)
    requires s !in members
    ensures m == s ==> After(members + [s], m) == []
    ensures m in members ==> After(members + [s], m) == After(members, m) + [s]
  {
    if members == [] {
      assert ([s])[1..] == [];
      assert [] + [s] == [s];
    } else {
      assert (members + [s])[1..] == members[1..] + [s];
      AfterAppend(members[1..], s, m);
    }
  }

  lemma {:induction false} WithoutMembers(members: seq<Sid>, s: Sid)
    requires NoDuplicates(members)
    ensures NoDuplicates(Without(members, s))
    ensures forall x :: x in Without(members, s) <==> x in members && x != s
  {
    if members != [] {
      var rest := members[1..];
      assert members == [members[0]] + rest;
      assert members[0] !in rest;
      WithoutMembers(rest, s);
    }
  }

  lemma {:induction false} WithoutAbsent(members: seq<Sid>, s: Sid)
    requires s !in members
    ensures Without(members, s) == members
  {
    if members != [] {
      WithoutAbsent(members[1..], s);
      assert members == [members[0]] + members[1..];
    }
  }

  lemma {:induction false} AfterMembers(members: seq<Sid>, m: Sid)
    requires NoDuplicates(members)
    ensures NoDuplicates(After(members, m)) && m !in After(members, m)
    ensures forall x <- After(members, m) :: x in members
  {
    if members != [] {
      assert members[0] !in members[1..];
      AfterMembers(members[1..], m);
    }
  }

  lemma {:induction false} AfterWithout(members: seq<Sid>, s: Sid, m: Sid)
    requires NoDuplicates(members) && m != s && m in members
    ensures After(Without(members, s), m) == Without(After(members, m), s)
  {
    var rest := members[1..];
    assert members == [members[0]] + rest;
    if members[0] == s {
      AfterMembers(rest, m);
      WithoutAbsent(After(rest, m), s);
    } else if members[0] == m {
      assert ([m] + Without(rest, s))[1..] == Without(rest, s);
    } else {
      AfterWithout(rest, s, m);
      assert ([members[0]] + Without(rest, s))[1..] == Without(rest, s);
    }
  }

  // -------------------------------------------------------------------------------------------
  // Every run
  // -------------------------------------------------------------------------------------------

  lemma ReplyKeeps(st: State, s: Sid, note: Note)
    requires Inv(st) && note in {LoginStatus(false), ExitStatus(false), SayStatus(false)}
    ensures Inv(st.(sent := st.sent + [Sent(s, note)]))
  {
    var q := st.(sent := st.sent + [Sent(s, note)]);
    assert [Sent(s, note)][1..] == [];
    forall m | m in q.members ensures Seen(q.sent, m) == After(q.members, m) {
      FoldAppend([], st.sent, [Sent(s, note)], m, SeenUpdate);
    }
    forall m, x ensures LedgerOk(q.members, m, x, LedgerOf(q.sent, m, x)) {
      FoldAppend(Unknown, st.sent, [Sent(s, note)], m, LedgerUpdate(x));
      assert LedgerOk(st.members, m, x, LedgerOf(st.sent, m, x));
    }
  }

  lemma LoginKeeps(st: State, s: Sid)
    requires Inv(st) && s !in st.members
    ensures Inv(Step(st, Login(s)))
  {
    var q := Step(st, Login(s));
    assert NoDuplicates(q.members);
    forall m | m in q.members ensures Seen(q.sent, m) == After(q.members, m) {
      FoldAnnounce([], st.sent, s, [LoginStatus(true)], q.members, Joined(s), m, SeenUpdate, Seen(st.sent, m));
      AfterAppend(st.members, s, m);
    }
    forall m, x ensures LedgerOk(q.members, m, x, LedgerOf(q.sent, m, x)) {
      FoldAnnounce(Unknown, st.sent, s, [LoginStatus(true)], q.members, Joined(s), m, LedgerUpdate(x),
                   LedgerOf(st.sent, m, x));
      AfterAppend(st.members, s, m);
      AfterMembers(st.members, m);
      assert LedgerOk(st.members, m, x, LedgerOf(st.sent, m, x));
    }
  }

  lemma LeaveKeeps(st: State, s: Sid, answer: seq<Note>)
    requires Inv(st) && s in st.members && answer in {[], [ExitStatus(true)]}
    ensures Inv(State(Without(st.members, s), st.sent + Announce(s, answer, st.members, Left(s))))
  {
    var q := State(Without(st.members, s), st.sent + Announce(s, answer, st.members, Left(s)));
    WithoutMembers(st.members, s);
    forall m | m in q.members ensures Seen(q.sent, m) == After(q.members, m) {
      FoldAnnounce([], st.sent, s, answer, st.members, Left(s), m, SeenUpdate, Seen(st.sent, m));
      AfterWithout(st.members, s, m);
    }
    forall m, x ensures LedgerOk(q.members, m, x, LedgerOf(q.sent, m, x)) {
      FoldAnnounce(Unknown, st.sent, s, answer, st.members, Left(s), m, LedgerUpdate(x), LedgerOf(st.sent, m, x));
      assert LedgerOk(st.members, m, x, LedgerOf(st.sent, m, x));
      if m in q.members {
        AfterWithout(st.members, s, m);
        AfterMembers(st.members, m);
        WithoutMembers(After(st.members, m), s);
      }
    }
  }

  lemma TextKeeps(st: State, s: Sid, text: string)
    requires Inv(st) && s in st.members
    ensures Inv(Step(st, SendText(s, text)))
  {
    var q := Step(st, SendText(s, text));
    forall m | m in q.members ensures Seen(q.sent, m) == After(q.members, m) {
      FoldAnnounce([], st.sent, s, [SayStatus(true)], st.members, Said(s, text), m, SeenUpdate, Seen(st.sent, m));
    }
    forall m, x ensures LedgerOk(q.members, m, x, LedgerOf(q.sent, m, x)) {
      FoldAnnounce(Unknown, st.sent, s, [SayStatus(true)], st.members, Said(s, text), m, LedgerUpdate(x),
                   LedgerOf(st.sent, m, x));
      assert LedgerOk(st.members, m, x, LedgerOf(st.sent, m, x));
    }
  }

  lemma StepKeeps(st: State, e: Event)
    requires Inv(st)
    ensures Inv(Step(st, e))
  {
    hide Inv;
    match e
    case Login(s) =>
      if s in st.members { ReplyKeeps(st, s, LoginStatus(false)); } else { LoginKeeps(st, s); }
    case Exit(s) =>
      if s !in st.members { ReplyKeeps(st, s, ExitStatus(false)); } else { LeaveKeeps(st, s, [ExitStatus(true)]); }
    case SendText(s, text) =>
      if s !in st.members { ReplyKeeps(st, s, SayStatus(false)); } else { TextKeeps(st, s, text); }
    case Disconnect(s) =>
      if s in st.members { LeaveKeeps(st, s, []); }
  }

  lemma {:induction false} RunKeeps(st: State, events: seq<Event>)
    requires Inv(st)
    ensures Inv(Run(st, events))
    decreases |events|
  {
    hide Inv, Step;
    if events != [] {
      StepKeeps(st, events[0]);
      RunKeeps(Step(st, events[0]), events[1..]);
    }
  }

  /** In every run of logins, exits, texts and disconnects, what a member has been told since its login
      is exactly who joined behind it, in order; and nobody is ever told of a second join without a
      leave in between, or of a second leave without a join. */
  lemma MembersSeeWhoIsBehindThem(events: seq<Event>, m: Sid, x: Sid)
    ensures var q := Run(INITIAL, events);
            && NoDuplicates(q.members)
            && (m in q.members ==> Seen(q.sent, m) == After(q.members, m))
            && LedgerOk(q.members, m, x, LedgerOf(q.sent, m, x))
  {
    assert Inv(INITIAL);
    RunKeeps(INITIAL, events);
    hide Run;
  }

  /** A text reaches every other member once, and nobody else: of what any session is sent by the step,
      the texts are exactly that one. */
  lemma TextReachesOthers(events: seq<Event>, s: Sid, text: string, m: Sid)
    ensures var q := Run(INITIAL, events);
            Texts(Step(q, SendText(s, text)).sent, m)
              == Texts(q.sent, m) + if s in q.members && m in q.members && m != s then [Said(s, text)] else []
  {
    MembersSeeWhoIsBehindThem(events, m, s);
    var q := Run(INITIAL, events);
    hide Run;
    StepFold(q, SendText(s, text), m, [], TextUpdate);
    assert Texts(q.sent, m) + [] == Texts(q.sent, m);
  }

  function TextUpdate(texts: seq<Note>, note: Note): seq<Note> {
    if note.Said? then texts + [note] else texts
  }

  function Texts(sent: seq<Sent>, m: Sid): seq<Note> {
    Fold([], sent, m, TextUpdate)
  }

  /** Who is a member after an event. */
  lemma MembersAfter(events: seq<Event>, e: Event, x: Sid)
    ensures var q := Run(INITIAL, events);
            (x in Step(q, e).members)
              == (match e
                  case Login(s) => x in q.members || x == s
                  case SendText(_, _) => x in q.members
                  case Exit(s) => x in q.members && x != s
                  case Disconnect(s) => x in q.members && x != s)
  {
    MembersSeeWhoIsBehindThem(events, x, x);
    var q := Run(INITIAL, events);
    hide Run;
    WithoutMembers(q.members, e.s);
  }

  function AnswerUpdate(answers: seq<Note>, note: Note): seq<Note> {
    if note.LoginStatus? || note.ExitStatus? || note.SayStatus? then answers + [note] else answers
  }

  function Answers(sent: seq<Sent>, m: Sid): seq<Note> {
    Fold([], sent, m, AnswerUpdate)
  }

  function NewsUpdate(news: seq<Note>, note: Note): seq<Note> {
    if note.Joined? || note.Left? then news + [note] else news
  }

  function News(sent: seq<Sent>, m: Sid): seq<Note> {
    Fold([], sent, m, NewsUpdate)
  }

  /** Every request is answered once, to its sender alone, with whether it could be met: a login only by who
      is no member yet, the others only by who is one. */
  lemma RequestsAnswered(events: seq<Event>, e: Event, m: Sid)
    ensures var q := Run(INITIAL, events); var member := e.s in q.members;
            Answers(Step(q, e).sent, m)
              == Answers(q.sent, m) + if m != e.s || e.Disconnect? then []
                                      else [match e
                                            case Login(_) => LoginStatus(!member)
                                            case Exit(_) => ExitStatus(member)
                                            case SendText(_, _) => SayStatus(member)]
  {
    MembersSeeWhoIsBehindThem(events, m, m);
    var q := Run(INITIAL, events);
    hide Run;
    StepFold(q, e, m, [], AnswerUpdate);
    assert Answers(q.sent, m) + [] == Answers(q.sent, m);
  }

  /** Every other member learns once of who joins and who leaves, and nobody learns anything else. */
  lemma MembersTold(events: seq<Event>, e: Event, m: Sid)
    ensures var q := Run(INITIAL, events); var member := e.s in q.members;
            News(Step(q, e).sent, m)
              == News(q.sent, m) + if m == e.s || m !in q.members then []
                                   else match e
                                        case Login(s) => if member then [] else [Joined(s)]
                                        case SendText(_, _) => []
                                        case _ => if member then [Left(e.s)] else []
  {
    MembersSeeWhoIsBehindThem(events, m, m);
    var q := Run(INITIAL, events);
    hide Run;
    StepFold(q, e, m, [], NewsUpdate);
    assert News(q.sent, m) + [] == News(q.sent, m);
  }

  /** What any session makes of one step: its own answer, or the note to the other members. */
  lemma StepFold<A>(st: State, e: Event, m: Sid, a: A, update: (A, Note) -> A)
    requires NoDuplicates(st.members)
    ensures var was := Fold(a, st.sent, m, update); var now := Fold(a, Step(st, e).sent, m, update);
            var member := e.s in st.members;
            now == match e
                   case Login(s) =>
                     if m == s then update(was, LoginStatus(!member))
                     else if !member && m in st.members then update(was, Joined(s)) else was
                   case Exit(s) =>
                     if m == s then update(was, ExitStatus(member))
                     else if member && m in st.members then update(was, Left(s)) else was
                   case SendText(s, text) =>
                     if m == s then update(was, SayStatus(member))
                     else if member && m in st.members then update(was, Said(s, text)) else was
                   case Disconnect(s) =>
                     if m != s && member && m in st.members then update(was, Left(s)) else was
  {
    var was := Fold(a, st.sent, m, update);
    match e
    case Login(s) =>
      if s in st.members {
        OneNote(a, st.sent, s, LoginStatus(false), m, update);
      } else {
        assert NoDuplicates(st.members + [s]);
        FoldAnnounce(a, st.sent, s, [LoginStatus(true)], st.members + [s], Joined(s), m, update, was);
      }
    case Exit(s) =>
      if s in st.members {
        FoldAnnounce(a, st.sent, s, [ExitStatus(true)], st.members, Left(s), m, update, was);
      } else {
        OneNote(a, st.sent, s, ExitStatus(false), m, update);
      }
    case SendText(s, text) =>
      if s in st.members {
        FoldAnnounce(a, st.sent, s, [SayStatus(true)], st.members, Said(s, text), m, update, was);
      } else {
        OneNote(a, st.sent, s, SayStatus(false), m, update);
      }
    case Disconnect(s) =>
      if s in st.members {
        FoldAnnounce(a, st.sent, s, [], st.members, Left(s), m, update, was);
      }
  }

  lemma OneNote<A>(a: A, sent: seq<Sent>, s: Sid, note: Note, m: Sid, update: (A, Note) -> A)
    ensures Fold(a, sent + [Sent(s, note)], m, update)
         == if m == s then update(Fold(a, sent, m, update), note) else Fold(a, sent, m, update)
  {
    FoldAppend(a, sent, [Sent(s, note)], m, update);
    assert [Sent(s, note)][1..] == [];
  }

  // -------------------------------------------------------------------------------------------
  // The service
  // -------------------------------------------------------------------------------------------

  lemma {:induction false} BroadcastAppend(a: seq<Sid>, b: seq<Sid>, note: Note, except: Sid)
    ensures Broadcast(a + b, note, except) == Broadcast(a, note, except) + Broadcast(b, note, except)
  {
    if a == [] {
      assert a + b == b;
    } else {
      assert (a + b)[1..] == a[1..] + b;
      BroadcastAppend(a[1..], b, note, except);
    }
  }

  /** Removing the entry found first. */
  lemma {:induction false} WithoutAt(members: seq<Sid>, s: Sid, i: nat)
    requires i < |members| && members[i] == s && s !in members[..i]
    ensures Without(members, s) == members[..i] + members[i + 1..]
  {
    if i > 0 {
      assert members[0] == members[..i][0];
      assert members[..i][1..] == members[1..][..i - 1];
      WithoutAt(members[1..], s, i - 1);
      assert members[..i] == [members[0]] + members[1..][..i - 1];
    }
  }

  class Room {
    var sessionSet: seq<Sid>
    var sent: seq<Sent>

    ghost function Now(): State
      reads this
    {
      State(sessionSet, sent)
    }

    constructor ()
      ensures Now() == INITIAL
    {
      sessionSet, sent := [], [];
    }

    method SendMsg(to: Sid, note: Note)
      modifies this`sent
      ensures sent == old(sent) + [Sent(to, note)]
    {
      sent := sent + [Sent(to, note)];
    }

    method BroadcastExcept(note: Note, except: Sid)
      modifies this`sent
      ensures sent == old(sent) + Broadcast(sessionSet, note, except)
    {
      for i := 0 to |sessionSet|
        invariant sent == old(sent) + Broadcast(sessionSet[..i], note, except)
      {
        BroadcastAppend(sessionSet[..i], [sessionSet[i]], note, except);
        assert sessionSet[..i + 1] == sessionSet[..i] + [sessionSet[i]];
        assert [sessionSet[i]][1..] == [];
        if sessionSet[i] != except {
          SendMsg(sessionSet[i], note);
        }
      }
      assert sessionSet[..|sessionSet|] == sessionSet;
    }

    method OnRecvLoginCmd(s: Sid)
      modifies this
      ensures Now() == Step(old(Now()), Login(s))
    {
      for i := 0 to |sessionSet|
        invariant s !in sessionSet[..i] && Now() == old(Now())
      {
        if sessionSet[i] == s {
          SendMsg(s, LoginStatus(false));
          return;
        }
      }
      sessionSet := sessionSet + [s];
      SendMsg(s, LoginStatus(true));
      BroadcastExcept(Joined(s), s);
    }

    method OnRecvExitCmd(s: Sid)
      modifies this
      ensures Now() == Step(old(Now()), Exit(s))
    {
      for i := 0 to |sessionSet|
        invariant s !in sessionSet[..i] && Now() == old(Now())
      {
        if sessionSet[i] == s {
          SendMsg(s, ExitStatus(true));
          BroadcastExcept(Left(s), s);
          WithoutAt(sessionSet, s, i);
          sessionSet := sessionSet[..i] + sessionSet[i + 1..];
          return;
        }
      }
      SendMsg(s, ExitStatus(false));
    }

    method OnRecvSendMsgCmd(s: Sid, text: string)
      modifies this
      ensures Now() == Step(old(Now()), SendText(s, text))
    {
      for i := 0 to |sessionSet|
        invariant s !in sessionSet[..i] && Now() == old(Now())
      {
        if sessionSet[i] == s {
          SendMsg(s, SayStatus(true));
          BroadcastExcept(Said(s, text), s);
          return;
        }
      }
      SendMsg(s, SayStatus(false));
    }

    method SessionDisconnect(s: Sid)
      modifies this
      ensures Now() == Step(old(Now()), Disconnect(s))
    {
      for i := 0 to |sessionSet|
        invariant s !in sessionSet[..i] && Now() == old(Now())
      {
        if sessionSet[i] == s {
          BroadcastExcept(Left(s), s);
          WithoutAt(sessionSet, s, i);
          sessionSet := sessionSet[..i] + sessionSet[i + 1..];
          return;
        }
      }
    }
  }
}
