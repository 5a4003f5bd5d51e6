/**
 The second session that method calls travel over. Calls, disconnects and reconnects share three fields -- the main
 session, the call session and the cancellation source of the next disconnect -- and touch them one atomic access at
 a time, so a run of the protocol is any interleaving of the accesses below. Only the lock holder installs a call
 session; anybody may take it down.
 */
module CallSession {
  import opened Options

  type MainId = nat
  type CallId = nat
  type Token = nat
  type ThreadId = nat

  /** The one loop that connects; disposing the client only disconnects. */
  const CONNECTOR: ThreadId := 0

  /** What a thread does next. `Option<CallId>` is what its last exchange of the call session field handed it. */
  datatype Phase =
    // DisconnectAsync; `reconnect` when ConnectAsync is what runs it
    | Forgetting(reconnect: bool)
    | Renewing(reconnect: bool)
    | Cancelling(reconnect: bool, token: Token)
    | Closing(reconnect: bool)
    | DisposingClosed(reconnect: bool, closed: Option<CallId>)
    // the rest of ConnectAsync
    | Connecting
    // GetCallSessionAsync
    | WaitingForLock
    | Locked
    | TokenRead(token: Token)
    | MainRead(token: Token, main: MainId)
    | Replacing(token: Token, main: MainId)
    | DisposingOld(token: Token, main: MainId, closed: Option<CallId>)
    | Creating(token: Token, main: MainId)
    | Installing(token: Token, main: MainId, session: CallId)
    | CheckingToken(token: Token, main: MainId, session: CallId)
    | CheckingMain(main: MainId, session: CallId)
    | Withdrawing
    | DisposingOwn(closed: Option<CallId>)
    // the rest of CallAsync
    | Calling(session: CallId)
    | Dropping(session: CallId)
  {
    predicate HoldsLock() {
      Locked? || TokenRead? || MainRead? || Replacing? || DisposingOld? || Creating? || Installing? || CheckingToken?
      || CheckingMain? || Withdrawing? || DisposingOwn?
    }

    /** Between forgetting the main session and closing the call session. */
    predicate DisconnectUnderway() {
      Renewing? || Cancelling? || Closing?
    }

    /** Between installing a call session and being done with checking it. */
    predicate CheckUnderway() {
      CheckingToken? || CheckingMain? || Withdrawing?
    }

    /** The call session this thread, and no other, is about to install or dispose. */
    function Hand(): Option<CallId> {
      match this
      case DisposingClosed(_, closed) => closed
      case DisposingOld(_, _, closed) => closed
      case DisposingOwn(closed) => closed
      case Installing(_, _, session) => Some(session)
      case Dropping(session) => Some(session)
      case _ => None
    }
  }

  /** The fields every thread reads and writes, with a record of what became of every call session. */
  datatype Shared = Shared(
    main: Option<MainId>,
    call: Option<CallId>,
    token: Token,
    cancelled: set<Token>,
    /** Every call session ever created, with the main session its opener had read. */
    created: seq<MainId>,
    disposals: multiset<CallId>,
    /** The call sessions that a disconnect has taken down. */
    ended: set<CallId>,
    nextMain: MainId,
    nextToken: Token)

  datatype State = State(shared: Shared, threads: map<ThreadId, Phase>)

  const Initial := State(Shared(None, None, 0, {}, [], multiset{}, {}, 0, 1), map[])

  function Dispose(s: Shared, closed: Option<CallId>): Shared {
    if closed.Some? then s.(disposals := s.disposals + multiset{closed.value}) else s
  }

  /**
   The next atomic access of a thread in phase `p`: what it leaves the fields as, and the thread's next phase, None
   when it is done. `ok` stands for whatever the thread cannot know beforehand: whether the sessions are connected
   and the fate of its requests.
   */
  function Access(s: Shared, lockFree: bool, p: Phase, ok: bool): (Shared, Option<Phase>) {
    match p
    case Forgetting(reconnect) => (s.(main := None), Some(Renewing(reconnect)))
    case Renewing(reconnect) =>
      (s.(token := s.nextToken, nextToken := s.nextToken + 1), Some(Cancelling(reconnect, s.token)))
    case Cancelling(reconnect, token) => (s.(cancelled := s.cancelled + {token}), Some(Closing(reconnect)))
    case Closing(reconnect) =>
      (s.(call := None, ended := s.ended + if s.call.Some? then {s.call.value} else {}),
       Some(DisposingClosed(reconnect, s.call)))
    case DisposingClosed(reconnect, closed) => (Dispose(s, closed), if reconnect then Some(Connecting) else None)
    case Connecting => (if ok then s.(main := Some(s.nextMain), nextMain := s.nextMain + 1) else s, None)
    case WaitingForLock => (s, Some(if lockFree then Locked else WaitingForLock))
    case Locked => (s, Some(TokenRead(s.token)))
    case TokenRead(token) => (s, if s.main.None? || !ok then None else Some(MainRead(token, s.main.value)))
    case MainRead(token, main) =>
      (s, Some(if s.call.Some? && ok then Calling(s.call.value) else Replacing(token, main)))
    case Replacing(token, main) => (s.(call := None), Some(DisposingOld(token, main, s.call)))
    case DisposingOld(token, main, closed) => (Dispose(s, closed), Some(Creating(token, main)))
    case Creating(token, main) =>
      if ok then (s.(created := s.created + [main]), Some(Installing(token, main, |s.created|))) else (s, None)
    case Installing(token, main, session) => (s.(call := Some(session)), Some(CheckingToken(token, main, session)))
    case CheckingToken(token, main, session) =>
      (s, Some(if token in s.cancelled then Withdrawing else CheckingMain(main, session)))
    case CheckingMain(main, session) => (s, Some(if s.main != Some(main) then Withdrawing else Calling(session)))
    case Withdrawing => (s.(call := None), Some(DisposingOwn(s.call)))
    case DisposingOwn(closed) => (Dispose(s, closed), None)
    case Calling(session) =>
      if !ok && s.call == Some(session) then (s.(call := None), Some(Dropping(session))) else (s, None)
    case Dropping(session) => (Dispose(s, Some(session)), None)
  }

  datatype Start = Disconnect | Connect | Call

  datatype Event = Begin(thread: ThreadId, start: Start) | Advance(thread: ThreadId, ok: bool)

  predicate LockFree(s: State) {
    forall t :: t in s.threads ==> !s.threads[t].HoldsLock()
  }

  /** One atomic access, or a thread starting. An event that is not possible in `s` leaves it unchanged. */
  function Step(s: State, e: Event): State {
    match e
    case Begin(t, start) =>
      if t in s.threads || (start.Connect? && t != CONNECTOR) then s
      else s.(threads := s.threads[t := if start.Call? then WaitingForLock else Forgetting(start.Connect?)])
    case Advance(t, ok) =>
      if t !in s.threads then s
      else
        var (shared, next) := Access(s.shared, LockFree(s), s.threads[t], ok);
        State(shared, if next.Some? then s.threads[t := next.value] else s.threads - {t})
  }

  /** The state any interleaving leads to. */
  function After(events: seq<Event>): State {
    if events == [] then Initial else Step(After(events[..|events| - 1]), events[|events| - 1])
  }

  // ------------------------------------------------------------------------------------------------------------
  // What one thread relies on, and what it leaves for the others

  ghost predicate SharedOk(s: Shared) {
    && (s.call.Some? ==> s.call.value < |s.created| && s.disposals[s.call.value] == 0)
    && (forall c: CallId :: s.disposals[c] <= if c < |s.created| then 1 else 0)
  }

  /** Installed by the thread's own opener: what it read the main session for, unless taken down since. */
  ghost predicate OwnInstalled(s: Shared, main: MainId, session: CallId) {
    session < |s.created| && s.created[session] == main && (s.call.Some? ==> s.call == Some(session))
  }

  ghost predicate ReconnectOk(s: Shared, t: ThreadId, reconnect: bool) {
    reconnect ==> t == CONNECTOR && s.main.None?
  }

  ghost predicate ThreadOk(s: Shared, t: ThreadId, p: Phase) {
    && (p.Hand().Some? ==> var c := p.Hand().value; c < |s.created| && s.call != Some(c) && s.disposals[c] == 0)
    && match p
       case Forgetting(reconnect) => reconnect ==> t == CONNECTOR
       case Renewing(reconnect) => ReconnectOk(s, t, reconnect)
       case Cancelling(reconnect, _) => ReconnectOk(s, t, reconnect)
       case Closing(reconnect) => ReconnectOk(s, t, reconnect)
       case DisposingClosed(reconnect, _) => ReconnectOk(s, t, reconnect)
       case Connecting => ReconnectOk(s, t, true)
       case DisposingOld(_, _, _) => s.call.None?
       case Creating(_, _) => s.call.None?
       case Installing(_, main, session) => s.call.None? && s.created[session] == main
       case CheckingToken(_, main, session) => OwnInstalled(s, main, session)
       case CheckingMain(main, session) => OwnInstalled(s, main, session)
       case _ => true
  }

  /** No two threads hold the lock, and no call session is in two hands. */
  ghost predicate Compatible(p: Phase, q: Phase) {
    && !(p.HoldsLock() && q.HoldsLock())
    && (p.Hand().Some? ==> p.Hand() != q.Hand())
  }

  /** The installed call session does not belong to the current main session. */
  ghost predicate Stale(s: Shared) {
    s.call.Some? && s.call.value < |s.created| && s.main != Some(s.created[s.call.value])
  }

  /** Created, not installed, and not disposed: some thread must be holding it. */
  ghost predicate Loose(s: Shared, c: CallId) {
    c < |s.created| && s.disposals[c] == 0 && s.call != Some(c)
  }

  /** All an access by a thread in phase `p` can do to the fields. */
  ghost predicate Effect(s: Shared, p: Phase, s': Shared) {
    && s.created <= s'.created
    && (s'.call == s.call || s'.call.None? || (p.Installing? && s'.call == Some(p.session)))
    && (s'.main == s.main || s'.main.None? || p.Connecting?)
    && (forall c: CallId :: s'.disposals[c] == s.disposals[c] || p.Hand() == Some(c))
  }

  /** All the thread's next phase can be, as far as the other threads can tell. */
  ghost predicate NextEffect(s: Shared, lockFree: bool, p: Phase, next: Phase) {
    && (next.HoldsLock() ==> p.HoldsLock() || lockFree)
    && (next.Hand().Some? ==> next.Hand() == p.Hand() || next.Hand() == s.call || next.Hand() == Some(|s.created|))
  }

  lemma AccessEffect(s: Shared, lockFree: bool, p: Phase, ok: bool)
    ensures Effect(s, p, Access(s, lockFree, p, ok).0)
  {}

  lemma AccessNextEffect(s: Shared, lockFree: bool, p: Phase, ok: bool)
    ensures var next := Access(s, lockFree, p, ok).1; next.Some? ==> NextEffect(s, lockFree, p, next.value)
  {}

  lemma OwnSharedStep(s: Shared, lockFree: bool, t: ThreadId, p: Phase, ok: bool)
    requires SharedOk(s) && ThreadOk(s, t, p)
    ensures SharedOk(Access(s, lockFree, p, ok).0)
  {}

  lemma OwnStep(s: Shared, lockFree: bool, t: ThreadId, p: Phase, ok: bool)
    requires SharedOk(s) && ThreadOk(s, t, p)
    ensures var (s', next) := Access(s, lockFree, p, ok); next.Some? ==> ThreadOk(s', t, next.value)
  {}

  lemma Stable(s: Shared, t: ThreadId, p: Phase, s': Shared, u: ThreadId, q: Phase)
    requires ThreadOk(s, t, p) && ThreadOk(s, u, q) && t != u && Compatible(p, q) && Effect(s, p, s')
    ensures ThreadOk(s', u, q)
  {}

  lemma StillCompatible(s: Shared, lockFree: bool, p: Phase, next: Phase, u: ThreadId, q: Phase)
    requires ThreadOk(s, u, q) && Compatible(p, q) && NextEffect(s, lockFree, p, next)
    requires lockFree ==> !q.HoldsLock()
    ensures Compatible(next, q) && Compatible(q, next)
  {}

  lemma OtherStays(s: Shared, lockFree: bool, t: ThreadId, p: Phase, ok: bool, u: ThreadId, q: Phase)
    requires SharedOk(s) && ThreadOk(s, t, p) && ThreadOk(s, u, q) && t != u && Compatible(p, q)
    requires lockFree ==> !q.HoldsLock()
    ensures var (s', next) := Access(s, lockFree, p, ok);
            ThreadOk(s', u, q) && (next.Some? ==> Compatible(next.value, q) && Compatible(q, next.value))
  {
    var (s', next) := Access(s, lockFree, p, ok);
    AccessEffect(s, lockFree, p, ok);
    Stable(s, t, p, s', u, q);
    if next.Some? {
      AccessNextEffect(s, lockFree, p, ok);
      StillCompatible(s, lockFree, p, next.value, u, q);
    }
  }

  lemma LooseStep(s: Shared, lockFree: bool, t: ThreadId, p: Phase, ok: bool, c: CallId)
    requires SharedOk(s) && ThreadOk(s, t, p)
    ensures var (s', next) := Access(s, lockFree, p, ok);
            Loose(s', c) ==> (next.Some? && next.value.Hand() == Some(c)) || (Loose(s, c) && p.Hand() != Some(c))
  {}

  lemma StaleStep(s: Shared, lockFree: bool, t: ThreadId, p: Phase, ok: bool)
    requires SharedOk(s) && ThreadOk(s, t, p)
    ensures var (s', next) := Access(s, lockFree, p, ok);
            Stale(s') ==> (next.Some? && (next.value.DisconnectUnderway() || next.value.CheckUnderway()))
                          || (Stale(s) && !p.DisconnectUnderway() && !p.CheckUnderway())
  {}

  // ------------------------------------------------------------------------------------------------------------
  // Every interleaving

  ghost predicate Held(s: State, c: CallId) {
    exists t :: t in s.threads && s.threads[t].Hand() == Some(c)
  }

  ghost predicate MidWay(s: State) {
    exists t :: t in s.threads && (s.threads[t].DisconnectUnderway() || s.threads[t].CheckUnderway())
  }

  ghost predicate Inv(s: State) {
    && ThreadsOk(s)
    && (forall c :: Loose(s.shared, c) ==> Held(s, c))
    && (Stale(s.shared) ==> MidWay(s))
  }

  ghost predicate ThreadsOk(s: State) {
    && SharedOk(s.shared)
    && (forall t :: t in s.threads ==> ThreadOk(s.shared, t, s.threads[t]))
    && (forall t, u :: t in s.threads && u in s.threads && t != u ==> Compatible(s.threads[t], s.threads[u]))
  }

  lemma AdvanceKeepsThreads(s: State, t: ThreadId, ok: bool)
    requires ThreadsOk(s) && t in s.threads
    ensures ThreadsOk(Step(s, Advance(t, ok)))
  {
    var s' := Step(s, Advance(t, ok));
    var p, lockFree := s.threads[t], LockFree(s);
    OwnStep(s.shared, lockFree, t, p, ok);
    OwnSharedStep(s.shared, lockFree, t, p, ok);
    forall u | u in s.threads && u != t
      ensures ThreadOk(s'.shared, u, s.threads[u])
      ensures t in s'.threads ==> Compatible(s'.threads[t], s.threads[u]) && Compatible(s.threads[u], s'.threads[t])
    {
      OtherStays(s.shared, lockFree, t, p, ok, u, s.threads[u]);
    }
    assert forall u :: u in s'.threads && u != t ==> u in s.threads && s'.threads[u] == s.threads[u];
  }

  lemma BeginKeepsThreads(s: State, t: ThreadId, start: Start)
    requires ThreadsOk(s)
    ensures ThreadsOk(Step(s, Begin(t, start)))
  {
    var s' := Step(s, Begin(t, start));
    forall u | u in s.threads && t !in s.threads && t in s'.threads
      ensures Compatible(s'.threads[t], s.threads[u]) && Compatible(s.threads[u], s'.threads[t])
    {
      assert s'.threads[t].Hand().None? && !s'.threads[t].HoldsLock();
    }
    assert forall u :: u in s.threads ==> u in s'.threads && s'.threads[u] == s.threads[u];
  }

  lemma StepKeepsInv(s: State, e: Event)
    requires Inv(s)
    ensures Inv(Step(s, e))
  {
    var s' := Step(s, e);
    match e {
      case Begin(t, start) => BeginKeepsThreads(s, t, start);
      case Advance(t, ok) => if t in s.threads { AdvanceKeepsThreads(s, t, ok); }
    }
    forall c | Loose(s'.shared, c) ensures Held(s', c) {
      LooseHeld(s, e, c);
    }
    if Stale(s'.shared) {
      StaleMidWay(s, e);
    }
  }

  lemma LooseHeld(s: State, e: Event, c: CallId)
    requires Inv(s) && Loose(Step(s, e).shared, c)
    ensures Held(Step(s, e), c)
  {
    var s', t := Step(s, e), e.thread;
    if e.Advance? && t in s.threads {
      LooseStep(s.shared, LockFree(s), t, s.threads[t], e.ok, c);
      if t in s'.threads && s'.threads[t].Hand() == Some(c) { return; }
    }
    var u :| u in s.threads && s.threads[u].Hand() == Some(c);
    assert u in s'.threads && s'.threads[u].Hand() == Some(c);
  }

  lemma StaleMidWay(s: State, e: Event)
    requires Inv(s) && Stale(Step(s, e).shared)
    ensures MidWay(Step(s, e))
  {
    var s', t := Step(s, e), e.thread;
    if e.Advance? && t in s.threads {
      StaleStep(s.shared, LockFree(s), t, s.threads[t], e.ok);
      if t in s'.threads && (s'.threads[t].DisconnectUnderway() || s'.threads[t].CheckUnderway()) { return; }
    }
    var u :| u in s.threads && (s.threads[u].DisconnectUnderway() || s.threads[u].CheckUnderway());
    assert u in s'.threads && s'.threads[u] == s.threads[u];
  }

  lemma {:induction false} EveryInterleaving(events: seq<Event>)
    ensures Inv(After(events))
  {
    if events != [] {
      EveryInterleaving(events[..|events| - 1]);
      StepKeepsInv(After(events[..|events| - 1]), events[|events| - 1]);
    }
  }

  /** No disconnect, opener or failed call is part-way; calls that are simply running do not count. */
  ghost predicate Quiescent(s: State) {
    forall t :: t in s.threads ==> s.threads[t].Calling? || s.threads[t].WaitingForLock? || s.threads[t].Connecting?
  }

  /**
   Whatever the interleaving: no call session is ever disposed twice, and none is disposed while it is installed.
   Once nobody is part-way, an installed call session belongs to the current main session, and every call session
   ever created is either the installed one or was disposed exactly once.
   */
  lemma NoLeakNoDoubleDispose(events: seq<Event>)
    ensures var s := After(events).shared;
            && (forall c: CallId :: s.disposals[c] <= 1)
            && (s.call.Some? ==> s.disposals[s.call.value] == 0)
    ensures var s := After(events); Quiescent(s) ==>
            && (s.shared.call.Some? ==>
                  s.shared.call.value < |s.shared.created|
                    && s.shared.main == Some(s.shared.created[s.shared.call.value]))
            && (forall c :: 0 <= c < |s.shared.created| ==> (s.shared.call == Some(c) <==> s.shared.disposals[c] == 0))
  {
    EveryInterleaving(events);
    var s := After(events);
    forall c | Quiescent(s) && 0 <= c < |s.shared.created|
      ensures s.shared.call == Some(c) <==> s.shared.disposals[c] == 0
    {
      assert Loose(s.shared, c) ==> Held(s, c);
    }
  }

  /** At most one thread is between taking and releasing the lock. */
  lemma LockExclusive(events: seq<Event>, t: ThreadId, u: ThreadId)
    requires var s := After(events);
      t in s.threads && u in s.threads && s.threads[t].HoldsLock() && s.threads[u].HoldsLock()
    ensures t == u
  {
    EveryInterleaving(events);
  }

  // ------------------------------------------------------------------------------------------------------------
  // Which session a call travels over

  /** The call session an opener has created and not yet handed to its caller. */
  function Own(p: Phase): Option<CallId> {
    match p
    case Installing(_, _, session) => Some(session)
    case CheckingToken(_, _, session) => Some(session)
    case CheckingMain(_, session) => Some(session)
    case _ => None
  }

  /** The installed call session belongs to a main session other than the one there is. */
  ghost predicate Mismatched(s: Shared) {
    s.call.Some? && s.main.Some? && s.call.value < |s.created| && s.created[s.call.value] != s.main.value
  }

  ghost predicate SomeoneChecks(s: State) {
    exists t :: t in s.threads && s.threads[t].CheckUnderway()
  }

  predicate Reconnects(p: Phase) {
    p.Connecting? || (p.DisposingClosed? && p.reconnect)
  }

  /** What an opener or a caller knows of the session it is about to use. */
  ghost predicate KnowsSession(s: Shared, p: Phase) {
    match p
    case MainRead(_, main) => s.call.Some? ==> s.call.value < |s.created| && s.created[s.call.value] == main
    case Installing(_, _, session) => session !in s.ended
    case CheckingToken(_, _, session) => s.call == Some(session) || session in s.ended
    case CheckingMain(_, session) => s.call == Some(session) || session in s.ended
    case Calling(session) => session < |s.created|
    case _ => true
  }

  ghost predicate Apart(p: Phase, q: Phase) {
    p.Calling? && Own(q).Some? ==> Own(q).value != p.session
  }

  /**
   A disconnect's token is no longer the current one, and a token is cancelled once its disconnect is through with it.
   */
  ghost predicate TokenOk(s: Shared, p: Phase) {
    match p
    case Cancelling(_, token) => token < s.nextToken && token != s.token
    case _ => true
  }

  ghost predicate AboutToCancel(s: State, token: Token) {
    exists t :: t in s.threads && s.threads[t].Cancelling? && s.threads[t].token == token
  }

  ghost predicate TokensOk(s: State) {
    && s.shared.token < s.shared.nextToken
    && (forall token :: token in s.shared.cancelled ==> token < s.shared.nextToken && token != s.shared.token)
    && (forall t :: t in s.threads ==> TokenOk(s.shared, s.threads[t]))
    && (forall token: Token {:trigger AboutToCancel(s, token)} ::
         token < s.shared.nextToken && token != s.shared.token ==>
           token in s.shared.cancelled || AboutToCancel(s, token))
  }

  ghost predicate EndedOk(s: Shared) {
    forall c :: c in s.ended ==> c < |s.created| && s.call != Some(c)
  }

  ghost predicate SessionsKnown(s: State) {
    && EndedOk(s.shared)
    && (forall t :: t in s.threads ==> KnowsSession(s.shared, s.threads[t]))
    && (forall t, u :: t in s.threads && u in s.threads ==> Apart(s.threads[t], s.threads[u]))
  }

  /** The call session is the current main session's unless its opener is still to find out that it is not. */
  ghost predicate Settled(s: State) {
    && (Mismatched(s.shared) ==> SomeoneChecks(s))
    && (forall t :: t in s.threads && Reconnects(s.threads[t]) && s.shared.call.Some? ==> SomeoneChecks(s))
  }

  ghost predicate FullInv(s: State) {
    Inv(s) && SessionsKnown(s) && Settled(s) && TokensOk(s)
  }

  lemma EndedStays(s: Shared, lockFree: bool, t: ThreadId, p: Phase, ok: bool)
    requires SharedOk(s) && EndedOk(s) && ThreadOk(s, t, p) && KnowsSession(s, p)
    ensures EndedOk(Access(s, lockFree, p, ok).0)
  {}

  lemma OwnKnows(s: Shared, lockFree: bool, t: ThreadId, p: Phase, ok: bool)
    requires SharedOk(s) && EndedOk(s) && ThreadOk(s, t, p) && KnowsSession(s, p) && (p.TokenRead? ==> !Mismatched(s))
    ensures var (s', next) := Access(s, lockFree, p, ok); next.Some? ==> KnowsSession(s', next.value)
  {}

  lemma OtherKnows(s: Shared, lockFree: bool, t: ThreadId, p: Phase, ok: bool, u: ThreadId, q: Phase)
    requires ThreadOk(s, t, p) && ThreadOk(s, u, q) && KnowsSession(s, q) && Compatible(p, q) && Apart(p, q)
    ensures KnowsSession(Access(s, lockFree, p, ok).0, q)
  {}

  lemma StaysApart(s: Shared, lockFree: bool, p: Phase, ok: bool, q: Phase)
    requires KnowsSession(s, p) && KnowsSession(s, q) && Compatible(p, q) && Apart(p, q) && Apart(q, p)
    requires lockFree ==> !q.HoldsLock()
    ensures var next := Access(s, lockFree, p, ok).1; next.Some? ==> Apart(next.value, q) && Apart(q, next.value)
  {}

  /** A lock holder that has just begun finds no session that somebody else has still to check. */
  lemma NoneToCheck(s: State, t: ThreadId)
    requires ThreadsOk(s) && Settled(s) && t in s.threads && s.threads[t].TokenRead?
    ensures !Mismatched(s.shared)
  {
    forall u | u in s.threads ensures !s.threads[u].CheckUnderway() {
      if u != t { assert Compatible(s.threads[t], s.threads[u]); }
    }
  }

  lemma OthersKnow(s: State, t: ThreadId, ok: bool, u: ThreadId)
    requires ThreadsOk(s) && SessionsKnown(s) && t in s.threads && u in s.threads && t != u
    ensures var (s', next) := Access(s.shared, LockFree(s), s.threads[t], ok);
      && KnowsSession(s', s.threads[u])
      && (next.Some? ==> Apart(next.value, s.threads[u]) && Apart(s.threads[u], next.value))
  {
    OtherKnows(s.shared, LockFree(s), t, s.threads[t], ok, u, s.threads[u]);
    StaysApart(s.shared, LockFree(s), s.threads[t], ok, s.threads[u]);
  }

  lemma AdvanceKeepsSessions(s: State, t: ThreadId, ok: bool)
    requires ThreadsOk(s) && SessionsKnown(s) && Settled(s) && t in s.threads
    ensures SessionsKnown(Step(s, Advance(t, ok)))
  {
    var s', p := Step(s, Advance(t, ok)), s.threads[t];
    if p.TokenRead? { NoneToCheck(s, t); }
    EndedStays(s.shared, LockFree(s), t, p, ok);
    OwnKnows(s.shared, LockFree(s), t, p, ok);
    forall u | u in s.threads && u != t
      ensures KnowsSession(s'.shared, s.threads[u])
      ensures t in s'.threads ==> Apart(s'.threads[t], s.threads[u]) && Apart(s.threads[u], s'.threads[t])
    {
      OthersKnow(s, t, ok, u);
    }
    OnlyOneMoves(s, t, ok);
    forall u, v | u in s'.threads && v in s'.threads ensures Apart(s'.threads[u], s'.threads[v]) {
      if u != t && v != t { assert Apart(s.threads[u], s.threads[v]); }
    }
  }

  lemma OnlyOneMoves(s: State, t: ThreadId, ok: bool)
    requires t in s.threads
    ensures var s' := Step(s, Advance(t, ok));
      forall u :: u != t ==> (u in s'.threads <==> u in s.threads) && (u in s.threads ==> s'.threads[u] == s.threads[u])
  {}

  /** Whoever checks goes on checking, until the session installed is the right one or none. */
  lemma CheckGoesOn(s: State, t: ThreadId, ok: bool, u: ThreadId)
    requires ThreadsOk(s) && t in s.threads && u in s.threads && s.threads[u].CheckUnderway()
    ensures var s' := Step(s, Advance(t, ok));
      SomeoneChecks(s') || s'.shared.call.None?
        || (s'.shared.call.value < |s'.shared.created|
            && s'.shared.main == Some(s'.shared.created[s'.shared.call.value]))
  {
    var s' := Step(s, Advance(t, ok));
    if u in s'.threads && s'.threads[u].CheckUnderway() { return; }
    assert t == u && ThreadOk(s.shared, u, s.threads[u]);
  }

  lemma SettledWhileChecking(s: State, t: ThreadId, ok: bool, u: ThreadId)
    requires ThreadsOk(s) && t in s.threads && u in s.threads && s.threads[u].CheckUnderway()
    ensures Settled(Step(s, Advance(t, ok)))
  {
    var s' := Step(s, Advance(t, ok));
    AdvanceKeepsThreads(s, t, ok);
    CheckGoesOn(s, t, ok, u);
    forall r | r in s'.threads && Reconnects(s'.threads[r]) && s'.shared.call.Some? ensures SomeoneChecks(s') {
      assert ThreadOk(s'.shared, r, s'.threads[r]);
    }
  }

  lemma SettledAccess(s: Shared, lockFree: bool, t: ThreadId, p: Phase, ok: bool)
    requires SharedOk(s) && ThreadOk(s, t, p) && !p.Installing? && !Mismatched(s) && (Reconnects(p) ==> s.call.None?)
    ensures var (s', next) := Access(s, lockFree, p, ok);
      && !Mismatched(s') && (next.Some? && Reconnects(next.value) ==> s'.call.None?)
      && (s'.call.Some? ==> s.call.Some?)
  {}

  lemma AdvanceKeepsSettled(s: State, t: ThreadId, ok: bool)
    requires ThreadsOk(s) && Settled(s) && t in s.threads
    ensures Settled(Step(s, Advance(t, ok)))
  {
    var s' := Step(s, Advance(t, ok));
    if s.threads[t].Installing? {
      assert s'.threads[t].CheckUnderway();
    } else if u :| u in s.threads && s.threads[u].CheckUnderway() {
      SettledWhileChecking(s, t, ok, u);
    } else {
      assert !SomeoneChecks(s);
      SettledAccess(s.shared, LockFree(s), t, s.threads[t], ok);
      OnlyOneMoves(s, t, ok);
    }
  }

  lemma AdvanceKeepsTokens(s: State, t: ThreadId, ok: bool)
    requires TokensOk(s) && t in s.threads
    ensures TokensOk(Step(s, Advance(t, ok)))
  {
    var s', p := Step(s, Advance(t, ok)), s.threads[t];
    forall token: Token | token < s'.shared.nextToken && token != s'.shared.token && token !in s'.shared.cancelled
      ensures AboutToCancel(s', token)
    {
      if p.Renewing? && token == s.shared.token {
        assert s'.threads[t].Cancelling? && s'.threads[t].token == token;
      } else {
        assert AboutToCancel(s, token);
        var u :| u in s.threads && s.threads[u].Cancelling? && s.threads[u].token == token;
        assert u in s'.threads && s'.threads[u] == s.threads[u];
      }
    }
    forall u | u in s'.threads ensures TokenOk(s'.shared, s'.threads[u]) {
      if u != t { assert TokenOk(s.shared, s.threads[u]); }
    }
  }

  /** A thread that begins knows nothing yet, and has nothing. */
  lemma BeginKeepsKnown(s: State, t: ThreadId, start: Start)
    requires SessionsKnown(s)
    ensures SessionsKnown(Step(s, Begin(t, start)))
  {}

  lemma BeginKeepsSettled(s: State, t: ThreadId, start: Start)
    requires Settled(s)
    ensures Settled(Step(s, Begin(t, start)))
  {
    var s' := Step(s, Begin(t, start));
    if u :| u in s.threads && s.threads[u].CheckUnderway() { assert s'.threads[u].CheckUnderway(); }
    assert t !in s.threads && t in s'.threads ==> !Reconnects(s'.threads[t]);
  }

  lemma BeginKeepsTokens(s: State, t: ThreadId, start: Start)
    requires TokensOk(s)
    ensures TokensOk(Step(s, Begin(t, start)))
  {
    var s' := Step(s, Begin(t, start));
    forall token: Token | AboutToCancel(s, token) ensures AboutToCancel(s', token) {
      var u :| u in s.threads && s.threads[u].Cancelling? && s.threads[u].token == token;
      assert s'.threads[u].Cancelling? && s'.threads[u].token == token;
    }
  }

  lemma StepKeepsFullInv(s: State, e: Event)
    requires FullInv(s)
    ensures FullInv(Step(s, e))
  {
    StepKeepsInv(s, e);
    match e {
      case Begin(t, start) =>
        BeginKeepsKnown(s, t, start);
        BeginKeepsSettled(s, t, start);
        BeginKeepsTokens(s, t, start);
      case Advance(t, ok) =>
        if t in s.threads {
          AdvanceKeepsSessions(s, t, ok);
          AdvanceKeepsSettled(s, t, ok);
          AdvanceKeepsTokens(s, t, ok);
        }
    }
  }

  lemma {:induction false} EveryInterleavingFull(events: seq<Event>)
    ensures FullInv(After(events))
  {
    if events != [] {
      EveryInterleavingFull(events[..|events| - 1]);
      StepKeepsFullInv(After(events[..|events| - 1]), events[|events| - 1]);
    }
  }

  /** A call session nobody has taken down or disposed. */
  predicate IsOpen(s: Shared, c: CallId) {
    s.call == Some(c) && s.disposals[c] == 0
  }

  /** `c` is handed to the call of thread `t` by its next access. */
  predicate HandsOut(s: State, t: ThreadId, ok: bool, c: CallId) {
    t in s.threads && !s.threads[t].Calling? && Access(s.shared, LockFree(s), s.threads[t], ok).1 == Some(Calling(c))
  }

  /** The main session an opener has read, as long as it remembers it. */
  function ReadMain(p: Phase): Option<MainId> {
    match p
    case MainRead(_, main) => Some(main)
    case CheckingMain(main, _) => Some(main)
    case _ => None
  }

  /**
   In every interleaving, the session a call is given was created for the main session its opener had read. It is the
   installed one, and open, if and only if no disconnect has taken it down since it was installed; the one found open is
   always so, and one newly created is for the main session there still is.
   */
  lemma CallTravelsOver(events: seq<Event>, t: ThreadId, ok: bool, c: CallId)
    requires HandsOut(After(events), t, ok, c)
    ensures var s := After(events); var p := s.threads[t];
      && c < |s.shared.created| && ReadMain(p) == Some(s.shared.created[c])
      && (IsOpen(s.shared, c) <==> c !in s.shared.ended)
      && (p.MainRead? ==> IsOpen(s.shared, c))
      && (p.CheckingMain? ==> s.shared.main == Some(s.shared.created[c]) && c == p.session)
  {
    EveryInterleavingFull(events);
    var s := After(events);
    assert KnowsSession(s.shared, s.threads[t]) && ThreadOk(s.shared, t, s.threads[t]);
  }

  lemma Next(events: seq<Event>, e: Event)
    ensures After(events + [e]) == Step(After(events), e)
  {
    assert (events + [e])[..|events|] == events;
  }

  /** There are two threads, and what they do next. */
  function Two(shared: Shared, t: ThreadId, p: Phase, u: ThreadId, q: Phase): State {
    State(shared, map[t := p, u := q])
  }

  lemma LockFreeOfTwo(shared: Shared, t: ThreadId, p: Phase, u: ThreadId, q: Phase)
    requires t != u
    ensures LockFree(Two(shared, t, p, u, q)) == (!p.HoldsLock() && !q.HoldsLock())
  {
    var s := Two(shared, t, p, u, q);
    assert s.threads[t] == p && s.threads[u] == q;
  }

  lemma StepOfTwo(shared: Shared, t: ThreadId, p: Phase, u: ThreadId, q: Phase)
    requires t != u
    ensures var (shared', next) := Access(shared, !p.HoldsLock() && !q.HoldsLock(), p, true);
      Step(Two(shared, t, p, u, q), Advance(t, true)) ==
        if next.Some? then Two(shared', t, next.value, u, q) else State(shared', map[u := q])
  {
    LockFreeOfTwo(shared, t, p, u, q);
    assert Two(shared, t, p, u, q).threads[t] == p;
    assert map[t := p, u := q] - {t} == map[u := q];
  }

  /** The first of two threads makes its next access. */
  lemma Go(events: seq<Event>, shared: Shared, t: ThreadId, p: Phase, u: ThreadId, q: Phase)
      returns (longer: seq<Event>)
    requires t != u && After(events) == Two(shared, t, p, u, q)
    ensures var (shared', next) := Access(shared, !p.HoldsLock() && !q.HoldsLock(), p, true);
      After(longer) == if next.Some? then Two(shared', t, next.value, u, q) else State(shared', map[u := q])
  {
    StepOfTwo(shared, t, p, u, q);
    longer := events + [Advance(t, true)];
    Next(events, Advance(t, true));
  }

  /** A disconnect begins before the connector has connected, and is held up. */
  lemma ConnectsMeanwhile() returns (events: seq<Event>)
    ensures After(events) == State(Shared(Some(0), None, 1, {0}, [], multiset{}, {}, 1, 2), map[1 := Renewing(false)])
  {
    var s0 := Initial.shared;
    events := [Begin(0, Connect), Begin(1, Disconnect)];
    Next([], Begin(0, Connect));
    Next([Begin(0, Connect)], Begin(1, Disconnect));
    assert [] + [Begin(0, Connect)] == [Begin(0, Connect)] && [Begin(0, Connect)] + [Begin(1, Disconnect)] == events;
    assert After(events) == Two(s0, 0, Forgetting(true), 1, Forgetting(false));
    events := Go(events, s0, 0, Forgetting(true), 1, Forgetting(false));
    assert Two(s0, 0, Renewing(true), 1, Forgetting(false)) == Two(s0, 1, Forgetting(false), 0, Renewing(true));
    events := Go(events, s0, 1, Forgetting(false), 0, Renewing(true));
    assert Two(s0, 1, Renewing(false), 0, Renewing(true)) == Two(s0, 0, Renewing(true), 1, Renewing(false));
    events := Go(events, s0, 0, Renewing(true), 1, Renewing(false));
    events := Connects(events, s0.(token := 1, nextToken := 2));
  }

  lemma Connects(before: seq<Event>, s: Shared) returns (events: seq<Event>)
    requires After(before) == Two(s, 0, Cancelling(true, 0), 1, Renewing(false))
    requires s == Initial.shared.(token := 1, nextToken := 2)
    ensures After(events) == State(Shared(Some(0), None, 1, {0}, [], multiset{}, {}, 1, 2), map[1 := Renewing(false)])
  {
    var c := s.(cancelled := {0});
    events := Go(before, s, 0, Cancelling(true, 0), 1, Renewing(false));
    assert s.cancelled + {0} == {0};
    events := Go(events, c, 0, Closing(true), 1, Renewing(false));
    assert c.ended + {} == {};
    events := Go(events, c, 0, DisposingClosed(true, None), 1, Renewing(false));
    events := Go(events, c, 0, Connecting, 1, Renewing(false));
  }

  /** There is a main session, and the disconnect is still held up. */
  const Connected := Shared(Some(0), None, 1, {0}, [], multiset{}, {}, 1, 2)

  /** A call takes the lock and reads what it goes by. */
  lemma TakesLock() returns (events: seq<Event>)
    ensures After(events) == Two(Connected, 2, TokenRead(1), 1, Renewing(false))
  {
    events := ConnectsMeanwhile();
    Next(events, Begin(2, Call));
    events := events + [Begin(2, Call)];
    assert After(events) == Two(Connected, 2, WaitingForLock, 1, Renewing(false));
    events := Go(events, Connected, 2, WaitingForLock, 1, Renewing(false));
    events := Go(events, Connected, 2, Locked, 1, Renewing(false));
  }

  /** It finds no session. */
  lemma FindsNone() returns (events: seq<Event>)
    ensures After(events) == Two(Connected, 2, Replacing(1, 0), 1, Renewing(false))
  {
    events := TakesLock();
    events := Go(events, Connected, 2, TokenRead(1), 1, Renewing(false));
    events := Go(events, Connected, 2, MainRead(1, 0), 1, Renewing(false));
  }

  /** It creates one. */
  lemma CreatesOne() returns (events: seq<Event>)
    ensures After(events) == Two(Connected.(created := [0]), 2, Installing(1, 0, 0), 1, Renewing(false))
  {
    events := FindsNone();
    events := Go(events, Connected, 2, Replacing(1, 0), 1, Renewing(false));
    events := Go(events, Connected, 2, DisposingOld(1, 0, None), 1, Renewing(false));
    events := Go(events, Connected, 2, Creating(1, 0), 1, Renewing(false));
  }

  /** It has installed it, and is about to check that its main session is still there. */
  lemma OpensOne() returns (events: seq<Event>)
    ensures After(events) ==
      Two(Connected.(created := [0], call := Some(0)), 2, CheckingMain(0, 0), 1, Renewing(false))
  {
    var s := Connected.(created := [0]);
    events := CreatesOne();
    events := Go(events, s, 2, Installing(1, 0, 0), 1, Renewing(false));
    events := Go(events, s.(call := Some(0)), 2, CheckingToken(1, 0, 0), 1, Renewing(false));
  }

  /** The disconnect goes on, and takes it down. */
  lemma TakesItDown() returns (events: seq<Event>)
    ensures After(events) == Two(
      Shared(Some(0), None, 2, {0} + {1}, [0], multiset{}, {0}, 1, 3), 1, DisposingClosed(false, Some(0)), 2,
      CheckingMain(0, 0))
  {
    var s, c := Connected.(created := [0], call := Some(0)), CheckingMain(0, 0);
    events := OpensOne();
    assert Two(s, 2, c, 1, Renewing(false)) == Two(s, 1, Renewing(false), 2, c);
    events := Go(events, s, 1, Renewing(false), 2, c);
    events := Go(events, s.(token := 2, nextToken := 3), 1, Cancelling(false, 1), 2, c);
    assert {} + {0} == {0 as CallId};
    events := Go(events, s.(token := 2, nextToken := 3, cancelled := {0} + {1}), 1, Closing(false), 2, c);
  }

  /**
   It does happen that a call is given a session that is already disposed: by a disconnect that was under way before the
   main session was there, and is through before the opener looks at that for the last time.
   */
  lemma DisposedIsHandedOut() returns (events: seq<Event>)
    ensures var s := After(events);
      && HandsOut(s, 2, true, 0) && s.shared.disposals[0] == 1
      && s.shared.created == [0] && s.shared.main == Some(0)
  {
    events := TakesItDown();
    var s := Shared(Some(0), None, 2, {0} + {1}, [0], multiset{}, {0}, 1, 3);
    events := Go(events, s, 1, DisposingClosed(false, Some(0)), 2, CheckingMain(0, 0));
  }

  // ------------------------------------------------------------------------------------------------------------
  // Openers get there

  /** How many accesses an opener that holds the lock has still to make, at most, before its caller can call. */
  function StepsLeft(p: Phase): nat {
    match p
    case Locked => 9
    case TokenRead(_) => 8
    case MainRead(_, _) => 7
    case Replacing(_, _) => 6
    case DisposingOld(_, _, _) => 5
    case Creating(_, _) => 4
    case Installing(_, _, _) => 3
    case CheckingToken(_, _, _) => 2
    case CheckingMain(_, _) => 1
    case _ => 0
  }

  /** An opener on its way: the token it read is not cancelled, and the main session it read is the one there is. */
  predicate OnItsWay(s: State, t: ThreadId) {
    t in s.threads && s.shared.main.Some? &&
    match s.threads[t]
    case Locked => s.shared.token !in s.shared.cancelled
    case TokenRead(token) => token !in s.shared.cancelled
    case MainRead(token, main) => token !in s.shared.cancelled && s.shared.main == Some(main)
    case Replacing(token, main) => token !in s.shared.cancelled && s.shared.main == Some(main)
    case DisposingOld(token, main, _) => token !in s.shared.cancelled && s.shared.main == Some(main)
    case Creating(token, main) => token !in s.shared.cancelled && s.shared.main == Some(main)
    case Installing(token, main, _) => token !in s.shared.cancelled && s.shared.main == Some(main)
    case CheckingToken(token, main, _) => token !in s.shared.cancelled && s.shared.main == Some(main)
    case CheckingMain(main, _) => s.shared.main == Some(main)
    case _ => false
  }

  /** The opener's own requests succeed, and nobody forgets, connects, or cancels what it goes by. */
  predicate LeavesBe(s: State, e: Event, t: ThreadId) {
    if e.Begin? then true
    else if e.thread == t then e.ok
    else e.thread in s.threads ==>
      var p := s.threads[e.thread]; !p.Forgetting? && !p.Renewing? && !p.Cancelling? && !p.Connecting?
  }

  predicate CanCall(s: State, t: ThreadId) {
    t in s.threads && s.threads[t].Calling?
  }

  /** Each of its own accesses brings an opener nearer to calling, and others' accesses do not hold it up. */
  lemma OpenerAdvances(s: State, e: Event, t: ThreadId)
    requires OnItsWay(s, t) && LeavesBe(s, e, t)
    ensures var s' := Step(s, e);
      if e.Advance? && e.thread == t then CanCall(s', t)
        || (OnItsWay(s', t) && StepsLeft(s'.threads[t]) < StepsLeft(s.threads[t]))
      else OnItsWay(s', t) && s'.threads[t] == s.threads[t]
  {}

  lemma OnItsWayIsNotThere(s: State, t: ThreadId)
    requires OnItsWay(s, t)
    ensures 1 <= StepsLeft(s.threads[t]) <= 9
  {}

  function OwnAdvances(events: seq<Event>, t: ThreadId): nat {
    if events == [] then 0 else OwnAdvances(events[..|events| - 1], t) + OwnAdvance(events[|events| - 1], t)
  }

  function OwnAdvance(e: Event, t: ThreadId): nat {
    if e.Advance? && e.thread == t then 1 else 0
  }

  /** On its way, with at most so many accesses to go. */
  ghost predicate Nears(s: State, t: ThreadId, left: int) {
    OnItsWay(s, t) && StepsLeft(s.threads[t]) <= left
  }

  lemma NearsOn(s: State, e: Event, t: ThreadId, left: int)
    requires Nears(s, t, left) && LeavesBe(s, e, t)
    ensures CanCall(Step(s, e), t) || Nears(Step(s, e), t, left - OwnAdvance(e, t))
  {
    OpenerAdvances(s, e, t);
  }

  ghost predicate Follows(s: State, e: Event, s': State) {
    s' == Step(s, e)
  }

  /** The states some events lead through. */
  ghost predicate IsTrace(states: seq<State>, events: seq<Event>) {
    |states| == |events| + 1 && forall k :: 0 <= k < |events| ==> Follows(states[k], events[k], states[k + 1])
  }

  ghost predicate AllLeaveBe(states: seq<State>, events: seq<Event>, t: ThreadId) {
    |states| == |events| + 1 && forall k :: 0 <= k < |events| ==> LeavesBe(states[k], events[k], t)
  }

  /** The opener's caller can call, by the n-th state. */
  ghost predicate ArrivedBy(states: seq<State>, t: ThreadId, n: nat) {
    exists k :: 0 <= k <= n && k < |states| && CanCall(states[k], t)
  }

  lemma OwnAdvancesNext(events: seq<Event>, n: nat, t: ThreadId)
    requires n < |events|
    ensures OwnAdvances(events[..n + 1], t) == OwnAdvances(events[..n], t) + OwnAdvance(events[n], t)
  {
    assert events[..n + 1][..n] == events[..n];
  }

  /**
   Whatever else is going on, an opener that holds the lock, whose main session stays, whose token is not cancelled and
   whose requests succeed, lets its caller call, or is nearer to it by every access of its own.
   */
  lemma {:induction false} OpenerArrives(states: seq<State>, events: seq<Event>, t: ThreadId, left: nat, n: nat)
    requires IsTrace(states, events) && AllLeaveBe(states, events, t) && n <= |events| && Nears(states[0], t, left)
    ensures ArrivedBy(states, t, n) || Nears(states[n], t, left - OwnAdvances(events[..n], t))
  {
    if n > 0 {
      OpenerArrives(states, events, t, left, n - 1);
      if !ArrivedBy(states, t, n - 1) {
        assert Follows(states[n - 1], events[n - 1], states[n - 1 + 1]);
        NearsOn(states[n - 1], events[n - 1], t, left - OwnAdvances(events[..n - 1], t));
        OwnAdvancesNext(events, n - 1, t);
      }
    }
  }

  /** So after nine accesses of its own its caller could call. */
  lemma OpenerHasArrived(states: seq<State>, events: seq<Event>, t: ThreadId)
    requires IsTrace(states, events) && AllLeaveBe(states, events, t)
    requires OnItsWay(states[0], t) && OwnAdvances(events, t) >= 9
    ensures ArrivedBy(states, t, |events|)
  {
    OnItsWayIsNotThere(states[0], t);
    OpenerArrives(states, events, t, 9, |events|);
    assert events[..|events|] == events;
    if Nears(states[|events|], t, 9 - OwnAdvances(events, t)) { OnItsWayIsNotThere(states[|events|], t); }
  }

  /** A current token is never cancelled: whoever gets the lock while there is a main session is on its way. */
  lemma LockedIsOnItsWay(events: seq<Event>, t: ThreadId)
    requires var s := After(events); t in s.threads && s.threads[t].Locked? && s.shared.main.Some?
    ensures OnItsWay(After(events), t)
  {
    EveryInterleavingFull(events);
  }

  /** Once no disconnect is about to cancel its token, every token but the current one is cancelled. */
  lemma OldTokensAreCancelled(events: seq<Event>, token: Token)
    requires var s := After(events); token < s.shared.nextToken && forall t :: t in s.threads ==>
      !s.threads[t].Cancelling?
    ensures var s := After(events); token in s.shared.cancelled <==> token != s.shared.token
  {
    EveryInterleavingFull(events);
    assert !AboutToCancel(After(events), token);
  }

  /** An opener past the open session it might have found, whose token has been cancelled, or one that is giving up. */
  predicate OnItsWayOut(s: State, t: ThreadId) {
    t in s.threads ==>
      match s.threads[t]
      case Replacing(token, _) => token in s.shared.cancelled
      case DisposingOld(token, _, _) => token in s.shared.cancelled
      case Creating(token, _) => token in s.shared.cancelled
      case Installing(token, _, _) => token in s.shared.cancelled
      case CheckingToken(token, _, _) => token in s.shared.cancelled
      case Withdrawing => true
      case DisposingOwn(_) => true
      case _ => false
  }

  lemma StaysOnItsWayOut(s: State, e: Event, t: ThreadId)
    requires OnItsWayOut(s, t) && !(e.Begin? && e.thread == t)
    ensures OnItsWayOut(Step(s, e), t)
  {}

  /** A disconnect that cancels an opener's token in time keeps it from calling, whatever else happens. */
  lemma {:induction false} CancelledNeverCalls(events: seq<Event>, more: seq<Event>, t: ThreadId)
    requires OnItsWayOut(After(events), t) && forall start :: Begin(t, start) !in more
    ensures OnItsWayOut(After(events + more), t) && !CanCall(After(events + more), t)
  {
    if more == [] {
      assert events + more == events;
    } else {
      var fewer, e := more[..|more| - 1], more[|more| - 1];
      assert events + more == events + fewer + [e];
      CancelledNeverCalls(events, fewer, t);
      Next(events + fewer, e);
      assert e in more;
      StaysOnItsWayOut(After(events + fewer), e, t);
    }
  }

  // ------------------------------------------------------------------------------------------------------------
  // When a call session is kept, and when it is dropped

  /** An open call session is used again, and no other is created. */
  lemma OpenIsUsedAgain(events: seq<Event>, t: ThreadId)
    requires var s := After(events); t in s.threads && s.threads[t].MainRead? && s.shared.call.Some?
    ensures var s, s' := After(events), After(events + [Advance(t, true)]);
      s'.shared == s.shared && t in s'.threads && s'.threads[t] == Calling(s.shared.call.value)
  {
    Next(events, Advance(t, true));
  }

  lemma CallEnds(s: State, t: ThreadId, c: CallId)
    requires t in s.threads && s.threads[t] == Calling(c)
    ensures Step(s, Advance(t, true)).shared == s.shared
    ensures var failed := Step(s, Advance(t, false));
      if s.shared.call != Some(c) then failed.shared == s.shared
      else failed.shared == s.shared.(call := None) && t in failed.threads && failed.threads[t] == Dropping(c)
  {}

  lemma DropDisposes(s: State, t: ThreadId, c: CallId, ok: bool)
    requires t in s.threads && s.threads[t] == Dropping(c)
    ensures Step(s, Advance(t, ok)).shared.disposals[c] == s.shared.disposals[c] + 1
  {}

  /**
   A call that goes through leaves the session for the next. One that fails takes it down, so that the next call opens
   another, and disposes it; but it leaves alone whatever has taken its place already.
   */
  lemma FailedCallDrops(events: seq<Event>, t: ThreadId, c: CallId, ok: bool)
    requires var s := After(events); t in s.threads && s.threads[t] == Calling(c)
    ensures After(events + [Advance(t, true)]).shared == After(events).shared
    ensures var s, failed := After(events).shared, After(events + [Advance(t, false)]).shared;
      if s.call != Some(c) then failed == s
      else
        && failed == s.(call := None)
        && After(events + [Advance(t, false)] + [Advance(t, ok)]).shared.disposals[c] == 1
  {
    var s := After(events);
    CallEnds(s, t, c);
    Next(events, Advance(t, true));
    Next(events, Advance(t, false));
    if s.shared.call == Some(c) {
      DropsIt(events, t, c, ok);
    }
  }

  lemma DropsIt(events: seq<Event>, t: ThreadId, c: CallId, ok: bool)
    requires var s := After(events); t in s.threads && s.threads[t] == Calling(c) && s.shared.call == Some(c)
    ensures After(events + [Advance(t, false)] + [Advance(t, ok)]).shared.disposals[c] == 1
  {
    var failed := events + [Advance(t, false)];
    EveryInterleaving(events);
    CallEnds(After(events), t, c);
    Next(events, Advance(t, false));
    DropDisposes(After(failed), t, c, ok);
    Next(failed, Advance(t, ok));
  }
}
