/**
 Data changes arrive on threads of their own and go straight out, past the coordinator's queue. Each looks its monitor
 up in the registry, then its node up in the catalog, and then sends: three accesses, between which the coordinator may
 do anything to either. Whatever the interleaving, what is sent was live, and asked for there, when it was looked up;
 and it is so still when it is sent unless the monitor has been changed in between, as it may well have been.
 */
module MonitorNotifications {
  import opened Options
  import opened Monitors
  import opened MonitorRegistry

  type ThreadId = nat

  /** What happens to monitors. A notification remembers where in the history it was looked up. */
  datatype Entry =
    | Asked(key: MonitorKey, replyTo: ReplyTo)
    | Deleted(key: MonitorKey)
    | Suspended(key: MonitorKey)
    | Looked(key: MonitorKey, replyTo: ReplyTo)
    | Sent(key: MonitorKey, replyTo: ReplyTo, look: nat)

  /** What a notifying thread does next: look the monitor up, look its node up, or send. */
  datatype Phase =
    | Looking(key: MonitorKey)
    | Found(key: MonitorKey, replyTo: ReplyTo, look: nat)
    | Sending(key: MonitorKey, replyTo: ReplyTo, look: nat)

  datatype State = State(monitors: Registered, catalog: set<NodeText>, threads: map<ThreadId, Phase>,
                         history: seq<Entry>)

  /** The coordinator changes the registry or swaps the catalog; a data change arrives; or its thread takes a step. */
  datatype Event =
    | Changes(change: Change)
    | Swaps(catalog: set<NodeText>)
    | Arrives(thread: ThreadId, key: MonitorKey)
    | Advances(thread: ThreadId)

  /** What a change of the registry is to the history; expiry touches suspended monitors only, and is nothing to it. */
  function EntriesOf(change: Change): seq<Entry> {
    match change
    case Put(definition) => [Asked(definition.key, definition.replyTo)]
    case Drop(key) => [Deleted(key)]
    case Silence(key, _) => [Entry.Suspended(key)]
    case Expire(_) => []
  }

  function Without(s: State, thread: ThreadId): State {
    s.(threads := s.threads - {thread})
  }

  function Advance(s: State, thread: ThreadId): State
    requires thread in s.threads
  {
    match s.threads[thread]
    case Looking(key) =>
      if key in s.monitors && !s.monitors[key].IsSuspended() then
        var replyTo := s.monitors[key].replyTo;
        s.(threads := s.threads[thread := Found(key, replyTo, |s.history|)], history :=
           s.history + [Looked(key, replyTo)])
      else Without(s, thread)
    case Found(key, replyTo, look) =>
      if key.node in s.catalog then s.(threads := s.threads[thread := Sending(key, replyTo, look)])
        else Without(s, thread)
    case Sending(key, replyTo, look) => Without(s.(history := s.history + [Sent(key, replyTo, look)]), thread)
  }

  /** One atomic access; an event that is not possible in `s` leaves it unchanged. */
  function Step(s: State, e: Event, expiry: Option<Time>): State {
    match e
    case Changes(change) =>
      s.(monitors := Changed(s.monitors, change, expiry), history := s.history + EntriesOf(change))
    case Swaps(catalog) => s.(catalog := catalog)
    case Arrives(thread, key) => if thread in s.threads then s else s.(threads := s.threads[thread := Looking(key)])
    case Advances(thread) => if thread in s.threads then Advance(s, thread) else s
  }

  function Initial(monitors: Registered): State {
    State(monitors, {}, map[], [])
  }

  function After(monitors: Registered, events: seq<Event>, expiry: Option<Time>): State {
    if events == [] then Initial(monitors)
    else Step(After(monitors, events[..|events| - 1], expiry), events[|events| - 1], expiry)
  }

  lemma AfterOne(monitors: Registered, events: seq<Event>, e: Event, expiry: Option<Time>)
    ensures After(monitors, events + [e], expiry) == Step(After(monitors, events, expiry), e, expiry)
  {
    assert (events + [e])[..|events|] == events;
  }

  // ------------------------------------------------------------------------------------------------------------
  // What the history says of a monitor

  /** Where a live monitor reports to. */
  function LiveReplyTo(monitors: Registered, key: MonitorKey): (replyTo: Option<ReplyTo>)
    ensures replyTo.Some? <==> key in monitors && monitors[key].suspendedSince.None?
    ensures replyTo.Some? ==> replyTo.value == monitors[key].replyTo
  {
    if key in monitors && !monitors[key].IsSuspended() then Some(monitors[key].replyTo) else None
  }

  predicate Touches(entry: Entry, key: MonitorKey) {
    entry.key == key && (entry.Asked? || entry.Deleted? || entry.Suspended?)
  }

  /** The last that was done to a monitor. */
  function LastTouch(history: seq<Entry>, key: MonitorKey): Option<Entry> {
    if history == [] then None
    else
      var last := history[|history| - 1];
      if Touches(last, key) then Some(last) else LastTouch(history[..|history| - 1], key)
  }

  /** Where the latest Monitor command for `key` asked to be told, unless the monitor was deleted or suspended since. */
  function Latest(monitors: Registered, history: seq<Entry>, key: MonitorKey): Option<ReplyTo> {
    match LastTouch(history, key)
    case None => LiveReplyTo(monitors, key)
    case Some(Asked(_, replyTo)) => Some(replyTo)
    case Some(_) => None
  }

  lemma {:induction false} LastTouchConcat(a: seq<Entry>, b: seq<Entry>, key: MonitorKey)
    ensures LastTouch(a + b, key) == if LastTouch(b, key).Some? then LastTouch(b, key) else LastTouch(a, key)
  {
    if b == [] {
      assert a + b == a;
    } else {
      assert (a + b)[..|a + b| - 1] == a + b[..|b| - 1];
      LastTouchConcat(a, b[..|b| - 1], key);
    }
  }

  lemma {:induction false} LastTouchIsThere(history: seq<Entry>, key: MonitorKey)
    ensures match LastTouch(history, key)
      case None => forall i :: 0 <= i < |history| ==> !Touches(history[i], key)
      case Some(entry) => Touches(entry, key) && entry in history
  {
    if history != [] && !Touches(history[|history| - 1], key) {
      LastTouchIsThere(history[..|history| - 1], key);
      assert history == history[..|history| - 1] + [history[|history| - 1]];
    }
  }

  // ------------------------------------------------------------------------------------------------------------
  // Every interleaving

  /** At `look` a monitor was looked up that was live and reported to `replyTo`. */
  ghost predicate LookRight(monitors: Registered, history: seq<Entry>, look: nat, key: MonitorKey, replyTo: ReplyTo) {
    look < |history| && history[look] == Looked(key, replyTo) && Latest(monitors, history[..look], key) == Some(replyTo)
  }

  ghost predicate SendsRight(monitors: Registered, history: seq<Entry>) {
    forall i {:trigger history[i]} :: 0 <= i < |history| && history[i].Sent? ==>
      history[i].look < i && LookRight(monitors, history, history[i].look, history[i].key, history[i].replyTo)
  }

  ghost predicate ThreadRight(monitors: Registered, history: seq<Entry>, p: Phase) {
    !p.Looking? ==> LookRight(monitors, history, p.look, p.key, p.replyTo)
  }

  /** The registry says of every monitor what its history says. */
  ghost predicate Agrees(monitors: Registered, s: State) {
    forall key :: LiveReplyTo(s.monitors, key) == Latest(monitors, s.history, key)
  }

  ghost predicate Inv(monitors: Registered, s: State) {
    && Agrees(monitors, s) && SendsRight(monitors, s.history)
    && forall t :: t in s.threads ==> ThreadRight(monitors, s.history, s.threads[t])
  }

  /** What was looked up stays looked up. */
  lemma LookStays(monitors: Registered, history: seq<Entry>, more: seq<Entry>, look: nat, key: MonitorKey,
                  replyTo: ReplyTo)
    requires LookRight(monitors, history, look, key, replyTo)
    ensures LookRight(monitors, history + more, look, key, replyTo)
  {
    assert (history + more)[..look] == history[..look];
  }

  lemma SendsStay(monitors: Registered, history: seq<Entry>, entry: Entry)
    requires SendsRight(monitors, history)
    requires entry.Sent? ==> LookRight(monitors, history, entry.look, entry.key, entry.replyTo)
    ensures SendsRight(monitors, history + [entry])
  {
    var longer := history + [entry];
    forall i | 0 <= i < |longer| && longer[i].Sent?
      ensures longer[i].look < i && LookRight(monitors, longer, longer[i].look, longer[i].key, longer[i].replyTo)
    {
      if i < |history| { assert longer[i] == history[i]; }
      LookStays(monitors, history, [entry], longer[i].look, longer[i].key, longer[i].replyTo);
    }
  }

  lemma LatestNext(monitors: Registered, history: seq<Entry>, entry: Entry, key: MonitorKey)
    ensures Latest(monitors, history + [entry], key) ==
      if Touches(entry, key) then if entry.Asked? then Some(entry.replyTo) else None else Latest(monitors, history, key)
  {
    assert (history + [entry])[..|history|] == history;
  }

  lemma ChangeAgrees(monitors: Registered, s: State, change: Change, expiry: Option<Time>)
    requires Agrees(monitors, s)
    ensures Agrees(monitors, Step(s, Changes(change), expiry))
  {
    var s' := Step(s, Changes(change), expiry);
    forall key ensures LiveReplyTo(s'.monitors, key) == Latest(monitors, s'.history, key) {
      if change.Expire? {
        assert s'.history == s.history;
      } else {
        LatestNext(monitors, s.history, EntriesOf(change)[0], key);
      }
    }
  }

  lemma NewEntryKeeps(monitors: Registered, s: State, entry: Entry)
    requires SendsRight(monitors, s.history)
    requires forall t :: t in s.threads ==> ThreadRight(monitors, s.history, s.threads[t])
    requires entry.Sent? ==> LookRight(monitors, s.history, entry.look, entry.key, entry.replyTo)
    ensures SendsRight(monitors, s.history + [entry])
    ensures forall t :: t in s.threads ==> ThreadRight(monitors, s.history + [entry], s.threads[t])
  {
    SendsStay(monitors, s.history, entry);
    forall t | t in s.threads ensures ThreadRight(monitors, s.history + [entry], s.threads[t]) {
      var p := s.threads[t];
      if !p.Looking? { LookStays(monitors, s.history, [entry], p.look, p.key, p.replyTo); }
    }
  }

  lemma AdvanceKeepsInv(monitors: Registered, s: State, thread: ThreadId)
    requires Inv(monitors, s) && thread in s.threads
    ensures Inv(monitors, Advance(s, thread))
  {
    var s' := Advance(s, thread);
    if |s'.history| > |s.history| {
      var entry := s'.history[|s.history|];
      assert s'.history == s.history + [entry];
      assert ThreadRight(monitors, s.history, s.threads[thread]);
      NewEntryKeeps(monitors, s, entry);
      forall key ensures LiveReplyTo(s'.monitors, key) == Latest(monitors, s'.history, key) {
        LatestNext(monitors, s.history, entry, key);
      }
      if entry.Looked? {
        assert s'.history[..|s.history|] == s.history;
        assert LiveReplyTo(s.monitors, entry.key) == Latest(monitors, s.history, entry.key);
      }
    }
  }

  lemma StepKeepsInv(monitors: Registered, s: State, e: Event, expiry: Option<Time>)
    requires Inv(monitors, s)
    ensures Inv(monitors, Step(s, e, expiry))
  {
    match e {
      case Changes(change) =>
        ChangeAgrees(monitors, s, change, expiry);
        if change.Expire? {
          assert s.history + EntriesOf(change) == s.history;
        } else {
          NewEntryKeeps(monitors, s, EntriesOf(change)[0]);
        }
      case Swaps(_) =>
      case Arrives(_, _) =>
      case Advances(thread) => if thread in s.threads { AdvanceKeepsInv(monitors, s, thread); }
    }
  }

  lemma {:induction false} EveryInterleaving(monitors: Registered, events: seq<Event>, expiry: Option<Time>)
    ensures Inv(monitors, After(monitors, events, expiry))
  {
    if events != [] {
      EveryInterleaving(monitors, events[..|events| - 1], expiry);
      StepKeepsInv(monitors, After(monitors, events[..|events| - 1], expiry), events[|events| - 1], expiry);
    }
  }

  // ------------------------------------------------------------------------------------------------------------
  // What is sent, and what may be late

  /**
   In every interleaving, what is sent was looked up before, when it was live and its latest Monitor command asked for
   it there.
   */
  lemma SentWasLiveWhenLookedUp(monitors: Registered, events: seq<Event>, expiry: Option<Time>, i: nat)
    requires var history := After(monitors, events, expiry).history; i < |history| && history[i].Sent?
    ensures var history := After(monitors, events, expiry).history; var sent := history[i];
      && sent.look < i && history[sent.look] == Looked(sent.key, sent.replyTo)
      && Latest(monitors, history[..sent.look], sent.key) == Some(sent.replyTo)
  {
    EveryInterleaving(monitors, events, expiry);
    var history := After(monitors, events, expiry).history;
    assert history[i].look < i;
  }

  /**
   Nothing has been done to the monitor since, or the last that was is a Monitor command asking for the same place.
   */
  predicate StillStands(since: seq<Entry>, key: MonitorKey, replyTo: ReplyTo) {
    LastTouch(since, key).None? || LastTouch(since, key) == Some(Asked(key, replyTo))
  }

  /**
   What is sent is right as it is sent if and only if what was done to its monitor between look and send, if anything,
   ended in the same monitor reporting to the same place.
   */
  lemma RightWhenSentIff(monitors: Registered, events: seq<Event>, expiry: Option<Time>, i: nat)
    requires var history := After(monitors, events, expiry).history; i < |history| && history[i].Sent?
    ensures var history := After(monitors, events, expiry).history; var sent := history[i];
      && sent.look < i
      && (Latest(monitors, history[..i], sent.key) == Some(sent.replyTo) <==>
          StillStands(history[sent.look..i], sent.key, sent.replyTo))
  {
    SentWasLiveWhenLookedUp(monitors, events, expiry, i);
    var history := After(monitors, events, expiry).history;
    var sent := history[i];
    assert history[..i] == history[..sent.look] + history[sent.look..i];
    LastTouchConcat(history[..sent.look], history[sent.look..i], sent.key);
    LastTouchIsThere(history[sent.look..i], sent.key);
  }

  /** So a late one always has an Asked, a Deleted or a Suspended of its monitor between look and send. */
  lemma LateOnlyIfTouched(monitors: Registered, events: seq<Event>, expiry: Option<Time>, i: nat)
    requires var history := After(monitors, events, expiry).history;
      i < |history| && history[i].Sent? && Latest(monitors, history[..i], history[i].key) != Some(history[i].replyTo)
    ensures var history := After(monitors, events, expiry).history;
      exists j :: history[i].look < j < i && Touches(history[j], history[i].key)
  {
    RightWhenSentIff(monitors, events, expiry, i);
    SentWasLiveWhenLookedUp(monitors, events, expiry, i);
    var history := After(monitors, events, expiry).history;
    TouchedSince(history, history[i].look, i, history[i].key);
  }

  lemma TouchedSince(history: seq<Entry>, look: nat, i: nat, key: MonitorKey)
    requires look < i < |history| && history[look].Looked? && LastTouch(history[look..i], key).Some?
    ensures exists j :: look < j < i && Touches(history[j], key)
  {
    var since := history[look..i];
    LastTouchIsThere(since, key);
    var j :| 0 <= j < |since| && since[j] == LastTouch(since, key).value;
    assert history[look + j] == since[j] && !Touches(since[0], key);
  }

  /** One thread's whole course, with one change of the registry just before it sends. */
  function Overtaken(key: MonitorKey, change: Change): seq<Event> {
    [Swaps({key.node}), Arrives(0, key), Advances(0), Advances(0), Changes(change), Advances(0)]
  }

  lemma OvertakenSends(monitors: Registered, key: MonitorKey, replyTo: ReplyTo, change: Change, expiry: Option<Time>)
    requires LiveReplyTo(monitors, key) == Some(replyTo) && !change.Expire?
    ensures After(monitors, Overtaken(key, change), expiry).history
      == [Looked(key, replyTo), EntriesOf(change)[0], Sent(key, replyTo, 0)]
  {
    var events := Overtaken(key, change);
    assert events[..6] == events;
    assert After(monitors, events[..0], expiry) == Initial(monitors);
    assert events[..1][..0] == events[..0] && events[..2][..1] == events[..1] && events[..3][..2] == events[..2];
    assert events[..4][..3] == events[..3] && events[..5][..4] == events[..4] && events[..6][..5] == events[..5];
    var s2 := State(monitors, {key.node}, map[0 := Looking(key)], []);
    assert After(monitors, events[..2], expiry) == s2;
    var s3 := s2.(threads := map[0 := Found(key, replyTo, 0)], history := [Looked(key, replyTo)]);
    assert After(monitors, events[..3], expiry) == s3;
    assert After(monitors, events[..4], expiry) == s3.(threads := map[0 := Sending(key, replyTo, 0)]);
    assert After(monitors, events[..5], expiry).history == [Looked(key, replyTo), EntriesOf(change)[0]];
  }

  /**
   It does happen: any live monitor that is deleted, suspended, or asked for anew from elsewhere between look and send
   still gets a notification, where it no longer wants one.
   */
  lemma LateSendHappens(monitors: Registered, key: MonitorKey, replyTo: ReplyTo, change: Change, expiry: Option<Time>)
    requires LiveReplyTo(monitors, key) == Some(replyTo)
    requires change == Drop(key) || (change.Silence? && change.key == key)
      || (change.Put? && change.definition.key == key && change.definition.replyTo != replyTo)
    ensures var history := After(monitors, Overtaken(key, change), expiry).history;
      && |history| == 3 && history[2] == Sent(key, replyTo, 0)
      && Latest(monitors, history[..2], key) != Some(replyTo)
  {
    OvertakenSends(monitors, key, replyTo, change, expiry);
    var history := After(monitors, Overtaken(key, change), expiry).history;
    assert history[..2] == [Looked(key, replyTo)] + [EntriesOf(change)[0]];
    LatestNext(monitors, [Looked(key, replyTo)], EntriesOf(change)[0], key);
  }

  /** A data change on a thread of its own, from its arrival to its end. */
  function Course(thread: ThreadId, key: MonitorKey): seq<Event> {
    [Arrives(thread, key), Advances(thread), Advances(thread), Advances(thread)]
  }

  lemma AfterTwo(monitors: Registered, events: seq<Event>, expiry: Option<Time>, a: Event, b: Event)
    ensures After(monitors, events + [a, b], expiry) == Step(After(monitors, events + [a], expiry), b, expiry)
  {
    assert events + [a, b] == events + [a] + [b];
    AfterOne(monitors, events + [a], b, expiry);
  }

  /** The data change has been looked up, if there is a live monitor to look up. */
  lemma LookedUp(monitors: Registered, events: seq<Event>, expiry: Option<Time>, thread: ThreadId, key: MonitorKey)
    requires thread !in After(monitors, events, expiry).threads
    ensures var s := After(monitors, events, expiry);
      After(monitors, events + [Arrives(thread, key), Advances(thread)], expiry) ==
        if key in s.monitors && s.monitors[key].suspendedSince.None? then
          var replyTo := s.monitors[key].replyTo;
          s.(threads := s.threads[thread := Found(key, replyTo, |s.history|)],
             history := s.history + [Looked(key, replyTo)])
        else s
  {
    AfterOne(monitors, events, Arrives(thread, key), expiry);
    AfterTwo(monitors, events, expiry, Arrives(thread, key), Advances(thread));
    var threads := After(monitors, events, expiry).threads;
    assert threads[thread := Looking(key)] - {thread} == threads;
  }

  /** And then sent, if its node is listed. */
  lemma SentOn(monitors: Registered, events: seq<Event>, expiry: Option<Time>, thread: ThreadId)
    requires var s := After(monitors, events, expiry); thread in s.threads ==> s.threads[thread].Found?
    ensures var s, s' := After(monitors, events, expiry),
                         After(monitors, events + [Advances(thread), Advances(thread)], expiry);
      s' == if thread !in s.threads then s
            else
              var p := s.threads[thread];
              s.(threads := s.threads - {thread},
                 history := s.history + if p.key.node in s.catalog then [Sent(p.key, p.replyTo, p.look)] else [])
  {
    AfterOne(monitors, events, Advances(thread), expiry);
    AfterTwo(monitors, events, expiry, Advances(thread), Advances(thread));
    var s := After(monitors, events, expiry);
    if thread in s.threads {
      var p := s.threads[thread];
      assert s.threads[thread := Sending(p.key, p.replyTo, p.look)] - {thread} == s.threads - {thread};
      assert s.history + [] == s.history;
    }
  }

  /**
   Undisturbed, a data change is sent to where its monitor reports if and only if the monitor is there, is not
   suspended, and its node is listed; a suspended monitor, or one of a node that has left, hears nothing.
   */
  lemma UndisturbedIsSentIff(monitors: Registered, events: seq<Event>, expiry: Option<Time>, thread: ThreadId,
                             key: MonitorKey)
    requires thread !in After(monitors, events, expiry).threads
    ensures var s, s' := After(monitors, events, expiry), After(monitors, events + Course(thread, key), expiry);
      && s'.monitors == s.monitors && s'.threads == s.threads
      && if key in s.monitors && s.monitors[key].suspendedSince.None? then
           var replyTo := s.monitors[key].replyTo;
           s'.history == s.history + [Looked(key, replyTo)]
             + if key.node in s.catalog then [Sent(key, replyTo, |s.history|)] else []
         else s'.history == s.history
  {
    LookedUp(monitors, events, expiry, thread, key);
    SentOn(monitors, events + [Arrives(thread, key), Advances(thread)], expiry, thread);
    assert events + Course(thread, key) ==
      events + [Arrives(thread, key), Advances(thread)] + [Advances(thread), Advances(thread)];
    var s := After(monitors, events, expiry);
    if key in s.monitors && s.monitors[key].suspendedSince.None? {
      assert s.threads[thread := Found(key, s.monitors[key].replyTo, |s.history|)] - {thread} == s.threads;
    }
  }

  /**
   Its node was listed at some moment after the `look`-th entry was made, and before the history got longer than `i`.
   */
  ghost predicate ListedBetween(monitors: Registered, events: seq<Event>, expiry: Option<Time>, look: nat, i: nat,
                                node: NodeText)
  {
    exists n: nat :: n <= |events| && ListedAt(monitors, events, expiry, n, look, i, node)
  }

  ghost predicate ListedAt(monitors: Registered, events: seq<Event>, expiry: Option<Time>, n: nat, look: nat, i: nat,
                           node: NodeText)
    requires n <= |events|
  {
    var s := After(monitors, events[..n], expiry);
    look < |s.history| <= i && node in s.catalog
  }

  lemma ListedStill(monitors: Registered, events: seq<Event>, expiry: Option<Time>, look: nat, i: nat, i': nat,
                    node: NodeText, e: Event)
    requires ListedBetween(monitors, events, expiry, look, i, node) && i <= i'
    ensures ListedBetween(monitors, events + [e], expiry, look, i', node)
  {
    var n: nat :| n <= |events| && ListedAt(monitors, events, expiry, n, look, i, node);
    assert (events + [e])[..n] == events[..n];
    assert ListedAt(monitors, events + [e], expiry, n, look, i', node);
  }

  /**
   What has been sent, and what is about to be, is of a node that was listed after the look and before the sending.
   */
  ghost predicate AllListed(monitors: Registered, events: seq<Event>, expiry: Option<Time>) {
    var s := After(monitors, events, expiry);
    && (forall i {:trigger s.history[i]} :: 0 <= i < |s.history| && s.history[i].Sent? ==>
         ListedBetween(monitors, events, expiry, s.history[i].look, i, s.history[i].key.node))
    && (forall t :: t in s.threads && s.threads[t].Sending? ==>
         ListedBetween(monitors, events, expiry, s.threads[t].look, |s.history|, s.threads[t].key.node))
  }

  lemma SentListed(monitors: Registered, events: seq<Event>, expiry: Option<Time>, e: Event, i: nat)
    requires AllListed(monitors, events, expiry)
    requires var s' := After(monitors, events + [e], expiry); i < |s'.history| && s'.history[i].Sent?
    ensures var sent := After(monitors, events + [e], expiry).history[i];
      ListedBetween(monitors, events + [e], expiry, sent.look, i, sent.key.node)
  {
    AfterOne(monitors, events, e, expiry);
    var s := After(monitors, events, expiry);
    var sent := After(monitors, events + [e], expiry).history[i];
    if i < |s.history| {
      assert sent == s.history[i];
    } else {
      assert e.Advances? && s.threads[e.thread] == Sending(sent.key, sent.replyTo, sent.look);
    }
    ListedStill(monitors, events, expiry, sent.look, i, i, sent.key.node, e);
  }

  lemma StartsSending(s: State, e: Event, expiry: Option<Time>, t: ThreadId)
    requires t in Step(s, e, expiry).threads && Step(s, e, expiry).threads[t].Sending?
    ensures var s' := Step(s, e, expiry); var p := s'.threads[t];
      && t in s.threads && |s.history| <= |s'.history|
      && (s.threads[t] == p
          || (s.threads[t] == Found(p.key, p.replyTo, p.look) && s'.history == s.history && p.key.node in s'.catalog))
  {}

  lemma SendingListed(monitors: Registered, events: seq<Event>, expiry: Option<Time>, e: Event, t: ThreadId)
    requires AllListed(monitors, events, expiry)
    requires Inv(monitors, After(monitors, events, expiry))
    requires var s' := After(monitors, events + [e], expiry); t in s'.threads && s'.threads[t].Sending?
    ensures var s' := After(monitors, events + [e], expiry); var p := s'.threads[t];
      ListedBetween(monitors, events + [e], expiry, p.look, |s'.history|, p.key.node)
  {
    AfterOne(monitors, events, e, expiry);
    var s, s' := After(monitors, events, expiry), After(monitors, events + [e], expiry);
    var p := s'.threads[t];
    StartsSending(s, e, expiry, t);
    if s.threads[t] == p {
      ListedStill(monitors, events, expiry, p.look, |s.history|, |s'.history|, p.key.node, e);
    } else {
      assert ThreadRight(monitors, s.history, s.threads[t]);
      ListedNow(monitors, events + [e], expiry, p.look, p.key.node);
    }
  }

  lemma ListedNow(monitors: Registered, events: seq<Event>, expiry: Option<Time>, look: nat, node: NodeText)
    requires var s := After(monitors, events, expiry); look < |s.history| && node in s.catalog
    ensures ListedBetween(monitors, events, expiry, look, |After(monitors, events, expiry).history|, node)
  {
    assert events[..|events|] == events;
    assert ListedAt(monitors, events, expiry, |events|, look, |After(monitors, events, expiry).history|, node);
  }

  /** In every interleaving, what is sent is of a node that was listed at some moment between look and send. */
  lemma {:induction false} SentWasListed(monitors: Registered, events: seq<Event>, expiry: Option<Time>)
    ensures AllListed(monitors, events, expiry)
  {
    if events != [] {
      var earlier, e := events[..|events| - 1], events[|events| - 1];
      assert events == earlier + [e];
      SentWasListed(monitors, earlier, expiry);
      EveryInterleaving(monitors, earlier, expiry);
      var s := After(monitors, events, expiry);
      forall i: nat | i < |s.history| && s.history[i].Sent?
        ensures ListedBetween(monitors, events, expiry, s.history[i].look, i, s.history[i].key.node)
      {
        SentListed(monitors, earlier, expiry, e, i);
      }
      forall t | t in s.threads && s.threads[t].Sending?
        ensures ListedBetween(monitors, events, expiry, s.threads[t].look, |s.history|, s.threads[t].key.node)
      {
        SendingListed(monitors, earlier, expiry, e, t);
      }
    }
  }

  // ------------------------------------------------------------------------------------------------------------
  // The coordinator among them

  /** The coordinator's part in an interleaving. */
  function ReaderPart(events: seq<Event>): seq<Event> {
    if events == [] then []
    else
      var last := events[|events| - 1];
      ReaderPart(events[..|events| - 1]) + if last.Changes? || last.Swaps? then [last] else []
  }

  /** Registry and catalog after a step depend on nothing else of the state before it. */
  lemma ReaderStep(s: State, r: State, e: Event, expiry: Option<Time>)
    requires s.monitors == r.monitors && s.catalog == r.catalog
    ensures var (s', r') := (Step(s, e, expiry), if e.Changes? || e.Swaps? then Step(r, e, expiry) else r);
      s'.monitors == r'.monitors && s'.catalog == r'.catalog
  {}

  /** Notifications change neither registry nor catalog: those are what the coordinator alone makes them. */
  lemma {:induction false} ReaderAlone(monitors: Registered, events: seq<Event>, expiry: Option<Time>)
    ensures var (all, reader) := (After(monitors, events, expiry), After(monitors, ReaderPart(events), expiry));
      all.monitors == reader.monitors && all.catalog == reader.catalog
  {
    if events != [] {
      var earlier, last := events[..|events| - 1], events[|events| - 1];
      var part := ReaderPart(earlier);
      ReaderAlone(monitors, earlier, expiry);
      ReaderStep(After(monitors, earlier, expiry), After(monitors, part, expiry), last, expiry);
      assert ReaderPart(events) == if last.Changes? || last.Swaps? then part + [last] else part;
      AfterOne(monitors, part, last, expiry);
    }
  }
}
