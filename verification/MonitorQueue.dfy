/**
 The coordinator's work queue and the promises it makes: whoever waits for a piece of work is told once how it ended,
 whether it was handled, failed, was cut off by the shutdown, or came too late. Writers run on other threads, so a
 run is any interleaving of the steps below.
 */
module MonitorQueue {
  import opened Options

  /** Pieces of work are numbered in the order they are offered to the queue. */
  type WorkId = nat

  datatype Ending = Handled | Cancelled

  /** The reader: handling work, stopping but still accepting, emptying the closed queue, or gone. */
  datatype Phase = Running | Stopping | Draining | Gone

  datatype State = State(
    phase: Phase,
    open: bool,
    queue: seq<WorkId>,
    inHand: Option<WorkId>,
    /** Every call that completes or cancels a piece of work, in order. */
    endings: seq<(WorkId, Ending)>,
    offered: WorkId)

  const Initial := State(Running, true, [], None, [], 0)

  datatype Event =
    | Offer
    | Take
    /** Handling returned, or failed for any reason but the shutdown. */
    | FinishHandling
    /** The shutdown cut handling off. */
    | CutOff
    /** The shutdown came while the reader was waiting for work. */
    | Stop
    | CloseQueue
    | DrainOne

  function EndWork(s: State, work: WorkId, ending: Ending): State {
    s.(endings := s.endings + [(work, ending)])
  }

  /** One atomic step; an event that is not possible in `s` leaves it unchanged. */
  function Step(s: State, e: Event): State {
    match e
    case Offer =>
      var s' := s.(offered := s.offered + 1);
      if s.open then s'.(queue := s.queue + [s.offered]) else EndWork(s', s.offered, Cancelled)
    case Take =>
      if s.phase.Running? && s.inHand.None? && s.queue != [] then s.(inHand := Some(s.queue[0]), queue := s.queue[1..])
        else s
    case FinishHandling =>
      if s.phase.Running? && s.inHand.Some? then EndWork(s.(inHand := None), s.inHand.value, Handled) else s
    case CutOff =>
      if s.phase.Running? && s.inHand.Some? then
        EndWork(s.(inHand := None, phase := Stopping), s.inHand.value, Cancelled) else s
    case Stop =>
      if s.phase.Running? && s.inHand.None? then s.(phase := Stopping) else s
    case CloseQueue =>
      if s.phase.Stopping? then s.(open := false, phase := Draining) else s
    case DrainOne =>
      if !s.phase.Draining? then s
      else if s.queue == [] then s.(phase := Gone)
      else EndWork(s.(queue := s.queue[1..]), s.queue[0], Cancelled)
  }

  function After(events: seq<Event>): State {
    if events == [] then Initial else Step(After(events[..|events| - 1]), events[|events| - 1])
  }

  /** How often a piece of work has been completed or cancelled. */
  function TimesEnded(endings: seq<(WorkId, Ending)>, work: WorkId): nat {
    if endings == [] then 0
    else TimesEnded(endings[..|endings| - 1], work) + if endings[|endings| - 1].0 == work then 1 else 0
  }

  function InHand(s: State, work: WorkId): nat {
    if s.inHand == Some(work) then 1 else 0
  }

  /** In how many places a piece of work is: waiting, in hand, or ended. */
  function Places(s: State, work: WorkId): nat {
    multiset(s.queue)[work] + InHand(s, work) + TimesEnded(s.endings, work)
  }

  ghost predicate Inv(s: State) {
    && (forall work: WorkId :: Places(s, work) == if work < s.offered then 1 else 0)
    && (s.open <==> s.phase.Running? || s.phase.Stopping?)
    && (s.inHand.Some? ==> s.phase.Running?)
    && (s.phase.Gone? ==> s.queue == [])
  }

  lemma PopCount(queue: seq<WorkId>, work: WorkId)
    requires queue != []
    ensures multiset(queue)[work] == multiset(queue[1..])[work] + if queue[0] == work then 1 else 0
  {
    assert queue == [queue[0]] + queue[1..];
  }

  lemma EndCount(endings: seq<(WorkId, Ending)>, work: WorkId, ending: Ending, other: WorkId)
    ensures TimesEnded(endings + [(work, ending)], other) == TimesEnded(endings, other) + if work == other then 1 else 0
  {
    assert (endings + [(work, ending)])[..|endings|] == endings;
  }

  lemma StepKeepsInv(s: State, e: Event)
    requires Inv(s)
    ensures Inv(Step(s, e))
  {
    forall work: WorkId ensures Places(Step(s, e), work) == if work < Step(s, e).offered then 1 else 0 {
      PlacesStep(s, e, work);
    }
  }

  /** Ending a piece of work puts it in one place more. */
  lemma PlacesEnded(s: State, ended: WorkId, ending: Ending, work: WorkId)
    ensures Places(EndWork(s, ended, ending), work) == Places(s, work) + if work == ended then 1 else 0
  {
    EndCount(s.endings, ended, ending, work);
  }

  lemma PlacesOffered(s: State, work: WorkId)
    ensures Places(Step(s, Offer), work) == Places(s, work) + if work == s.offered then 1 else 0
  {
    if !s.open { PlacesEnded(s.(offered := s.offered + 1), s.offered, Cancelled, work); }
  }

  lemma PlacesStep(s: State, e: Event, work: WorkId)
    requires Inv(s)
    ensures Places(Step(s, e), work) == Places(s, work) + if e.Offer? && work == s.offered then 1 else 0
  {
    match e {
      case Offer => PlacesOffered(s, work);
      case Take => if s.queue != [] { PopCount(s.queue, work); }
      case FinishHandling => if s.inHand.Some? { PlacesEnded(s.(inHand := None), s.inHand.value, Handled, work); }
      case CutOff => if s.inHand.Some? { PlacesEnded(s.(inHand := None, phase := Stopping), s.inHand.value, Cancelled,
                                                     work); }
      case Stop =>
      case CloseQueue =>
      case DrainOne =>
        if s.queue != [] {
          PopCount(s.queue, work);
          PlacesEnded(s.(queue := s.queue[1..]), s.queue[0], Cancelled, work);
        }
    }
  }

  lemma {:induction false} EveryRun(events: seq<Event>)
    ensures Inv(After(events))
  {
    if events != [] {
      EveryRun(events[..|events| - 1]);
      StepKeepsInv(After(events[..|events| - 1]), events[|events| - 1]);
    }
  }

  /**
   In every run no piece of work is completed or cancelled twice, and one that has not been yet is in the queue or in
   hand. Once the reader is gone, everything ever offered has been completed or cancelled exactly once, however late
   it was offered.
   */
  lemma EndedExactlyOnce(events: seq<Event>, work: WorkId)
    ensures var s := After(events);
            && TimesEnded(s.endings, work) <= 1
            && (work < s.offered && TimesEnded(s.endings, work) == 0 ==> work in s.queue || s.inHand == Some(work))
            && (s.phase.Gone? && work < s.offered ==> TimesEnded(s.endings, work) == 1)
  {
    EveryRun(events);
    assert Places(After(events), work) <= 1;
  }

  // ------------------------------------------------------------------------------------------------------------
  // Order, and reaching the end

  /** What waits is in the order it was offered, behind what is in hand. */
  ghost predicate QueueOrdered(s: State) {
    && (forall i, j :: 0 <= i < j < |s.queue| ==> s.queue[i] < s.queue[j])
    && (forall i :: 0 <= i < |s.queue| ==> s.queue[i] < s.offered && (s.inHand.Some? ==> s.inHand.value < s.queue[i]))
    && (s.inHand.Some? ==> s.inHand.value < s.offered)
  }

  /** Everything handled so far was offered before all that waits and all that is in hand. */
  ghost predicate HandledBefore(s: State, work: WorkId) {
    && work < s.offered
    && (forall i :: 0 <= i < |s.queue| ==> work < s.queue[i])
    && (s.inHand.Some? ==> work < s.inHand.value)
  }

  /** Work is handled in the order it was offered. */
  ghost predicate HandledInOrder(s: State) {
    && (forall k :: 0 <= k < |s.endings| && s.endings[k].1.Handled? ==> HandledBefore(s, s.endings[k].0))
    && (forall k, l :: 0 <= k < l < |s.endings| && s.endings[k].1.Handled? && s.endings[l].1.Handled? ==>
        s.endings[k].0 < s.endings[l].0)
  }

  lemma HandledBeforeStep(s: State, e: Event, work: WorkId)
    requires QueueOrdered(s) && HandledBefore(s, work)
    ensures HandledBefore(Step(s, e), work)
  {}

  lemma QueueOrderedStep(s: State, e: Event)
    requires QueueOrdered(s)
    ensures QueueOrdered(Step(s, e))
  {}

  lemma HandledInOrderStep(s: State, e: Event)
    requires QueueOrdered(s) && HandledInOrder(s)
    ensures HandledInOrder(Step(s, e))
  {
    var s' := Step(s, e);
    forall k | 0 <= k < |s'.endings| && s'.endings[k].1.Handled?
      ensures HandledBefore(s', s'.endings[k].0)
      ensures forall l :: 0 <= l < k && s'.endings[l].1.Handled? ==> s'.endings[l].0 < s'.endings[k].0
    {
      if k < |s.endings| {
        assert s'.endings[k] == s.endings[k];
        HandledBeforeStep(s, e, s.endings[k].0);
      }
    }
  }

  lemma {:induction false} WorkIsHandledInOrder(events: seq<Event>)
    ensures QueueOrdered(After(events)) && HandledInOrder(After(events))
  {
    if events != [] {
      var n := |events| - 1;
      WorkIsHandledInOrder(events[..n]);
      QueueOrderedStep(After(events[..n]), events[n]);
      HandledInOrderStep(After(events[..n]), events[n]);
    }
  }

  /** From any state the shutdown reaches its end: what is left is cancelled and the reader goes. */
  lemma {:induction false} ShutdownEnds(events: seq<Event>) returns (more: seq<Event>)
    ensures After(events + more).phase.Gone? && After(events + more).offered == After(events).offered
    decreases match After(events).phase case Running => 3 case Stopping => 2 case Draining => 1 case Gone => 0,
              |After(events).queue|
  {
    var s := After(events);
    if s.phase.Gone? {
      assert events + [] == events;
      return [];
    }
    var e := if s.phase.Running? then (if s.inHand.Some? then CutOff else Stop)
             else if s.phase.Stopping? then CloseQueue else DrainOne;
    EveryRun(events);
    assert (events + [e])[..|events|] == events;
    var rest := ShutdownEnds(events + [e]);
    more := [e] + rest;
    assert events + more == events + [e] + rest;
  }

  // ------------------------------------------------------------------------------------------------------------
  // How a wait ends

  lemma Next(events: seq<Event>, e: Event)
    ensures After(events + [e]) == Step(After(events), e)
  {
    assert (events + [e])[..|events|] == events;
  }

  /** The k-th event of a run is that a piece of work, which was in hand, is done. */
  ghost predicate FinishedAt(events: seq<Event>, k: nat, work: WorkId) {
    k < |events| && events[k].FinishHandling? && After(events[..k]).inHand == Some(work)
  }

  /** Whoever waits is told that the work is done exactly if the handling of it came to its end. */
  lemma {:induction false} HandledIff(events: seq<Event>, work: WorkId)
    ensures (work, Handled) in After(events).endings <==> exists k: nat :: FinishedAt(events, k, work)
  {
    if events != [] {
      var n := |events| - 1;
      HandledIff(events[..n], work);
      EveryRun(events[..n]);
      assert forall k: nat :: k < n ==> events[..n][..k] == events[..k];
      forall k: nat | k < n ensures FinishedAt(events, k, work) <==> FinishedAt(events[..n], k, work) {}
      if FinishedAt(events, n, work) {
        assert After(events).endings == After(events[..n]).endings + [(work, Handled)];
      }
    }
  }

  /** Nothing is cancelled before the shutdown begins. */
  lemma {:induction false} CancelledByShutdown(events: seq<Event>, work: WorkId)
    requires (work, Cancelled) in After(events).endings
    ensures !After(events).phase.Running?
  {
    var n := |events| - 1;
    EveryRun(events[..n]);
    if (work, Cancelled) in After(events[..n]).endings { CancelledByShutdown(events[..n], work); }
  }

  /** While the reader runs, whatever waits can come to be handled. */
  lemma {:induction false} WaitingGetsHandled(events: seq<Event>, work: WorkId) returns (more: seq<Event>)
    requires After(events).phase.Running? && (work in After(events).queue || After(events).inHand == Some(work))
    ensures (work, Handled) in After(events + more).endings
    decreases |After(events).queue|, if After(events).inHand.Some? then 1 else 0
  {
    var s := After(events);
    if s.inHand == Some(work) {
      Next(events, FinishHandling);
      return [FinishHandling];
    }
    var e := if s.inHand.Some? then FinishHandling else Take;
    Next(events, e);
    var rest := WaitingGetsHandled(events + [e], work);
    more := [e] + rest;
    assert events + more == events + [e] + rest;
  }

  /** And so can whatever is offered while the reader runs. */
  lemma OfferedGetsHandled(events: seq<Event>) returns (more: seq<Event>)
    requires After(events).phase.Running?
    ensures (After(events).offered, Handled) in After(events + [Offer] + more).endings
  {
    EveryRun(events);
    Next(events, Offer);
    more := WaitingGetsHandled(events + [Offer], After(events).offered);
  }
}
