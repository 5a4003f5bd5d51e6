/**
 The coordinator of all monitors, one piece of work after the other. Kept at every step: the session holds no item the
 registry does not know, and registry and catalog are what the recorded changes of them make -- the changes that
 notifications, on threads of their own, happen in between. For every piece of work it is stated what is sent, and that
 it is true.
 */
module MonitorCoordinator {
  import opened Options
  import opened Monitors
  import opened MonitorStore
  import opened MonitorRegistry
  import opened OpcUaMonitorManager
  import opened Sequences
  import N = MonitorNotifications

  type CommandName = string

  datatype State = StateActive | StateFailed | StatePending | StateDeleted

  function StateOf(result: ApplyResult): State {
    match result
    case Active => StateActive
    case Failed => StateFailed
    case Pending => StatePending
  }

  /** What the broker side is asked to send. */
  datatype Output =
    | Status(key: MonitorKey, name: CommandName, state: State, replyTo: ReplyTo)
    | NotFound(name: CommandName, replyTo: ReplyTo)

  /** The names nodes go by: the one last seen, or the one a node never listed would have. */
  datatype Names = Names(seen: map<NodeText, CommandName>, otherwise: NodeText -> CommandName) {
    function Of(node: NodeText): CommandName {
      if node in seen then seen[node] else otherwise(node)
    }
  }

  // ------------------------------------------------------------------------------------------------------------
  // Live monitors, and what they are told

  ghost predicate IsLive(monitors: Registered, key: MonitorKey) {
    key in monitors && !monitors[key].IsSuspended()
  }

  /** `definitions` are the live monitors whose node is in `nodes`, or is not. */
  ghost predicate LivePart(definitions: seq<MonitorDefinition>, monitors: Registered, nodes: set<NodeText>,
                           inside: bool)
  {
    && DistinctKeys(definitions)
    && (forall i :: 0 <= i < |definitions| ==>
          var key := definitions[i].key;
            IsLive(monitors, key) && monitors[key] == definitions[i] && (key.node in nodes <==> inside))
    && (forall key :: IsLive(monitors, key) && (key.node in nodes <==> inside) ==> key in KeysOf(definitions))
  }

  /** The status that tells a monitor its result, if it has one. */
  function StatusOf(definition: MonitorDefinition, results: map<MonitorKey, ApplyResult>, otherwise: ApplyResult,
                    names: Names): Output
  {
    Status(definition.key, names.Of(definition.key.node),
           StateOf(if definition.key in results then results[definition.key] else otherwise),
           definition.replyTo)
  }

  /** One status per definition, in order, each to its own reply-to. */
  ghost predicate StatusesOf(definitions: seq<MonitorDefinition>, statuses: seq<Output>,
                             results: map<MonitorKey, ApplyResult>, otherwise: ApplyResult, names: Names)
  {
    && |statuses| == |definitions|
    && forall i :: 0 <= i < |definitions| ==> statuses[i] == StatusOf(definitions[i], results, otherwise, names)
  }

  /**
   What the statuses of a rebuild have to go by: the nodes there are, what the server was asked, and how that ended.
   */
  datatype Rebuilt = Rebuilt(nodes: set<NodeText>, before: seq<Exchange>, after: seq<Exchange>,
                             parses: NodeText -> bool, threw: bool)

  /**
   A status of a rebuild tells the truth: a monitor whose node is gone has failed, one is pending when the whole
   rebuild failed, and any other is as the server said.
   */
  ghost predicate Truthful(status: Output, monitors: Registered, rebuilt: Rebuilt) {
    && status.Status? && status.key in monitors
    && if status.key.node !in rebuilt.nodes then status.state.StateFailed?
       else if rebuilt.threw then status.state.StatePending?
       else exists result ::
         status.state == StateOf(result) && Told(rebuilt.before, rebuilt.after, rebuilt.parses, monitors[status.key],
                                                 result)
  }

  /** The results of a rebuild are what the server said, or none when it failed as a whole. */
  ghost predicate ResultsTrue(known: seq<MonitorDefinition>, results: map<MonitorKey, ApplyResult>, rebuilt: Rebuilt) {
    if rebuilt.threw then results == map[]
    else forall d :: d in known ==>
      d.key in results && Told(rebuilt.before, rebuilt.after, rebuilt.parses, d, results[d.key])
  }

  /** Every status of a rebuild tells the truth, and the monitors with an item are just those told they are active. */
  ghost predicate AllTruthful(sent: seq<Output>, monitors: Registered, items: set<MonitorKey>, rebuilt: Rebuilt) {
    && (forall i :: 0 <= i < |sent| ==> Truthful(sent[i], monitors, rebuilt))
    && (!rebuilt.threw ==> forall i :: 0 <= i < |sent| ==> (sent[i].state.StateActive? <==> sent[i].key in items))
  }

  lemma StatusesTruthful(unknown: seq<MonitorDefinition>, known: seq<MonitorDefinition>, monitors: Registered,
                         rebuilt: Rebuilt, names: Names,
                         results: map<MonitorKey, ApplyResult>, u: seq<Output>, k: seq<Output>)
    requires LivePart(unknown, monitors, rebuilt.nodes, false) && LivePart(known, monitors, rebuilt.nodes, true)
    requires StatusesOf(unknown, u, map[], ApplyResult.Failed, names)
    requires StatusesOf(known, k, results, Pending, names)
    requires ResultsTrue(known, results, rebuilt)
    ensures forall i :: 0 <= i < |u + k| ==> Truthful((u + k)[i], monitors, rebuilt)
  {
    forall i | 0 <= i < |u + k| ensures Truthful((u + k)[i], monitors, rebuilt) {
      if i < |u| {
        assert unknown[i].key == u[i].key;
      } else {
        var d := known[i - |u|];
        assert d in known && (u + k)[i] == StatusOf(d, results, Pending, names);
      }
    }
  }

  /** A status for a live monitor, to its own reply-to and under the name of its node. */
  ghost predicate Addressed(status: Output, monitors: Registered, names: Names) {
    && status.Status? && N.LiveReplyTo(monitors, status.key) == Some(status.replyTo)
    && status.name == names.Of(status.key.node)
  }

  /** Exactly one status for every live monitor, properly addressed, and nothing for any other. */
  ghost predicate OneStatusEach(statuses: seq<Output>, monitors: Registered, names: Names) {
    && (forall i :: 0 <= i < |statuses| ==> Addressed(statuses[i], monitors, names))
    && (forall i, j :: 0 <= i < j < |statuses| ==> statuses[i].key != statuses[j].key)
    && (forall key :: IsLive(monitors, key) ==> exists i :: 0 <= i < |statuses| && statuses[i].key == key)
  }

  /** One part of the live monitors has each been told once. */
  ghost predicate PartTold(monitors: Registered, nodes: set<NodeText>, inside: bool, statuses: seq<Output>,
                           names: Names)
  {
    && (forall i :: 0 <= i < |statuses| ==>
          Addressed(statuses[i], monitors, names) && (statuses[i].key.node in nodes <==> inside))
    && (forall i, j :: 0 <= i < j < |statuses| ==> statuses[i].key != statuses[j].key)
    && (forall key :: IsLive(monitors, key) && (key.node in nodes <==> inside) ==>
        exists i :: 0 <= i < |statuses| && statuses[i].key == key)
  }

  lemma StatusesTellPart(part: seq<MonitorDefinition>, monitors: Registered, nodes: set<NodeText>, inside: bool,
                         statuses: seq<Output>, results: map<MonitorKey, ApplyResult>, otherwise: ApplyResult,
                         names: Names)
    requires LivePart(part, monitors, nodes, inside) && StatusesOf(part, statuses, results, otherwise, names)
    ensures PartTold(monitors, nodes, inside, statuses, names)
  {
    forall key | IsLive(monitors, key) && (key.node in nodes <==> inside)
      ensures exists i :: 0 <= i < |statuses| && statuses[i].key == key
    {
      assert key in KeysOf(part);
      var i :| 0 <= i < |part| && part[i].key == key;
      assert statuses[i].key == key;
    }
    forall i, j | 0 <= i < j < |statuses| ensures statuses[i].key != statuses[j].key {
      assert part[i].key != part[j].key;
    }
  }

  /** The two parts together are everybody. */
  lemma StatusesReachEveryone(monitors: Registered, nodes: set<NodeText>, u: seq<Output>, k: seq<Output>, names: Names)
    requires PartTold(monitors, nodes, false, u, names) && PartTold(monitors, nodes, true, k, names)
    ensures OneStatusEach(u + k, monitors, names)
  {
    var all := u + k;
    forall key | IsLive(monitors, key) ensures exists i :: 0 <= i < |all| && all[i].key == key {
      var part := if key.node in nodes then k else u;
      var i :| 0 <= i < |part| && part[i].key == key;
      assert all[if key.node in nodes then |u| + i else i].key == key;
    }
  }

  lemma EveryoneTold(known: seq<MonitorDefinition>, unknown: seq<MonitorDefinition>, monitors: Registered,
                     rebuilt: Rebuilt, names: Names, results: map<MonitorKey, ApplyResult>, u: seq<Output>,
                     k: seq<Output>)
    requires LivePart(unknown, monitors, rebuilt.nodes, false) && LivePart(known, monitors, rebuilt.nodes, true)
    requires StatusesOf(unknown, u, map[], ApplyResult.Failed, names)
    requires StatusesOf(known, k, results, Pending, names)
    ensures OneStatusEach(u + k, monitors, names)
  {
    StatusesTellPart(unknown, monitors, rebuilt.nodes, false, u, map[], ApplyResult.Failed, names);
    StatusesTellPart(known, monitors, rebuilt.nodes, true, k, results, Pending, names);
    StatusesReachEveryone(monitors, rebuilt.nodes, u, k, names);
  }

  /** Where items are just those of the monitors that are Active, those told so are just the ones that have an item. */
  lemma ActiveHaveItems(known: seq<MonitorDefinition>, unknown: seq<MonitorDefinition>, items: set<MonitorKey>,
                        rebuilt: Rebuilt, names: Names, results: map<MonitorKey, ApplyResult>, u: seq<Output>,
                        k: seq<Output>)
    requires forall i :: 0 <= i < |unknown| ==> unknown[i].key.node !in rebuilt.nodes
    requires StatusesOf(unknown, u, map[], ApplyResult.Failed, names)
    requires StatusesOf(known, k, results, Pending, names)
    requires forall key :: key in items ==> key.node in rebuilt.nodes
    requires forall key :: key in items <==> key in results && results[key].Active?
    ensures forall i :: 0 <= i < |u + k| ==> ((u + k)[i].state.StateActive? <==> (u + k)[i].key in items)
  {
    forall i | 0 <= i < |u + k| ensures (u + k)[i].state.StateActive? <==> (u + k)[i].key in items {
      if i < |u| {
        assert u[i] == StatusOf(unknown[i], map[], ApplyResult.Failed, names);
      } else {
        assert k[i - |u|] == StatusOf(known[i - |u|], results, Pending, names);
      }
    }
  }

  lemma TruthTold(known: seq<MonitorDefinition>, unknown: seq<MonitorDefinition>, monitors: Registered,
                  items: set<MonitorKey>, rebuilt: Rebuilt, names: Names, results: map<MonitorKey, ApplyResult>,
                  u: seq<Output>, k: seq<Output>)
    requires LivePart(unknown, monitors, rebuilt.nodes, false) && LivePart(known, monitors, rebuilt.nodes, true)
    requires StatusesOf(unknown, u, map[], ApplyResult.Failed, names)
    requires StatusesOf(known, k, results, Pending, names) && ResultsTrue(known, results, rebuilt)
    requires forall key :: key in items ==> key.node in rebuilt.nodes
    requires !rebuilt.threw ==> forall key :: key in items <==> key in results && results[key].Active?
    ensures AllTruthful(u + k, monitors, items, rebuilt)
  {
    StatusesTruthful(unknown, known, monitors, rebuilt, names, results, u, k);
    if !rebuilt.threw { ActiveHaveItems(known, unknown, items, rebuilt, names, results, u, k); }
  }

  /**
   Whether a reply-to's bus still exists; Unknown when that could not be found out. A check that throws a cancellation
   aborts the whole round: the coordinator takes that for its own, whoever's it is.
   */
  datatype Check = Exists | Gone | Unknown | Aborts

  /** What a reply-to check makes of one monitor. */
  function Checked(definition: MonitorDefinition, check: ReplyTo -> Check, now: Time): MonitorDefinition {
    if check(definition.replyTo).Gone? then MonitorRegistry.Suspended(definition, now) else definition
  }

  function AllChecked(monitors: Registered, check: ReplyTo -> Check, now: Time): Registered {
    map key | key in monitors :: Checked(monitors[key], check, now)
  }

  /** What a round makes of the monitors when it gets to some of the reply-tos only. */
  function PartChecked(monitors: Registered, asked: set<ReplyTo>, check: ReplyTo -> Check, now: Time): Registered {
    map key | key in monitors :: if monitors[key].replyTo in asked then Checked(monitors[key], check, now)
      else monitors[key]
  }

  /** Some live monitor reports to `replyTo`. */
  ghost predicate IsReportedTo(monitors: Registered, replyTo: ReplyTo) {
    exists key :: IsLive(monitors, key) && monitors[key].replyTo == replyTo
  }

  predicate EndsInAbort(asked: seq<ReplyTo>, check: ReplyTo -> Check) {
    asked != [] && check(asked[|asked| - 1]).Aborts?
  }

  /**
   A round of checks, in whatever order: it asks about reply-tos of live monitors, each once, up to the first whose
   check aborts, or until it has asked about all of them.
   */
  ghost predicate IsRound(monitors: Registered, asked: seq<ReplyTo>, check: ReplyTo -> Check) {
    && Distinct(asked) && (forall i :: 0 <= i < |asked| ==> IsReportedTo(monitors, asked[i]))
    && (forall i :: 0 <= i < |asked| - 1 ==> !check(asked[i]).Aborts?)
    && (EndsInAbort(asked, check) || forall key :: IsLive(monitors, key) ==> monitors[key].replyTo in asked)
  }

  ghost predicate SomeReplyToIsGone(monitors: Registered, check: ReplyTo -> Check) {
    exists key :: IsLive(monitors, key) && check(monitors[key].replyTo).Gone?
  }

  ghost predicate SomeCheckAborts(monitors: Registered, check: ReplyTo -> Check) {
    exists key :: IsLive(monitors, key) && check(monitors[key].replyTo).Aborts?
  }

  /** A round that gets to some reply-tos only does the whole work exactly when it misses none that is gone. */
  lemma PartIsAllIff(monitors: Registered, asked: set<ReplyTo>, check: ReplyTo -> Check, now: Time)
    ensures PartChecked(monitors, asked, check, now) == AllChecked(monitors, check, now) <==>
      forall key :: IsLive(monitors, key) && check(monitors[key].replyTo).Gone? ==> monitors[key].replyTo in asked
  {
    var part, all := PartChecked(monitors, asked, check, now), AllChecked(monitors, check, now);
    if part == all {
      forall key | IsLive(monitors, key) && check(monitors[key].replyTo).Gone? ensures monitors[key].replyTo in asked {
        assert all[key] == part[key];
      }
    } else {
      var key :| key in monitors && part[key] != all[key];
      assert IsLive(monitors, key) && check(monitors[key].replyTo).Gone? && monitors[key].replyTo !in asked;
    }
  }

  /**
   A round that is cut short leaves alone a monitor whose reply-to is gone, if it comes to the one that aborts first.
   */
  lemma AbortLeavesGone(monitors: Registered, aborting: MonitorKey, gone: MonitorKey, check: ReplyTo -> Check,
                        now: Time)
    requires IsLive(monitors, aborting) && check(monitors[aborting].replyTo).Aborts?
    requires IsLive(monitors, gone) && check(monitors[gone].replyTo).Gone?
    ensures var asked := [monitors[aborting].replyTo];
      && IsRound(monitors, asked, check)
      && PartChecked(monitors, SetOf(asked), check, now) != AllChecked(monitors, check, now)
  {
    var asked := [monitors[aborting].replyTo];
    assert IsReportedTo(monitors, asked[0]);
    assert monitors[gone].replyTo !in SetOf(asked);
    PartIsAllIff(monitors, SetOf(asked), check, now);
  }

  /**
   In every order of the groups a round suspends all it should if and only if, of the monitors there are, none has a
   check that aborts or none a reply-to that is gone.
   */
  lemma EveryRoundIsWholeIff(monitors: Registered, check: ReplyTo -> Check, now: Time)
    ensures !SomeCheckAborts(monitors, check) || !SomeReplyToIsGone(monitors, check) <==>
      forall asked :: IsRound(monitors, asked, check) ==>
        PartChecked(monitors, SetOf(asked), check, now) == AllChecked(monitors, check, now)
  {
    if aborting, gone :| IsLive(monitors, aborting) && check(monitors[aborting].replyTo).Aborts?
                         && IsLive(monitors, gone) && check(monitors[gone].replyTo).Gone? {
      AbortLeavesGone(monitors, aborting, gone, check, now);
    } else {
      forall asked | IsRound(monitors, asked, check)
        ensures PartChecked(monitors, SetOf(asked), check, now) == AllChecked(monitors, check, now)
      {
        PartIsAllIff(monitors, SetOf(asked), check, now);
      }
    }
  }

  /** A reply-to check part-way: `rest` is still to be looked at, as it was; every other monitor is as checked. */
  ghost predicate PartlyChecked(before: Registered, monitors: Registered, rest: seq<MonitorDefinition>,
                                check: ReplyTo -> Check, now: Time)
  {
    && monitors.Keys == before.Keys
    && (forall d :: d in rest ==> IsLive(monitors, d.key) && monitors[d.key] == d)
    && (forall key :: key in before ==>
         monitors[key] == if key in KeysOf(rest) then before[key] else Checked(before[key], check, now))
  }

  lemma CheckedStep(before: Registered, monitors: Registered, after: Registered, rest: seq<MonitorDefinition>,
                    group: seq<MonitorDefinition>, others: seq<MonitorDefinition>, check: ReplyTo -> Check, now: Time)
    requires PartlyChecked(before, monitors, rest, check, now)
    requires KeysOf(group) + KeysOf(others) == KeysOf(rest) && KeysOf(group) !! KeysOf(others)
    requires forall d :: d in others ==> d in rest
    requires after.Keys == monitors.Keys
    requires forall key :: key in after ==>
      after[key] == if key in KeysOf(group) then Checked(monitors[key], check, now) else monitors[key]
    ensures PartlyChecked(before, after, others, check, now)
  {
    forall d | d in others ensures IsLive(after, d.key) && after[d.key] == d {
      assert d.key in KeysOf(others);
    }
  }

  function SetOf(asked: seq<ReplyTo>): set<ReplyTo> {
    set replyTo | replyTo in asked
  }

  /** The reply-tos asked about so far: each once, none still to come, none that aborted, and all of those gone by. */
  ghost predicate AskedSoFar(before: Registered, rest: seq<MonitorDefinition>, asked: seq<ReplyTo>,
                             check: ReplyTo -> Check)
  {
    && (forall d :: d in rest ==> d.replyTo !in asked) && Distinct(asked)
    && (forall i :: 0 <= i < |asked| ==> !check(asked[i]).Aborts? && IsReportedTo(before, asked[i]))
    && (forall key :: IsLive(before, key) && key !in KeysOf(rest) ==> before[key].replyTo in asked)
  }

  lemma AskedNext(before: Registered, monitors: Registered, rest: seq<MonitorDefinition>, group: seq<MonitorDefinition>,
                  others: seq<MonitorDefinition>,
                  asked: seq<ReplyTo>, check: ReplyTo -> Check, now: Time)
    requires rest != [] && AskedSoFar(before, rest, asked, check) && PartlyChecked(before, monitors, rest, check, now)
    requires !check(rest[0].replyTo).Aborts?
    requires KeysOf(group) + KeysOf(others) == KeysOf(rest)
    requires forall d :: d in group ==> d in rest && d.replyTo == rest[0].replyTo
    requires forall d :: d in others ==> d in rest && d.replyTo != rest[0].replyTo
    ensures AskedSoFar(before, others, asked + [rest[0].replyTo], check)
  {
    assert rest[0] in rest;
    forall key | IsLive(before, key) && key !in KeysOf(others)
      ensures before[key].replyTo in asked + [rest[0].replyTo]
    {
      if key in KeysOf(rest) {
        var d :| d in group && d.key == key;
        assert d in rest && monitors[key] == d && before[key] == monitors[key];
      }
    }
  }

  /**
   What a round that asked about `asked`, in that order, made of the monitors. It gets to everybody if and only if no
   check aborts it; otherwise whoever reports to none of those asked about is left alone.
   */
  ghost predicate RoundRight(before: Registered, after: Registered, asked: seq<ReplyTo>, aborted: bool,
                             check: ReplyTo -> Check, now: Time)
  {
    && IsRound(before, asked, check) && aborted == EndsInAbort(asked, check)
    && (aborted <==> SomeCheckAborts(before, check))
    && after == PartChecked(before, SetOf(asked), check, now)
    && (!aborted ==> after == AllChecked(before, check, now))
  }

  lemma RoundEnds(before: Registered, monitors: Registered, asked: seq<ReplyTo>, check: ReplyTo -> Check, now: Time)
    requires PartlyChecked(before, monitors, [], check, now) && AskedSoFar(before, [], asked, check)
    ensures RoundRight(before, monitors, asked, false, check, now)
  {
    forall key | IsLive(before, key) ensures before[key].replyTo in asked { assert key !in KeysOf([]); }
    PartIsAllIff(before, SetOf(asked), check, now);
  }

  lemma RoundAborts(before: Registered, monitors: Registered, rest: seq<MonitorDefinition>, asked: seq<ReplyTo>,
                    check: ReplyTo -> Check, now: Time)
    requires rest != [] && check(rest[0].replyTo).Aborts?
    requires PartlyChecked(before, monitors, rest, check, now) && AskedSoFar(before, rest, asked, check)
    ensures RoundRight(before, monitors, asked + [rest[0].replyTo], true, check, now)
  {
    var d := rest[0];
    assert d in rest && d.key in KeysOf(rest);
    assert IsLive(before, d.key) && before[d.key].replyTo == d.replyTo;
    AbortEndsRound(before, asked, d, check);
    AbortedPart(before, monitors, rest, asked, check, now);
  }

  lemma AbortEndsRound(before: Registered, asked: seq<ReplyTo>, d: MonitorDefinition, check: ReplyTo -> Check)
    requires IsLive(before, d.key) && before[d.key].replyTo == d.replyTo && check(d.replyTo).Aborts?
    requires Distinct(asked) && d.replyTo !in asked
    requires forall i :: 0 <= i < |asked| ==> !check(asked[i]).Aborts? && IsReportedTo(before, asked[i])
    ensures IsRound(before, asked + [d.replyTo], check) && EndsInAbort(asked + [d.replyTo], check)
  {
    assert IsReportedTo(before, d.replyTo);
  }

  /** Up to the reply-to whose check aborts, everybody is as checked; from there on, as before. */
  lemma AbortedPart(before: Registered, monitors: Registered, rest: seq<MonitorDefinition>, asked: seq<ReplyTo>,
                    check: ReplyTo -> Check, now: Time)
    requires rest != [] && check(rest[0].replyTo).Aborts?
    requires PartlyChecked(before, monitors, rest, check, now) && AskedSoFar(before, rest, asked, check)
    ensures monitors == PartChecked(before, SetOf(asked + [rest[0].replyTo]), check, now)
  {
    var part := PartChecked(before, SetOf(asked + [rest[0].replyTo]), check, now);
    forall key | key in before ensures monitors[key] == part[key] {
      if key in KeysOf(rest) {
        var e :| e in rest && e.key == key;
        assert monitors[key] == e == before[key];
      }
    }
  }

  /** One unit of work, with what the handling of it learns from outside. */
  datatype Work =
    | MonitorRequest(key: MonitorKey, name: CommandName, parameters: MonitorParameters, replyTo: ReplyTo)
    | DeleteRequest(key: MonitorKey, name: CommandName, replyTo: ReplyTo)
    | DeleteUnlistedRequest(sender: Sender, name: CommandName, replyTo: ReplyTo)
    | SessionStart(parses: NodeText -> bool, listed: seq<(NodeText, CommandName)>, now: Time)
    | SessionEnd
    | ReplyToCheck(check: ReplyTo -> Check, now: Time)
    | ExpiryCheck(now: Time)

  /** What each unit of work makes of the monitors there are. */
  ghost predicate Handled(work: Work, before: Registered, after: Registered, expiry: Option<Time>) {
    match work
    case MonitorRequest(key, _, parameters, replyTo) =>
      after == before[key := MonitorDefinition(key, parameters, replyTo, None)]
    case DeleteRequest(key, _, _) => after == before - {key}
    case DeleteUnlistedRequest(sender, _, _) =>
      after == before || exists key :: key in before && key.sender == sender && after == before - {key}
    case SessionStart(_, _, now) => after == Unexpired(before, expiry, now)
    case SessionEnd => after == before
    case ReplyToCheck(check, now) =>
      exists asked, aborted :: RoundRight(before, after, asked, aborted, check, now)
    case ExpiryCheck(now) => after == Unexpired(before, expiry, now)
  }

  function Nodes(listed: seq<(NodeText, CommandName)>): set<NodeText> {
    set item | item in listed :: item.0
  }

  ghost predicate LastListed(listed: seq<(NodeText, CommandName)>, i: nat) {
    i < |listed| && forall j :: i < j < |listed| ==> listed[j].0 != listed[i].0
  }

  /** Each node that is listed goes by the name it was last listed under, and the others as before. */
  ghost predicate Renamed(listed: seq<(NodeText, CommandName)>, before: map<NodeText, CommandName>,
                          after: map<NodeText, CommandName>)
  {
    && (forall i: nat :: LastListed(listed, i) ==> listed[i].0 in after && after[listed[i].0] == listed[i].1)
    && (forall node :: node !in Nodes(listed) ==>
          (node in after <==> node in before) && (node in before ==> after[node] == before[node]))
  }

  lemma LastListedNext(listed: seq<(NodeText, CommandName)>, i: nat, j: nat)
    requires i < |listed| && LastListed(listed[..i + 1], j) && j < i
    ensures LastListed(listed[..i], j) && listed[i].0 != listed[j].0
  {
    var more := listed[..i + 1];
    assert more[i].0 != more[j].0;
    forall k | j < k < i ensures listed[..i][k].0 != listed[..i][j].0 { assert more[k].0 != more[j].0; }
  }

  lemma RenamedNext(listed: seq<(NodeText, CommandName)>, i: nat, before: map<NodeText, CommandName>,
                    after: map<NodeText, CommandName>)
    requires i < |listed| && Renamed(listed[..i], before, after)
    ensures Renamed(listed[..i + 1], before, after[listed[i].0 := listed[i].1])
  {
    var more, after' := listed[..i + 1], after[listed[i].0 := listed[i].1];
    assert more == listed[..i] + [listed[i]];
    forall j: nat | LastListed(more, j) ensures more[j].0 in after' && after'[more[j].0] == more[j].1 {
      if j < i { LastListedNext(listed, i, j); }
    }
    forall node | node !in Nodes(more) ensures node !in Nodes(listed[..i]) && node != listed[i].0 {
      assert more[i] in more;
    }
  }

  /**
   What each unit of work makes of the names: whatever a client asked for goes by the name it was asked for under, and
   whatever a new session lists by the name it is listed under; nothing else is renamed, and no name is forgotten.
   */
  ghost predicate NamesRight(work: Work, before: Names, after: Names) {
    && after.otherwise == before.otherwise
    && match work
       case MonitorRequest(key, name, _, _) => after.seen == before.seen[key.node := name]
       case DeleteRequest(key, name, _) => after.seen == before.seen[key.node := name]
       case SessionStart(_, listed, _) => Renamed(listed, before.seen, after.seen)
       case _ => after.seen == before.seen
  }

  /** What there is of a session: the monitors with an item, its subscriptions, and all that was asked of the server. */
  datatype View = View(items: set<MonitorKey>, intervals: set<Interval>, log: seq<Exchange>, parses: NodeText -> bool)

  /**
   What one unit of work came to: what was sent, for each call that applies monitors whether it threw, and what a
   session that ended was last asked.
   */
  datatype Dealt = Dealt(sent: seq<Output>, threw: seq<bool>, ended: seq<Exchange>)

  function ItemsOf(view: Option<View>): set<MonitorKey> {
    if view.Some? then view.value.items else {}
  }

  /** The session is the same one, which has been asked more, if anything. */
  ghost predicate Stays(was: Option<View>, now: Option<View>) {
    && (was.Some? <==> now.Some?)
    && (was.Some? ==> now.value.parses == was.value.parses && was.value.log <= now.value.log)
  }

  /** The session there was is over: each of its subscriptions has been asked to go, and nothing else. */
  ghost predicate Over(was: Option<View>, ended: seq<Exchange>) {
    if was.Some? then Manager.DeletesAll(was.value.intervals, ended) else ended == []
  }

  /** Just the items of monitors that are gone have gone from the session, each with a request to delete it. */
  ghost predicate Cleared(was: Option<View>, now: Option<View>, keys: set<MonitorKey>) {
    && Stays(was, now) && ItemsOf(now) == ItemsOf(was) - keys
    && forall key :: key in ItemsOf(was) && key in keys ==> ItemDeleted(was.value.log, now.value.log, key)
  }

  ghost predicate ItemDeleted(before: seq<Exchange>, after: seq<Exchange>, key: MonitorKey) {
    exists k :: |before| <= k < |after| && after[k] == DeleteItem(key)
  }

  lemma DeletedLater(a: seq<Exchange>, b: seq<Exchange>, c: seq<Exchange>, d: seq<Exchange>, key: MonitorKey)
    requires a <= b <= c <= d && ItemDeleted(b, c, key)
    ensures ItemDeleted(a, d, key)
  {
    var k :| |b| <= k < |c| && c[k] == DeleteItem(key);
    assert d[k] == DeleteItem(key);
  }

  lemma ClearedOn(a: Option<View>, b: Option<View>, c: Option<View>, keys: set<MonitorKey>, more: set<MonitorKey>)
    requires Cleared(a, b, keys) && Cleared(b, c, more)
    ensures Cleared(a, c, keys + more)
  {
    forall key | key in ItemsOf(a) && key in keys + more ensures ItemDeleted(a.value.log, c.value.log, key) {
      if key in keys {
        DeletedLater(a.value.log, a.value.log, b.value.log, c.value.log, key);
      } else {
        DeletedLater(a.value.log, b.value.log, c.value.log, c.value.log, key);
      }
    }
  }

  /**
   A monitor applied to the session is told what the server said, or, when applying it threw or there is no session,
   that it is pending. No other item comes or goes; and the monitor has one if it was told that it is active.
   */
  ghost predicate Applied(was: Option<View>, now: Option<View>, definition: MonitorDefinition, result: ApplyResult,
                          threw: seq<bool>)
  {
    && Stays(was, now)
    && if was.None? then result.Pending? && threw == []
       else
         && |threw| == 1
         && AppliedAs(result, definition, threw[0], was.value.log, now.value.log, was.value.parses)
         && now.value.items - {definition.key} == was.value.items - {definition.key}
         && (!threw[0] && result.Active? ==> definition.key in now.value.items)
  }

  /**
   After a unit of work the session has no item of a monitor that is gone; and none, at its start, of one suspended or
   unlisted.
   */
  ghost predicate ItemsRight(work: Work, after: Registered, items: set<MonitorKey>) {
    && items <= after.Keys
    && (work.SessionStart? ==> forall key :: key in items ==> IsLive(after, key) && key.node in Nodes(work.listed))
  }

  /**
   What each unit of work sends, by the names nodes go by afterwards: a Monitor is answered once with what became of
   applying it, a Delete once with whether there was anything to delete, each at its own reply-to; a Delete of a node
   not listed takes a monitor of the sender's whose node goes by that name, and is not found exactly if there is none; a
   session start tells every live monitor once, and the truth; nothing else sends anything.
   */
  ghost predicate Answers(work: Work, before: Registered, after: Registered, was: Option<View>, now: Option<View>,
                          names: Names, dealt: Dealt)
  {
    match work
    case MonitorRequest(key, name, parameters, replyTo) =>
      exists result :: dealt.sent == [Status(key, name, StateOf(result), replyTo)]
                       && Applied(was, now, MonitorDefinition(key, parameters, replyTo, None), result, dealt.threw)
    case DeleteRequest(key, name, replyTo) =>
      dealt.sent == [Status(key, name, if key in before then StateDeleted else StateFailed, replyTo)]
    case DeleteUnlistedRequest(sender, name, replyTo) =>
      || (after == before && dealt.sent == [NotFound(name, replyTo)]
          && forall key :: key in before && key.sender == sender ==> names.Of(key.node) != name)
      || (exists key ::
           key in before && key.sender == sender && names.Of(key.node) == name && after == before - {key}
             && dealt.sent == [Status(key, name, StateDeleted, replyTo)])
    case SessionStart(parses, listed, _) =>
      && OneStatusEach(dealt.sent, after, names) && now.Some? && now.value.parses == parses && |dealt.threw| == 1
      && AllTruthful(dealt.sent, after, now.value.items,
                     Rebuilt(Nodes(listed), [], now.value.log, parses, dealt.threw[0]))
    case _ => dealt.sent == []
  }

  /**
   What each unit of work does to the session: it ends with the session, and at the start of another; deletions and
   expiry take out just the items of the monitors that are gone; a check of reply-tos asks for items to stop and leaves
   them in.
   */
  ghost predicate SessionRight(work: Work, before: Registered, after: Registered, was: Option<View>, now: Option<View>,
                               dealt: Dealt)
  {
    && (if work.SessionStart? || work.SessionEnd? then Over(was, dealt.ended) else Stays(was, now) && dealt.ended == [])
    && (work.SessionEnd? ==> now.None?)
    && (!work.MonitorRequest? && !work.SessionStart? ==> dealt.threw == [])
    && (work.DeleteRequest? || work.DeleteUnlistedRequest? || work.ExpiryCheck? ==>
        Cleared(was, now, before.Keys - after.Keys))
    && (work.ReplyToCheck? && was.Some? ==>
          now.value.items == was.value.items && Hushed(before, after, was.value.items, was.value.log, now.value.log))
  }

  /**
   What a monitor applied to the session is told: what the server said, or, when applying it threw, that it is pending.
   */
  ghost predicate AppliedAs(result: ApplyResult, definition: MonitorDefinition, threw: bool, before: seq<Exchange>,
                            after: seq<Exchange>, parses: NodeText -> bool)
  {
    if threw then result.Pending? else Told(before, after, parses, definition, result)
  }

  /** Every monitor that was live and no longer is has had its item, if it has one, asked to stop reporting. */
  ghost predicate Hushed(monitors: Registered, after: Registered, items: set<MonitorKey>, before: seq<Exchange>,
                         log: seq<Exchange>)
  {
    forall key :: key in items && IsLive(monitors, key) && !IsLive(after, key) ==> DisableAsked(before, log, key)
  }

  lemma HushedOn(a: Registered, b: Registered, c: Registered, items: set<MonitorKey>, logA: seq<Exchange>,
                 logB: seq<Exchange>, logC: seq<Exchange>)
    requires Hushed(a, b, items, logA, logB) && Hushed(b, c, items, logB, logC) && logA <= logB <= logC
    ensures Hushed(a, c, items, logA, logC)
  {
    forall key | key in items && IsLive(a, key) && !IsLive(c, key) ensures DisableAsked(logA, logC, key) {
      if IsLive(b, key) {
        var k :| |logB| <= k < |logC| && logC[k].DisableItem? && logC[k].key == key;
        assert |logA| <= k;
      } else {
        var k :| |logA| <= k < |logB| && logB[k].DisableItem? && logB[k].key == key;
        assert logC[k] == logB[k];
      }
    }
  }

  /** Since `before`, the server has been asked to stop an item reporting. */
  ghost predicate DisableAsked(before: seq<Exchange>, after: seq<Exchange>, key: MonitorKey) {
    exists k :: |before| <= k < |after| && after[k].DisableItem? && after[k].key == key
  }

  // ------------------------------------------------------------------------------------------------------------
  // The coordinator

  class Coordinator {
    const registry: Registry
    /** The name of the Delete command a node never listed would have. */
    const defaultName: NodeText -> CommandName
    var session: Manager?
    var catalog: set<NodeText>
    var namesSeen: map<NodeText, CommandName>
    var log: seq<Output>
    /** Of every call into the session to apply monitors, whether it threw. */
    var thrown: seq<bool>
    /** Every change made to registry or catalog, in order. */
    ghost var acts: seq<N.Event>
    ghost const initial: Registered

    constructor (registry: Registry, defaultName: NodeText -> CommandName)
      requires registry.Valid()
      ensures Valid() && this.registry == registry && session == null && log == [] && thrown == [] && acts == []
    {
      this.registry, this.defaultName := registry, defaultName;
      session, catalog, namesSeen, log, thrown := null, {}, map[], [], [];
      acts, initial := [], registry.monitors;
    }

    ghost function SessionObjects(): set<object>
      reads this`session, session
    {
      if session == null then {} else {session} + set s | s in session.subscriptions.Values :: s as object
    }

    /** No monitored item outlives its monitor. */
    ghost predicate SessionOk()
      reads this`session, registry, SessionObjects()
    {
      session != null ==> session.Valid() && session.entries.Keys <= registry.monitors.Keys
    }

    /** Registry and catalog are what the recorded changes make them. */
    ghost predicate Acted()
      reads this`acts, this`catalog, registry
    {
      var s := N.After(initial, acts, registry.expiry);
      registry.monitors == s.monitors && catalog == s.catalog
    }

    /**
     Whatever notifications, on threads of their own, happened in between: registry and catalog were what the recorded
     changes make them, and what was sent was live, and wanted there, when it was looked up.
     */
    lemma AmongNotifications(events: seq<N.Event>)
      requires Valid() && N.ReaderPart(events) == acts
      ensures var s := N.After(initial, events, registry.expiry);
        registry.monitors == s.monitors && catalog == s.catalog && N.Inv(initial, s)
    {
      N.ReaderAlone(initial, events, registry.expiry);
      N.EveryInterleaving(initial, events, registry.expiry);
    }

    ghost function Seen(): Option<View>
      reads this`session, session
    {
      if session == null then None
      else Some(View(session.entries.Keys, session.subscriptions.Keys, session.log, session.parses))
    }

    /** The session's objects are new, or were already the session's. */
    twostate predicate NoForeignObjects()
      reads this`session, session
    {
      forall o :: o in SessionObjects() ==> fresh(o) || o in old(SessionObjects())
    }

    ghost predicate Valid()
      reads this`session, this`acts, this`catalog, registry, registry.store, SessionObjects()
    {
      registry.Valid() && SessionOk() && Acted()
    }

    function Known(): Names
      reads this`namesSeen
    {
      Names(namesSeen, defaultName)
    }

    function NamesFor(node: NodeText): CommandName
      reads this`namesSeen
    {
      Known().Of(node)
    }

    /** Applies a monitor to the session, if there is one; whatever fails, it is pending until the next session. */
    method ApplyToSession(definition: MonitorDefinition) returns (result: ApplyResult, ghost threw: seq<bool>)
      requires Valid() && definition.key in registry.monitors
      modifies this`thrown, SessionObjects()
      ensures NoForeignObjects()
      ensures Valid()
      ensures thrown == old(thrown) + threw && Applied(old(Seen()), Seen(), definition, result, threw)
    {
      threw := [];
      if session == null { return Pending, threw; }
      var throwsBefore: bool, throwsAfter: bool := *, *;
      threw := [throwsBefore || throwsAfter];
      thrown := thrown + [throwsBefore || throwsAfter];
      if throwsBefore { return Pending, threw; }
      result := session.Apply(definition);
      assert session.entries.Keys - {definition.key} == (session.entries - {definition.key}).Keys;
      assert old(session.entries.Keys) - {definition.key} == (old(session.entries) - {definition.key}).Keys;
      if throwsAfter { result := Pending; }
    }

    /** Takes a monitor out of the session, if it is there. */
    method RemoveFromSession(key: MonitorKey)
      requires session != null ==> session.Valid()
      modifies SessionObjects()
      ensures NoForeignObjects()
      ensures session != null ==> session.Valid() && session.entries == old(session.entries) - {key}
      ensures session != null ==> session.subscriptions.Values <= old(session.subscriptions.Values)
      ensures Cleared(old(Seen()), Seen(), {key})
    {
      if session != null {
        session.Remove(key);
        if key in old(session.entries) { assert session.log[|old(session.log)|] == DeleteItem(key); }
      }
    }

    method HandleMonitor(key: MonitorKey, name: CommandName, parameters: MonitorParameters, replyTo: ReplyTo)
      returns (ghost result: ApplyResult, ghost threw: seq<bool>)
      requires Valid()
      modifies this`namesSeen, this`log, this`thrown, this`acts, registry, registry.store, SessionObjects()
      ensures old(acts) <= acts
      ensures NoForeignObjects()
      ensures Valid() && session == old(session) && namesSeen == old(namesSeen)[key.node := name]
      ensures registry.monitors == old(registry.monitors)[key := MonitorDefinition(key, parameters, replyTo, None)]
      ensures log == old(log) + [Status(key, name, StateOf(result), replyTo)]
      ensures thrown == old(thrown) + threw
      ensures Applied(old(Seen()), Seen(), MonitorDefinition(key, parameters, replyTo, None), result, threw)
    {
      namesSeen := namesSeen[key.node := name];
      var definition := MonitorDefinition(key, parameters, replyTo, None);
      Register(definition);
      result, threw := ApplyAndTell(definition);
    }

    /** The session's side of a Monitor command, and its answer. */
    method ApplyAndTell(definition: MonitorDefinition) returns (ghost result: ApplyResult, ghost threw: seq<bool>)
      requires Valid() && definition.key in registry.monitors
      modifies this`log, this`thrown, SessionObjects()
      ensures NoForeignObjects()
      ensures Valid()
      ensures log == old(log) + [Status(definition.key, NamesFor(definition.key.node), StateOf(result),
                                        definition.replyTo)]
      ensures thrown == old(thrown) + threw && Applied(old(Seen()), Seen(), definition, result, threw)
    {
      var applied;
      applied, threw := ApplyToSession(definition);
      result := applied;
      log := log + [Status(definition.key, NamesFor(definition.key.node), StateOf(applied), definition.replyTo)];
    }

    /** The registry's side of a Monitor command. */
    method Register(definition: MonitorDefinition)
      requires Valid() && definition.suspendedSince.None?
      modifies this`acts, registry, registry.store
      ensures old(acts) <= acts
      ensures Valid() && registry.monitors == old(registry.monitors)[definition.key := definition]
    {
      var _ := registry.Upsert(definition);
      N.AfterOne(initial, acts, N.Changes(Put(definition)), registry.expiry);
      acts := acts + [N.Changes(Put(definition))];
    }

    method HandleDelete(key: MonitorKey, name: CommandName, replyTo: ReplyTo)
      requires Valid()
      modifies this`namesSeen, this`log, this`acts, registry, registry.store, SessionObjects()
      ensures old(acts) <= acts
      ensures NoForeignObjects()
      ensures Valid() && session == old(session) && namesSeen == old(namesSeen)[key.node := name]
      ensures registry.monitors == old(registry.monitors) - {key} && Cleared(old(Seen()), Seen(), {key})
      ensures log == old(log) + [Status(key, name, if key in old(registry.monitors) then StateDeleted else StateFailed,
                                        replyTo)]
    {
      namesSeen := namesSeen[key.node := name];
      var removed := DeleteKey(key);
      log := log + [Status(key, NamesFor(key.node), if removed then StateDeleted else StateFailed, replyTo)];
    }

    method DeleteKey(key: MonitorKey) returns (removed: bool)
      requires Valid()
      modifies this`acts, registry, registry.store, SessionObjects()
      ensures old(acts) <= acts
      ensures NoForeignObjects()
      ensures Valid() && session == old(session)
      ensures registry.monitors == old(registry.monitors) - {key} && removed == (key in old(registry.monitors))
      ensures Cleared(old(Seen()), Seen(), {key})
    {
      removed := Forget(key);
      if removed { RemoveFromSession(key); }
    }

    /** The registry's side of a deletion; the session may for a moment hold an item more than the registry. */
    method Forget(key: MonitorKey) returns (removed: bool)
      requires registry.Valid() && Acted()
      modifies this`acts, registry, registry.store
      ensures old(acts) <= acts
      ensures registry.Valid() && Acted()
      ensures registry.monitors == old(registry.monitors) - {key} && removed == (key in old(registry.monitors))
    {
      removed := registry.Remove(key);
      N.AfterOne(initial, acts, N.Changes(Drop(key)), registry.expiry);
      acts := acts + [N.Changes(Drop(key))];
    }

    /**
     Looks for the monitor to delete among the sender's own, by the name its node goes by; any one of that name goes.
     */
    method HandleDeleteUnlisted(sender: Sender, name: CommandName, replyTo: ReplyTo)
      requires Valid()
      modifies this`log, this`acts, registry, registry.store, SessionObjects()
      ensures old(acts) <= acts
      ensures NoForeignObjects()
      ensures Valid() && session == old(session)
      ensures Cleared(old(Seen()), Seen(), old(registry.monitors).Keys - registry.monitors.Keys)
      ensures (exists key ::
        key in old(registry.monitors) && key.sender == sender && old(NamesFor(key.node)) == name) ==>
                exists key :: key in old(registry.monitors) && key.sender == sender && old(NamesFor(key.node)) == name
                  && registry.monitors == old(registry.monitors) - {key}
                  && log == old(log) + [Status(key, name, StateDeleted, replyTo)]
      ensures (forall key :: key in old(registry.monitors) && key.sender == sender ==>
               old(NamesFor(key.node)) != name) ==>
                registry.monitors == old(registry.monitors) && log == old(log) + [NotFound(name, replyTo)]
    {
      var found := set key | key in registry.monitors && key.sender == sender && NamesFor(key.node) == name;
      if found == {} {
        forall key | key in registry.monitors && key.sender == sender ensures NamesFor(key.node) != name {
          assert key !in found;
        }
        log := log + [NotFound(name, replyTo)];
        return;
      }
      var key :| key in found;
      var _ := DeleteKey(key);
      assert old(registry.monitors).Keys - registry.monitors.Keys == {key};
      log := log + [Status(key, NamesFor(key.node), StateDeleted, replyTo)];
    }

    /** The session is forgotten, and disposed: it has nothing left, and every subscription was asked to go. */
    method EndSession() returns (ghost ended: seq<Exchange>)
      requires Valid()
      modifies this`session, SessionObjects()
      ensures Valid() && session == null && Over(old(Seen()), ended)
      ensures old(session) != null ==> IsDisposed(old(session)) && old(session).log == old(session.log) + ended
    {
      var ending := session;
      session, ended := null, [];
      if ending != null {
        ghost var intervals, log := ending.subscriptions.Keys, ending.log;
        ending.Dispose();
        ended :| ending.log == log + ended && Manager.DeletesAll(intervals, ended);
      }
    }

    static ghost predicate IsDisposed(manager: Manager)
      reads manager
    {
      manager.entries == map[] && manager.subscriptions == map[]
    }

    method Expire(now: Time) returns (expired: set<MonitorKey>)
      requires registry.Valid() && Acted()
      modifies this`acts, registry, registry.store
      ensures old(acts) <= acts
      ensures registry.Valid() && Acted()
      ensures registry.monitors == old(registry.monitors) - expired
        == Unexpired(old(registry.monitors), registry.expiry, now)
    {
      expired := registry.RemoveExpired(now);
      N.AfterOne(initial, acts, N.Changes(MonitorRegistry.Expire(now)), registry.expiry);
      acts := acts + [N.Changes(MonitorRegistry.Expire(now))];
    }

    method RemoveExpired(now: Time)
      requires Valid()
      modifies this`acts, registry, registry.store, SessionObjects()
      ensures old(acts) <= acts
      ensures NoForeignObjects()
      ensures Valid() && session == old(session)
      ensures registry.monitors == Unexpired(old(registry.monitors), registry.expiry, now)
      ensures Cleared(old(Seen()), Seen(), old(registry.monitors).Keys - registry.monitors.Keys)
    {
      var expired := Expire(now);
      RemoveAllFromSession(expired);
      SameKeysGone(old(registry.monitors), registry.monitors, expired, old(Seen()), Seen());
    }

    static lemma SameKeysGone(before: Registered, after: Registered, keys: set<MonitorKey>, was: Option<View>,
                              now: Option<View>)
      requires after == before - keys && Cleared(was, now, keys) && ItemsOf(was) <= before.Keys
      ensures Cleared(was, now, before.Keys - after.Keys)
    {}

    method RemoveAllFromSession(keys: set<MonitorKey>)
      requires session != null ==> session.Valid()
      modifies SessionObjects()
      ensures NoForeignObjects()
      ensures session != null ==> session.Valid() && session.entries.Keys == old(session.entries.Keys) - keys
      ensures Cleared(old(Seen()), Seen(), keys)
    {
      var left := keys;
      while left != {}
        invariant left <= keys
        invariant session != null ==>
          session.Valid() && session.subscriptions.Values <= old(session.subscriptions.Values)
        invariant Cleared(old(Seen()), Seen(), keys - left)
        decreases left
      {
        var key :| key in left;
        ghost var before := Seen();
        RemoveFromSession(key);
        ClearedOn(old(Seen()), before, Seen(), keys - left, {key});
        assert keys - left + {key} == keys - (left - {key});
        left := left - {key};
      }
      assert keys - left == keys;
    }

    /** The live monitors, split by whether the catalog holds their node. */
    method LiveMonitors() returns (known: seq<MonitorDefinition>, unknown: seq<MonitorDefinition>)
      requires registry.Valid()
      ensures LivePart(known, registry.monitors, catalog, true) && LivePart(unknown, registry.monitors, catalog, false)
    {
      var all := registry.Values();
      known := LiveOnes(all, registry.monitors, catalog, true);
      unknown := LiveOnes(all, registry.monitors, catalog, false);
    }

    static method LiveOnes(all: seq<MonitorDefinition>, ghost monitors: Registered, nodes: set<NodeText>, inside: bool)
      returns (part: seq<MonitorDefinition>)
      requires Keyed(monitors) && Lists(all, monitors)
      ensures LivePart(part, monitors, nodes, inside)
    {
      part := [];
      for i := 0 to |all|
        invariant DistinctKeys(part)
        invariant forall d :: d in part ==> d in all[..i] && !d.IsSuspended() && (d.key.node in nodes <==> inside)
        invariant forall j :: 0 <= j < i && !all[j].IsSuspended() && (all[j].key.node in nodes <==> inside) ==>
          all[j] in part
      {
        var d := all[i];
        assert all[..i + 1] == all[..i] + [d];
        if !d.IsSuspended() && (d.key.node in nodes) == inside {
          forall j | 0 <= j < |part| ensures part[j].key != d.key {
            assert part[j] in all[..i];
          }
          part := part + [d];
        }
      }
      assert all[..|all|] == all;
      LivePartFrom(all, monitors, nodes, inside, part);
    }

    static lemma LivePartFrom(all: seq<MonitorDefinition>, monitors: Registered, nodes: set<NodeText>, inside: bool,
                              part: seq<MonitorDefinition>)
      requires Keyed(monitors) && Lists(all, monitors) && DistinctKeys(part)
      requires forall d :: d in part ==> d in all && !d.IsSuspended() && (d.key.node in nodes <==> inside)
      requires forall d :: d in all && !d.IsSuspended() && (d.key.node in nodes <==> inside) ==> d in part
      ensures LivePart(part, monitors, nodes, inside)
    {
      forall i | 0 <= i < |part| ensures part[i].key in monitors && monitors[part[i].key] == part[i] {
        assert part[i] in all;
      }
      forall key | IsLive(monitors, key) && (key.node in nodes <==> inside) ensures key in KeysOf(part) {
        assert key in KeysOf(all);
        var d :| d in all && d.key == key;
        assert d in part;
      }
    }

    method SendStatuses(definitions: seq<MonitorDefinition>, results: map<MonitorKey, ApplyResult>,
                        otherwise: ApplyResult) returns (ghost sent: seq<Output>)
      modifies this`log
      ensures log == old(log) + sent && StatusesOf(definitions, sent, results, otherwise, Known())
    {
      sent := [];
      for i := 0 to |definitions|
        invariant log == old(log) + sent && StatusesOf(definitions[..i], sent, results, otherwise, Known())
      {
        log := log + [StatusOf(definitions[i], results, otherwise, Known())];
        sent := sent + [StatusOf(definitions[i], results, otherwise, Known())];
      }
      assert definitions[..|definitions|] == definitions;
    }

    /** Creates every known monitor on the new session, unless the whole call fails, before or after it took effect. */
    method Rebuild(known: seq<MonitorDefinition>) returns (results: map<MonitorKey, ApplyResult>)
      requires session != null && session.Valid() && session.entries == map[] && DistinctKeys(known)
      modifies this`thrown, SessionObjects()
      ensures NoForeignObjects()
      ensures session.Valid() && session.entries.Keys <= KeysOf(known)
      ensures |thrown| == |old(thrown)| + 1 && old(thrown) <= thrown
      ensures ResultsTrue(known, results, Rebuilt(catalog, old(session.log), session.log, session.parses,
                                                  thrown[|old(thrown)|]))
      ensures !thrown[|old(thrown)|] ==> forall key :: key in session.entries <==>
        key in results && results[key].Active?
    {
      results := map[];
      var throwsBefore: bool, throwsAfter: bool := *, *;
      thrown := thrown + [throwsBefore || throwsAfter];
      if !throwsBefore {
        results := session.ApplyAll(known);
        assert forall d :: d in known ==> d.key in KeysOf(known);
        if throwsAfter { results := map[]; }
      }
    }

    static method Naming(listed: seq<(NodeText, CommandName)>, before: map<NodeText, CommandName>)
      returns (seen: map<NodeText, CommandName>)
      ensures Renamed(listed, before, seen)
    {
      seen := before;
      for i := 0 to |listed|
        invariant Renamed(listed[..i], before, seen)
      {
        RenamedNext(listed, i, before, seen);
        seen := seen[listed[i].0 := listed[i].1];
      }
      assert listed[..|listed|] == listed;
    }

    /** The names of what is listed are remembered, and the catalog is swapped. */
    method Remember(listed: seq<(NodeText, CommandName)>)
      requires Acted()
      modifies this`namesSeen, this`catalog, this`acts
      ensures old(acts) <= acts
      ensures Acted() && catalog == Nodes(listed) && Renamed(listed, old(namesSeen), namesSeen)
    {
      namesSeen := Naming(listed, namesSeen);
      catalog := Nodes(listed);
      N.AfterOne(initial, acts, N.Swaps(catalog), registry.expiry);
      acts := acts + [N.Swaps(catalog)];
    }

    /**
     From an empty session to one with an item for each live, catalogued monitor the server accepts: every live monitor
     gets one status, a true one, and nobody else gets any.
     */
    method HandleSessionStart(started: Manager, listed: seq<(NodeText, CommandName)>, now: Time)
      returns (ghost dealt: Dealt)
      requires Valid() && started.Valid() && started.entries == map[] && started.subscriptions == map[]
      requires started != session
      modifies this`session, this`catalog, this`acts, this`namesSeen, this`log, this`thrown, registry, registry.store,
        SessionObjects(), started
      ensures old(acts) <= acts
      ensures forall o :: o in SessionObjects() ==> fresh(o) || o == started
      ensures Valid() && session == started
      ensures registry.monitors == Unexpired(old(registry.monitors), registry.expiry, now)
      ensures catalog == Nodes(listed) && Renamed(listed, old(namesSeen), namesSeen)
      ensures forall key :: key in session.entries ==> IsLive(registry.monitors, key) && key.node in catalog
      ensures log == old(log) + dealt.sent && OneStatusEach(dealt.sent, registry.monitors, Known())
      ensures thrown == old(thrown) + dealt.threw && |dealt.threw| == 1
      ensures AllTruthful(dealt.sent, registry.monitors, session.entries.Keys,
                          Rebuilt(catalog, old(started.log), started.log, started.parses, dealt.threw[0]))
      ensures Over(old(Seen()), dealt.ended)
      ensures old(session) != null ==> IsDisposed(old(session)) && old(session).log == old(session.log) + dealt.ended
    {
      ghost var ended := BeginSession(started, listed, now);
      ghost var sent, threw := RebuildMonitors();
      dealt := Dealt(sent, threw, ended);
    }

    /** The old session ends, the new one takes its place with nothing in it, and what has expired is forgotten. */
    method BeginSession(started: Manager, listed: seq<(NodeText, CommandName)>, now: Time)
      returns (ghost ended: seq<Exchange>)
      requires Valid() && started.Valid() && started.entries == map[] && started.subscriptions == map[]
      requires started != session
      modifies this`session, this`catalog, this`acts, this`namesSeen, registry, registry.store, SessionObjects()
      ensures old(acts) <= acts
      ensures Valid() && session == started && started.entries == map[] && started.subscriptions == map[]
      ensures catalog == Nodes(listed) && Renamed(listed, old(namesSeen), namesSeen)
      ensures started.log == old(started.log)
      ensures registry.monitors == Unexpired(old(registry.monitors), registry.expiry, now)
      ensures Over(old(Seen()), ended)
      ensures old(session) != null ==> IsDisposed(old(session)) && old(session).log == old(session.log) + ended
    {
      ended := EndSession();
      session := started;
      TakeStock(listed, now);
    }

    /** What is listed is remembered, and what has expired is forgotten. */
    method TakeStock(listed: seq<(NodeText, CommandName)>, now: Time)
      requires registry.Valid() && Acted()
      modifies this`catalog, this`acts, this`namesSeen, registry, registry.store
      ensures old(acts) <= acts
      ensures registry.Valid() && Acted()
      ensures catalog == Nodes(listed) && Renamed(listed, old(namesSeen), namesSeen)
      ensures registry.monitors == Unexpired(old(registry.monitors), registry.expiry, now)
    {
      Remember(listed);
      var _ := Expire(now);
    }

    method RebuildMonitors() returns (ghost sent: seq<Output>, ghost threw: seq<bool>)
      requires Valid() && session != null && session.entries == map[] && session.subscriptions == map[]
      modifies this`log, this`thrown, session
      ensures NoForeignObjects()
      ensures Valid()
      ensures forall key :: key in session.entries ==> IsLive(registry.monitors, key) && key.node in catalog
      ensures log == old(log) + sent && OneStatusEach(sent, registry.monitors, Known()) && thrown == old(thrown) + threw
      ensures |threw| == 1
      ensures AllTruthful(sent, registry.monitors, session.entries.Keys,
                          Rebuilt(catalog, old(session.log), session.log, session.parses, threw[0]))
    {
      var known, unknown := LiveMonitors();
      var results := RebuildSession(known);
      threw := [thrown[|old(thrown)|]];
      sent := TellEveryone(known, unknown, results,
                           Rebuilt(catalog, old(session.log), session.log, session.parses, threw[0]));
    }

    method RebuildSession(known: seq<MonitorDefinition>) returns (results: map<MonitorKey, ApplyResult>)
      requires Valid() && session != null && session.entries == map[] && session.subscriptions == map[]
      requires LivePart(known, registry.monitors, catalog, true)
      modifies this`thrown, session
      ensures NoForeignObjects()
      ensures Valid()
      ensures forall key :: key in session.entries ==> IsLive(registry.monitors, key) && key.node in catalog
      ensures |thrown| == |old(thrown)| + 1 && old(thrown) <= thrown
      ensures ResultsTrue(known, results, Rebuilt(catalog, old(session.log), session.log, session.parses,
                                                  thrown[|old(thrown)|]))
      ensures !thrown[|old(thrown)|] ==> forall key :: key in session.entries <==>
        key in results && results[key].Active?
    {
      LivePartKeys(known);
      results := Rebuild(known);
    }

    method TellEveryone(known: seq<MonitorDefinition>, unknown: seq<MonitorDefinition>,
                        results: map<MonitorKey, ApplyResult>, ghost rebuilt: Rebuilt) returns (ghost sent: seq<Output>)
      requires LivePart(known, registry.monitors, catalog, true) && LivePart(unknown, registry.monitors, catalog, false)
      requires rebuilt.nodes == catalog && session != null
      requires forall key :: key in session.entries ==> key.node in catalog
      requires ResultsTrue(known, results, rebuilt)
      requires !rebuilt.threw ==> forall key :: key in session.entries <==> key in results && results[key].Active?
      modifies this`log
      ensures log == old(log) + sent && OneStatusEach(sent, registry.monitors, Known())
      ensures AllTruthful(sent, registry.monitors, session.entries.Keys, rebuilt)
    {
      ghost var u := SendStatuses(unknown, map[], ApplyResult.Failed);
      ghost var k := SendStatuses(known, results, Pending);
      sent := u + k;
      EveryoneTold(known, unknown, registry.monitors, rebuilt, Known(), results, u, k);
      TruthTold(known, unknown, registry.monitors, session.entries.Keys, rebuilt, Known(), results, u, k);
    }

    lemma LivePartKeys(known: seq<MonitorDefinition>)
      requires LivePart(known, registry.monitors, catalog, true)
      ensures forall key :: key in KeysOf(known) ==> IsLive(registry.monitors, key) && key.node in catalog
    {
      forall key | key in KeysOf(known) ensures IsLive(registry.monitors, key) && key.node in catalog {
        var d :| d in known && d.key == key;
        var i :| 0 <= i < |known| && known[i] == d;
      }
    }

    ghost function SessionAlone(): set<object>
      reads this`session
    {
      if session == null then {} else {session}
    }

    /** Nothing has changed in the session but what the server was asked. */
    twostate predicate OnlyAsked()
      reads this`session, session
    {
      session != null && session == old(session) ==>
        session.entries == old(session.entries) && session.subscriptions == old(session.subscriptions)
          && old(session.log) <= session.log
    }

    /** Whoever has been suspended since, and has an item in the session, has it asked to stop reporting. */
    twostate predicate AllHushed()
      reads this`session, registry, session
    {
      OnlyAsked() && (session != null && session == old(session) ==>
        Hushed(old(registry.monitors), registry.monitors, session.entries.Keys, old(session.log), session.log))
    }

    ghost function SessionLog(): seq<Exchange>
      reads this`session, session
    {
      if session == null then [] else session.log
    }

    ghost predicate HushedSince(before: Registered, log: seq<Exchange>)
      reads this`session, registry, session
    {
      session != null ==> log <= session.log && Hushed(before, registry.monitors, session.entries.Keys, log,
                                                       session.log)
    }

    /** Asks the server to stop an item reporting, which may fail. */
    method DisableInSession(key: MonitorKey)
      requires session != null ==> session.Valid()
      modifies SessionAlone()
      ensures session != null ==> session.Valid()
      ensures OnlyAsked()
      ensures session != null && key in session.entries ==> DisableAsked(old(session.log), session.log, key)
    {
      if session != null {
        var _ := session.Disable(key);
        if key in session.entries { assert session.log[|old(session.log)|].DisableItem?; }
      }
    }

    /** Stops one monitor reporting in the registry, which may not fail. */
    method SuspendKey(key: MonitorKey, now: Time)
      requires registry.Valid() && Acted() && IsLive(registry.monitors, key)
      modifies this`acts, registry, registry.store
      ensures old(acts) <= acts
      ensures registry.Valid() && Acted()
      ensures registry.monitors == old(registry.monitors)[key :=
                                                          MonitorRegistry.Suspended(old(registry.monitors[key]), now)]
    {
      registry.Suspend(key, now);
      N.AfterOne(initial, acts, N.Changes(MonitorRegistry.Silence(key, now)), registry.expiry);
      acts := acts + [N.Changes(MonitorRegistry.Silence(key, now))];
    }

    /** Stops one monitor reporting: in the session, which may fail, and in the registry, which may not. */
    method Silence(key: MonitorKey, now: Time)
      requires Valid() && IsLive(registry.monitors, key)
      modifies this`acts, registry, registry.store, SessionAlone()
      ensures old(acts) <= acts
      ensures Valid() && AllHushed()
      ensures registry.monitors == old(registry.monitors)[key :=
                                                          MonitorRegistry.Suspended(old(registry.monitors[key]), now)]
    {
      DisableInSession(key);
      SuspendKey(key, now);
    }

    /** The monitors of a group, up to `i`, are suspended. */
    static ghost predicate Silenced(before: Registered, after: Registered, group: seq<MonitorDefinition>, i: nat,
                                    now: Time)
      requires i <= |group|
    {
      && after.Keys == before.Keys
      && forall key :: key in before ==>
           after[key] == if key in KeysOf(group[..i]) then MonitorRegistry.Suspended(before[key], now) else before[key]
    }

    static lemma SilencedNext(before: Registered, middle: Registered, group: seq<MonitorDefinition>, i: nat, now: Time)
      requires i < |group| && DistinctKeys(group) && group[i].key in before && Silenced(before, middle, group, i, now)
      ensures group[i].key in middle && middle[group[i].key] == before[group[i].key]
      ensures Silenced(before, middle[group[i].key := MonitorRegistry.Suspended(middle[group[i].key], now)], group,
                       i + 1, now)
    {
      KeysOfNext(group, i);
    }

    /** The monitors of a group, up to `i`, are silenced, and whoever was silenced since has been hushed. */
    ghost predicate SilencedTo(before: Registered, log: seq<Exchange>, group: seq<MonitorDefinition>, i: nat, now: Time)
      requires i <= |group|
      reads this`session, this`acts, this`catalog, registry, registry.store, SessionObjects()
    {
      Valid() && HushedSince(before, log) && Silenced(before, registry.monitors, group, i, now)
    }

    method SilenceNext(ghost before: Registered, ghost log: seq<Exchange>, group: seq<MonitorDefinition>, i: nat,
                       now: Time)
      requires i < |group| && DistinctKeys(group) && IsLive(before, group[i].key)
      requires SilencedTo(before, log, group, i, now)
      modifies this`acts, registry, registry.store, SessionAlone()
      ensures old(acts) <= acts
      ensures OnlyAsked() && SilencedTo(before, log, group, i + 1, now)
    {
      SilencedNext(before, registry.monitors, group, i, now);
      Silence(group[i].key, now);
      if session != null {
        HushedOn(before, old(registry.monitors), registry.monitors, session.entries.Keys, log, old(session.log),
                 session.log);
      }
    }

    method SilenceGroup(group: seq<MonitorDefinition>, now: Time)
      requires Valid() && DistinctKeys(group)
      requires forall i :: 0 <= i < |group| ==> IsLive(registry.monitors, group[i].key)
      modifies this`acts, registry, registry.store, SessionAlone()
      ensures old(acts) <= acts
      ensures Valid() && AllHushed() && Silenced(old(registry.monitors), registry.monitors, group, |group|, now)
    {
      ghost var before, log := registry.monitors, SessionLog();
      for i := 0 to |group|
        invariant OnlyAsked() && old(acts) <= acts && SilencedTo(before, log, group, i, now)
      {
        SilenceNext(before, log, group, i, now);
      }
    }

    /** The live monitors, in some order. */
    method LiveSnapshot() returns (live: seq<MonitorDefinition>)
      requires registry.Valid()
      ensures DistinctKeys(live)
      ensures forall d :: d in live ==> IsLive(registry.monitors, d.key) && registry.monitors[d.key] == d
      ensures forall key :: IsLive(registry.monitors, key) ==> key in KeysOf(live)
    {
      var known, unknown := LiveMonitors();
      live := known + unknown;
      forall i, j | 0 <= i < j < |live| ensures live[i].key != live[j].key {
        if i < |known| <= j {
          assert known[i].key.node in catalog && unknown[j - |known|].key.node !in catalog;
        }
      }
      forall key | IsLive(registry.monitors, key) ensures key in KeysOf(live) {
        assert key in KeysOf(if key.node in catalog then known else unknown);
      }
    }

    method CheckGroup(group: seq<MonitorDefinition>, replyTo: ReplyTo, check: ReplyTo -> Check, now: Time)
      requires Valid() && DistinctKeys(group)
      requires forall d :: d in group ==>
        IsLive(registry.monitors, d.key) && registry.monitors[d.key] == d && d.replyTo == replyTo
      modifies this`acts, registry, registry.store, SessionAlone()
      ensures old(acts) <= acts
      ensures Valid() && AllHushed() && registry.monitors.Keys == old(registry.monitors.Keys)
      ensures forall key :: key in registry.monitors ==>
        registry.monitors[key] == (if key in KeysOf(group) then Checked(old(registry.monitors)[key], check, now)
                                   else old(registry.monitors)[key])
    {
      if check(replyTo).Gone? {
        SilenceGroup(group, now);
        assert group[..|group|] == group;
      }
    }

    /** A round part-way: every reply-to of `rest` is still to be asked about, and the others have been. */
    ghost predicate Checking(before: Registered, log: seq<Exchange>, rest: seq<MonitorDefinition>, asked: seq<ReplyTo>,
                             check: ReplyTo -> Check, now: Time)
      reads this`session, this`acts, this`catalog, registry, registry.store, SessionObjects()
    {
      && Valid() && HushedSince(before, log) && DistinctKeys(rest)
      && PartlyChecked(before, registry.monitors, rest, check, now)
      && AskedSoFar(before, rest, asked, check)
    }

    /**
     Suspends the live monitors whose reply-to is gone, asking once for each distinct reply-to; each that has an item in
     the session has it asked to stop reporting. It gets to all of them if and only if no check aborts the round.
     */
    method HandleReplyToCheck(check: ReplyTo -> Check, now: Time) returns (asked: seq<ReplyTo>, aborted: bool)
      requires Valid()
      modifies this`acts, registry, registry.store, SessionAlone()
      ensures old(acts) <= acts
      ensures Valid() && AllHushed()
      ensures RoundRight(old(registry.monitors), registry.monitors, asked, aborted, check, now)
    {
      ghost var before, log := registry.monitors, SessionLog();
      var rest := LiveSnapshot();
      rest, asked := AskAll(before, log, rest, check, now);
      aborted := rest != [];
      if aborted {
        RoundAborts(before, registry.monitors, rest, asked, check, now);
        asked := asked + [rest[0].replyTo];
      } else {
        RoundEnds(before, registry.monitors, asked, check, now);
      }
    }

    /** Asks about one distinct reply-to after the other, up to the first whose check aborts. */
    method AskAll(ghost before: Registered, ghost log: seq<Exchange>, live: seq<MonitorDefinition>,
                  check: ReplyTo -> Check, now: Time)
      returns (rest: seq<MonitorDefinition>, asked: seq<ReplyTo>)
      requires Checking(before, log, live, [], check, now)
      modifies this`acts, registry, registry.store, SessionAlone()
      ensures old(acts) <= acts
      ensures OnlyAsked() && Checking(before, log, rest, asked, check, now)
      ensures rest != [] ==> check(rest[0].replyTo).Aborts?
    {
      rest, asked := live, [];
      while rest != [] && !check(rest[0].replyTo).Aborts?
        invariant OnlyAsked() && old(acts) <= acts && Checking(before, log, rest, asked, check, now)
        decreases |rest|
      {
        rest, asked := CheckNext(before, log, rest, asked, check, now);
      }
    }

    /** Of those still to be asked about, the ones that report where the first does, and the others. */
    static method NextGroup(ghost before: Registered, ghost monitors: Registered, rest: seq<MonitorDefinition>,
                            ghost asked: seq<ReplyTo>, ghost check: ReplyTo -> Check, ghost now: Time)
      returns (group: seq<MonitorDefinition>, others: seq<MonitorDefinition>)
      requires rest != [] && DistinctKeys(rest) && !check(rest[0].replyTo).Aborts?
      requires PartlyChecked(before, monitors, rest, check, now) && AskedSoFar(before, rest, asked, check)
      ensures DistinctKeys(group) && DistinctKeys(others) && |others| < |rest|
      ensures KeysOf(group) + KeysOf(others) == KeysOf(rest) && KeysOf(group) !! KeysOf(others)
      ensures (forall d :: d in others ==> d in rest)
      ensures forall d :: d in group ==> d in rest && d.replyTo == rest[0].replyTo
      ensures AskedSoFar(before, others, asked + [rest[0].replyTo], check)
    {
      group, others := Partition(rest, (d: MonitorDefinition) => d.replyTo == rest[0].replyTo);
      assert |others| < |rest| by { assert rest[0] in rest && rest[0] !in others; }
      AskedNext(before, monitors, rest, group, others, asked, check, now);
    }

    /** One distinct reply-to's turn in a round. */
    method CheckNext(ghost before: Registered, ghost log: seq<Exchange>, rest: seq<MonitorDefinition>,
                     asked: seq<ReplyTo>, check: ReplyTo -> Check, now: Time)
      returns (others: seq<MonitorDefinition>, asked': seq<ReplyTo>)
      requires rest != [] && Checking(before, log, rest, asked, check, now) && !check(rest[0].replyTo).Aborts?
      modifies this`acts, registry, registry.store, SessionAlone()
      ensures old(acts) <= acts
      ensures OnlyAsked() && Checking(before, log, others, asked', check, now) && |others| < |rest|
    {
      var replyTo := rest[0].replyTo;
      var group;
      group, others := NextGroup(before, registry.monitors, rest, asked, check, now);
      asked' := asked + [replyTo];
      TakeTurn(before, log, rest, group, others, asked', replyTo, check, now);
    }

    method TakeTurn(ghost before: Registered, ghost log: seq<Exchange>, ghost rest: seq<MonitorDefinition>,
                    group: seq<MonitorDefinition>, ghost others: seq<MonitorDefinition>, ghost asked: seq<ReplyTo>,
                    replyTo: ReplyTo, check: ReplyTo -> Check, now: Time)
      requires DistinctKeys(others) && AskedSoFar(before, others, asked, check)
      requires Valid() && DistinctKeys(group) && PartlyChecked(before, registry.monitors, rest, check, now)
      requires HushedSince(before, log)
      requires KeysOf(group) + KeysOf(others) == KeysOf(rest) && KeysOf(group) !! KeysOf(others)
      requires (forall d :: d in others ==> d in rest) && forall d :: d in group ==> d in rest && d.replyTo == replyTo
      modifies this`acts, registry, registry.store, SessionAlone()
      ensures old(acts) <= acts
      ensures OnlyAsked() && Checking(before, log, others, asked, check, now)
    {
      CheckGroup(group, replyTo, check, now);
      CheckedStep(before, old(registry.monitors), registry.monitors, rest, group, others, check, now);
      if session != null {
        HushedOn(before, old(registry.monitors), registry.monitors, session.entries.Keys, log, old(session.log),
                 session.log);
      }
    }

    /**
     One unit of work, whatever it is: what it makes of the registry and of the session, and what it sends. A new
     session comes with a manager of its own, which nobody has used; the old one, if there is one, is left disposed.
     */
    method Handle(work: Work) returns (ghost dealt: Dealt)
      requires Valid()
      modifies this, registry, registry.store, SessionObjects()
      ensures NoForeignObjects()
      ensures Valid() && old(acts) <= acts
      ensures StepRight(work, old(registry.monitors), registry.monitors, old(Seen()), Seen(), old(Known()), Known(),
                        dealt,
                        registry.expiry)
      ensures log == old(log) + dealt.sent && thrown == old(thrown) + dealt.threw
      ensures old(session) != null && session != old(session) ==>
        IsDisposed(old(session)) && old(session).log == old(session.log) + dealt.ended
    {
      if work.SessionStart? {
        dealt := HandleStart(work);
      } else if work.SessionEnd? {
        dealt := HandleEnd(work);
      } else if work.ReplyToCheck? || work.ExpiryCheck? {
        dealt := HandleTimer(work);
      } else {
        dealt := HandleRequest(work);
      }
    }

    /** A session comes, and ends the one there was. */
    method HandleStart(work: Work) returns (ghost dealt: Dealt)
      requires Valid() && work.SessionStart?
      modifies this, registry, registry.store, SessionObjects()
      ensures NoForeignObjects()
      ensures Valid() && old(acts) <= acts
      ensures StepRight(work, old(registry.monitors), registry.monitors, old(Seen()), Seen(), old(Known()), Known(),
                        dealt, registry.expiry)
      ensures log == old(log) + dealt.sent && thrown == old(thrown) + dealt.threw
      ensures old(session) != null ==>
        session != old(session) && IsDisposed(old(session)) && old(session).log == old(session.log) + dealt.ended
    {
      var started := new Manager(work.parses);
      dealt := HandleSessionStart(started, work.listed, work.now);
    }

    /** It goes. */
    method HandleEnd(work: Work) returns (ghost dealt: Dealt)
      requires Valid() && work.SessionEnd?
      modifies this`session, SessionObjects()
      ensures Valid() && session == null
      ensures StepRight(work, registry.monitors, registry.monitors, old(Seen()), Seen(), Known(), Known(), dealt,
                        registry.expiry)
      ensures dealt.sent == [] && dealt.threw == []
      ensures old(session) != null ==> IsDisposed(old(session)) && old(session).log == old(session.log) + dealt.ended
    {
      ghost var ended := EndSession();
      dealt := Dealt([], [], ended);
    }

    /** What comes round by itself. */
    method HandleTimer(work: Work) returns (ghost dealt: Dealt)
      requires Valid() && (work.ReplyToCheck? || work.ExpiryCheck?)
      modifies this`acts, registry, registry.store, SessionObjects()
      ensures old(acts) <= acts
      ensures NoForeignObjects()
      ensures Valid() && dealt == Dealt([], [], [])
      ensures StepRight(work, old(registry.monitors), registry.monitors, old(Seen()), Seen(), old(Known()), Known(),
                        dealt,
                        registry.expiry)
    {
      dealt := Dealt([], [], []);
      match work {
        case ReplyToCheck(check, now) =>
          var _, _ := HandleReplyToCheck(check, now);
        case ExpiryCheck(now) =>
          RemoveExpired(now);
      }
    }

    /** What clients ask for. */
    method HandleRequest(work: Work) returns (ghost dealt: Dealt)
      requires Valid() && (work.MonitorRequest? || work.DeleteRequest? || work.DeleteUnlistedRequest?)
      modifies this`namesSeen, this`log, this`thrown, this`acts, registry, registry.store, SessionObjects()
      ensures old(acts) <= acts
      ensures NoForeignObjects()
      ensures Valid()
      ensures StepRight(work, old(registry.monitors), registry.monitors, old(Seen()), Seen(), old(Known()), Known(),
                        dealt,
                        registry.expiry)
      ensures log == old(log) + dealt.sent && thrown == old(thrown) + dealt.threw
    {
      match work {
        case MonitorRequest(key, name, parameters, replyTo) =>
          ghost var result, threw := HandleMonitor(key, name, parameters, replyTo);
          dealt := Dealt([Status(key, name, StateOf(result), replyTo)], threw, []);
          MonitorStep(work, old(registry.monitors), registry.monitors, old(Seen()), Seen(), old(Known()), Known(),
                      result,
                      dealt, registry.expiry);
        case DeleteRequest(key, name, replyTo) =>
          HandleDelete(key, name, replyTo);
          dealt := Dealt(log[|old(log)|..], [], []);
          DeleteStep(work, old(registry.monitors), registry.monitors, old(Seen()), Seen(), old(Known()), Known(), dealt,
                     registry.expiry);
        case DeleteUnlistedRequest(sender, name, replyTo) =>
          HandleDeleteUnlisted(sender, name, replyTo);
          dealt := Dealt(log[|old(log)|..], [], []);
          UnlistedStep(work, old(registry.monitors), registry.monitors, old(Seen()), Seen(), Known(), dealt,
                       registry.expiry);
      }
    }

    method HandleNext(work: seq<Work>, i: nat, ghost run: Record, ghost sent: seq<Output>, ghost threw: seq<bool>)
      returns (ghost run': Record)
      requires Valid() && i < |work| && Recorded(work, i, run, registry.expiry) && IsAt(run, i)
      requires log == sent + SentIn(run.dealt) && thrown == threw + ThrownIn(run.dealt)
      modifies this, registry, registry.store, SessionObjects()
      ensures NoForeignObjects()
      ensures Valid() && old(acts) <= acts
      ensures Recorded(work, i + 1, run', registry.expiry) && IsAt(run', i + 1) && run'.states[0] == run.states[0]
      ensures run'.sessions[0] == run.sessions[0] && run'.names[0] == run.names[0]
      ensures log == sent + SentIn(run'.dealt) && thrown == threw + ThrownIn(run'.dealt)
    {
      ghost var dealt := Handle(work[i]);
      run' := Further(run, registry.monitors, Seen(), Known(), dealt);
      RecordedNext(work, i, run, registry.expiry, registry.monitors, Seen(), Known(), dealt);
      Joined(sent, SentIn(run.dealt), dealt.sent);
      Joined(threw, ThrownIn(run.dealt), dealt.threw);
    }

    /** Registry, session and names are as the record says they are at its i-th boundary. */
    ghost predicate IsAt(run: Record, i: nat)
      reads this`session, this`namesSeen, session, registry
    {
      && i < |run.states| && i < |run.sessions| && i < |run.names|
      && run.states[i] == registry.monitors && run.sessions[i] == Seen() && run.names[i] == Known()
    }

    /**
     The record of a run leads from what there was to what there is, each unit of work did and sent what it should, and
     all that was sent is what they sent.
     */
    ghost predicate Ran(work: seq<Work>, run: Record, monitors: Registered, was: Option<View>, names: Names,
                        sent: seq<Output>, threw: seq<bool>)
      reads this`namesSeen, this`log, this`thrown, registry
    {
      && Recorded(work, |work|, run, registry.expiry)
      && run.states[0] == monitors && run.sessions[0] == was && run.names[0] == names
      && run.states[|work|] == registry.monitors && run.names[|work|] == Known()
      && log == sent + SentIn(run.dealt) && thrown == threw + ThrownIn(run.dealt)
    }

    /** One unit of work after the other. */
    method HandleAll(work: seq<Work>) returns (ghost run: Record)
      requires Valid()
      modifies this, registry, registry.store, SessionObjects()
      ensures Valid() && old(acts) <= acts && NoForeignObjects()
      ensures Ran(work, run, old(registry.monitors), old(Seen()), old(Known()), old(log), old(thrown))
      ensures run.sessions[|work|] == Seen()
    {
      run := Record([registry.monitors], [Seen()], [Known()], []);
      for i := 0 to |work|
        invariant Valid() && old(acts) <= acts && NoForeignObjects()
        invariant Recorded(work, i, run, registry.expiry) && IsAt(run, i)
        invariant run.states[0] == old(registry.monitors) && run.sessions[0] == old(Seen())
        invariant run.names[0] == old(Known())
        invariant log == old(log) + SentIn(run.dealt) && thrown == old(thrown) + ThrownIn(run.dealt)
      {
        run := HandleNext(work, i, run, old(log), old(thrown));
      }
    }

    /**
     Any run of work, whatever fails on the way. At every boundary the session's items are within the registry's keys;
     each unit of work made of registry and session what it should, and sent what it should, which is true, and nothing
     else; and registry and catalog went through the recorded changes only. The session does not outlive the run: it is
     disposed, all its subscriptions asked to go.
     */
    method Run(work: seq<Work>) returns (ghost run: Record, ghost ended: seq<Exchange>)
      requires Valid()
      modifies this, registry, registry.store, SessionObjects()
      ensures Valid() && session == null && old(acts) <= acts
      ensures Ran(work, run, old(registry.monitors), old(Seen()), old(Known()), old(log), old(thrown))
      ensures Over(run.sessions[|work|], ended)
    {
      run := HandleAll(work);
      ended := EndSession();
    }
  }

  /** What a run of work leaves behind: registry, session and names at every boundary, and what each unit came to. */
  datatype Record = Record(states: seq<Registered>, sessions: seq<Option<View>>, names: seq<Names>, dealt: seq<Dealt>)

  ghost function Further(run: Record, after: Registered, now: Option<View>, names: Names, dealt: Dealt): Record {
    Record(run.states + [after], run.sessions + [now], run.names + [names], run.dealt + [dealt])
  }

  /** What a run of work has left behind at its first `n` boundaries. */
  ghost predicate Recorded(work: seq<Work>, n: nat, run: Record, expiry: Option<Time>) {
    && n <= |work| && |run.states| == |run.sessions| == |run.names| == n + 1 && |run.dealt| == n
    && ItemsOf(run.sessions[0]) <= run.states[0].Keys
    && forall i {:trigger StepAt(work, run, i, expiry)} :: 0 <= i < n ==> StepAt(work, run, i, expiry)
  }

  /** What the i-th unit of work left behind. */
  ghost predicate StepAt(work: seq<Work>, run: Record, i: nat, expiry: Option<Time>)
    requires i < |work| && i < |run.dealt| && |run.states| == |run.sessions| == |run.names| == |run.dealt| + 1
  {
    StepRight(work[i], run.states[i], run.states[i + 1], run.sessions[i], run.sessions[i + 1], run.names[i],
              run.names[i + 1], run.dealt[i], expiry)
  }

  /** What one unit of work left behind. */
  ghost predicate StepRight(work: Work, before: Registered, after: Registered, was: Option<View>, now: Option<View>,
                            names: Names, names': Names, dealt: Dealt, expiry: Option<Time>)
  {
    && Handled(work, before, after, expiry) && ItemsRight(work, after, ItemsOf(now)) && NamesRight(work, names, names')
    && SessionRight(work, before, after, was, now, dealt) && Answers(work, before, after, was, now, names', dealt)
  }

  lemma MonitorStep(work: Work, before: Registered, after: Registered, was: Option<View>, now: Option<View>,
                    names: Names, names': Names, result: ApplyResult, dealt: Dealt, expiry: Option<Time>)
    requires work.MonitorRequest? && Handled(work, before, after, expiry) && ItemsOf(now) <= after.Keys
    requires Applied(was, now, MonitorDefinition(work.key, work.parameters, work.replyTo, None), result, dealt.threw)
    requires dealt.sent == [Status(work.key, work.name, StateOf(result), work.replyTo)] && dealt.ended == []
    requires NamesRight(work, names, names')
    ensures StepRight(work, before, after, was, now, names, names', dealt, expiry)
  {}

  lemma DeleteStep(work: Work, before: Registered, after: Registered, was: Option<View>, now: Option<View>,
                   names: Names, names': Names, dealt: Dealt, expiry: Option<Time>)
    requires work.DeleteRequest? && Handled(work, before, after, expiry)
    requires ItemsOf(was) <= before.Keys && Cleared(was, now, {work.key})
    requires dealt.sent ==
      [Status(work.key, work.name, if work.key in before then StateDeleted else StateFailed, work.replyTo)]
    requires dealt.threw == [] && dealt.ended == [] && NamesRight(work, names, names')
    ensures StepRight(work, before, after, was, now, names, names', dealt, expiry)
  {
    Coordinator.SameKeysGone(before, after, {work.key}, was, now);
  }

  lemma UnlistedStep(work: Work, before: Registered, after: Registered, was: Option<View>, now: Option<View>,
                     names: Names, dealt: Dealt, expiry: Option<Time>)
    requires work.DeleteUnlistedRequest? && ItemsOf(now) <= after.Keys && Cleared(was, now, before.Keys - after.Keys)
    requires Answers(work, before, after, was, now, names, dealt) && dealt.threw == [] && dealt.ended == []
    ensures StepRight(work, before, after, was, now, names, names, dealt, expiry)
  {}

  lemma RecordedNext(work: seq<Work>, n: nat, run: Record, expiry: Option<Time>, after: Registered, now: Option<View>,
                     names: Names, dealt: Dealt)
    requires n < |work| && Recorded(work, n, run, expiry)
    requires StepRight(work[n], run.states[n], after, run.sessions[n], now, run.names[n], names, dealt, expiry)
    ensures Recorded(work, n + 1, Further(run, after, now, names, dealt), expiry)
    ensures SentIn(run.dealt + [dealt]) == SentIn(run.dealt) + dealt.sent
    ensures ThrownIn(run.dealt + [dealt]) == ThrownIn(run.dealt) + dealt.threw
  {
    var run' := Further(run, after, now, names, dealt);
    assert run'.dealt[..n] == run.dealt;
    forall i | 0 <= i < n + 1 ensures StepAt(work, run', i, expiry) {
      assert i < n ==> StepAt(work, run, i, expiry);
    }
  }

  ghost function SentIn(dealt: seq<Dealt>): seq<Output> {
    if dealt == [] then [] else SentIn(dealt[..|dealt| - 1]) + dealt[|dealt| - 1].sent
  }

  ghost function ThrownIn(dealt: seq<Dealt>): seq<bool> {
    if dealt == [] then [] else ThrownIn(dealt[..|dealt| - 1]) + dealt[|dealt| - 1].threw
  }

  // ------------------------------------------------------------------------------------------------------------
  // The name a node goes by

  /** A client asks for the node under that name, or a new session lists it so. */
  ghost predicate Gives(work: Work, node: NodeText, name: CommandName) {
    match work
    case MonitorRequest(key, asked, _, _) => key.node == node && asked == name
    case DeleteRequest(key, asked, _) => key.node == node && asked == name
    case SessionStart(_, listed, _) => exists i: nat :: LastListed(listed, i) && listed[i] == (node, name)
    case _ => false
  }

  ghost predicate Mentions(work: Work, node: NodeText) {
    match work
    case MonitorRequest(key, _, _, _) => key.node == node
    case DeleteRequest(key, _, _) => key.node == node
    case SessionStart(_, listed, _) => node in Nodes(listed)
    case _ => false
  }

  lemma NamesAt(work: seq<Work>, run: Record, expiry: Option<Time>, i: nat)
    requires i < |work| && Recorded(work, |work|, run, expiry)
    ensures NamesRight(work[i], run.names[i], run.names[i + 1])
  {
    assert StepAt(work, run, i, expiry);
  }

  lemma GivenName(work: Work, before: Names, after: Names, node: NodeText, name: CommandName)
    requires NamesRight(work, before, after) && Gives(work, node, name)
    ensures after.Of(node) == name
  {}

  lemma NamedNext(work: seq<Work>, run: Record, expiry: Option<Time>, i: nat, node: NodeText, name: CommandName)
    requires i < |work| && Recorded(work, |work|, run, expiry) && Gives(work[i], node, name)
    ensures run.names[i + 1].Of(node) == name
  {
    NamesAt(work, run, expiry, i);
    GivenName(work[i], run.names[i], run.names[i + 1], node, name);
  }

  lemma KeptName(work: Work, before: Names, after: Names, node: NodeText)
    requires NamesRight(work, before, after) && !Mentions(work, node)
    ensures after.Of(node) == before.Of(node)
  {}

  lemma KeptNext(work: seq<Work>, run: Record, expiry: Option<Time>, i: nat, node: NodeText)
    requires i < |work| && Recorded(work, |work|, run, expiry) && !Mentions(work[i], node)
    ensures run.names[i + 1].Of(node) == run.names[i].Of(node)
  {
    NamesAt(work, run, expiry, i);
    KeptName(work[i], run.names[i], run.names[i + 1], node);
  }

  /** In any run of work, a node nobody mentions goes on going by the name it has. */
  lemma {:induction false} NameIsKept(work: seq<Work>, run: Record, expiry: Option<Time>, i: nat, n: nat,
                                      node: NodeText)
    requires i <= n <= |work| && Recorded(work, |work|, run, expiry)
    requires forall j :: i <= j < n ==> !Mentions(work[j], node)
    ensures run.names[n].Of(node) == run.names[i].Of(node)
    decreases n - i
  {
    if i < n {
      KeptNext(work, run, expiry, n - 1, node);
      NameIsKept(work, run, expiry, i, n - 1, node);
    }
  }

  /**
   And one that was asked for or listed goes by the name it last was asked for or listed under, listed still or not.
   */
  lemma NameIsLastGiven(work: seq<Work>, run: Record, expiry: Option<Time>, i: nat, n: nat, node: NodeText,
                        name: CommandName)
    requires i < n <= |work| && Recorded(work, |work|, run, expiry) && Gives(work[i], node, name)
    requires forall j :: i < j < n ==> !Mentions(work[j], node)
    ensures run.names[n].Of(node) == name
  {
    NamedNext(work, run, expiry, i, node, name);
    NameIsKept(work, run, expiry, i + 1, n, node);
  }

  /**
   So a client can delete a monitor by the name it knows, whatever has become of the node since: under the name the node
   was last asked for or listed by, a Delete takes one of the sender's monitors of that name and says so, and is not
   told that there is none.
   */
  lemma DeletedByItsName(work: seq<Work>, run: Record, expiry: Option<Time>, i: nat, n: nat, key: MonitorKey)
    requires i < n < |work| && Recorded(work, |work|, run, expiry) && work[n].DeleteUnlistedRequest?
    requires Gives(work[i], key.node, work[n].name) && forall j :: i < j < n ==> !Mentions(work[j], key.node)
    requires key in run.states[n] && key.sender == work[n].sender
    ensures exists gone ::
      && gone in run.states[n] && gone.sender == work[n].sender && run.names[n].Of(gone.node) == work[n].name
      && run.states[n + 1] == run.states[n] - {gone}
      && run.dealt[n].sent == [Status(gone, work[n].name, StateDeleted, work[n].replyTo)]
  {
    NameIsLastGiven(work, run, expiry, i, n, key.node, work[n].name);
    assert StepAt(work, run, n, expiry);
  }
}
