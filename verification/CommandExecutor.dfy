/**
 The command executor: a single reader turns the queue into maximal runs, with one command held over between runs,
 and serves a run of Gets with one Read and a run of Sets with one Write. Serving a run is proved to answer and
 change the server exactly as serving its commands one at a time would, whatever moment the queue looked empty at
 and whatever order the server applies a Write's values in.
 */
module CommandExecutor {
  import opened Options
  import opened CommandSemantics
  import opened Sequences

  const MAX_BATCH: nat := 500

  // ------------------------------------------------------------------------------------------------------------
  // The server, as far as one request can tell

  /** A request is served, fails with a status, or is cut off by the bridge's own shutdown. */
  datatype Response = Done | Broken(status: StatusCode) | Cancelled

  datatype Request =
    | ReadRequest(nodes: seq<NodeId>)
    | WriteRequest(values: seq<(NodeId, Variant)>)
    | CallRequest(method_: MethodRef, inputs: Variant)
    /** Work served alone, run to its end by others. */
    | WorkRequest(work: nat)

  /** A request the executor made, and how it fared. */
  datatype Exchange = Exchange(request: Request, response: Response)

  predicate IsComplete(order: seq<nat>, n: nat) {
    forall i: nat :: i < n ==> i in order
  }

  /** Every value applied so far got the status of a write to the server as it was at that moment. */
  ghost predicate StatusesAlong(dev: Device, cells: Cells, values: seq<(NodeId, Variant)>, order: seq<nat>,
                                statuses: seq<StatusCode>)
    requires IsOrder(order, |values|) && |statuses| == |values|
  {
    forall p :: 0 <= p < |order| ==>
      statuses[order[p]] == WriteStatus(dev, ApplyInOrder(dev, cells, values, order[..p]), values[order[p]].0,
                                        values[order[p]].1)
  }

  lemma StatusesAlongStep(dev: Device, cells: Cells, values: seq<(NodeId, Variant)>, order: seq<nat>,
                          statuses: seq<StatusCode>, next: nat)
    requires IsOrder(order + [next], |values|) && next < |values| && |statuses| == |values|
    requires IsOrder(order, |values|) && StatusesAlong(dev, cells, values, order, statuses)
    ensures var now := ApplyInOrder(dev, cells, values, order);
            && ApplyInOrder(dev, cells, values, order + [next]) == WriteOne(dev, now, values[next].0, values[next].1)
            && StatusesAlong(dev, cells, values, order + [next],
                             statuses[next := WriteStatus(dev, now, values[next].0, values[next].1)])
  {
    var longer := order + [next];
    assert longer[..|order|] == order;
    forall p | 0 <= p < |order| ensures longer[..p] == order[..p] && longer[p] != next {
      assert longer[p] != longer[|order|];
    }
  }

  class Server {
    const device: Device
    var cells: Cells
    var log: seq<Exchange>

    constructor (device: Device, cells: Cells)
      ensures this.device == device && this.cells == cells && log == []
    {
      this.device, this.cells, log := device, cells, [];
    }

    static method Connection() returns (response: Response) {
      if * {
        response := Done;
      } else if * {
        var status: StatusCode := *;
        response := Broken(status);
      } else {
        response := Cancelled;
      }
    }

    method Read(nodes: seq<NodeId>) returns (response: Response, values: seq<DataValue>)
      modifies this`log
      ensures log == old(log) + [Exchange(ReadRequest(nodes), response)]
      ensures response.Done? ==>
                |values| == |nodes| && forall i :: 0 <= i < |nodes| ==>
                  values[i] == device.read(nodes[i], Look(cells, nodes[i]))
    {
      values := [];
      response := Connection();
      if response.Done? {
        values := seq(|nodes|, i requires 0 <= i < |nodes| reads this => device.read(nodes[i], Look(cells, nodes[i])));
      }
      log := log + [Exchange(ReadRequest(nodes), response)];
    }

    static method AnyOrder(n: nat) returns (order: seq<nat>)
      ensures IsOrder(order, n) && IsComplete(order, n)
    {
      order := *;
      if !IsOrder(order, n) || !IsComplete(order, n) {
        order := seq(n, i => i);
        forall i: nat | i < n ensures i in order {
          assert order[i] == i;
        }
      }
    }

    method ApplyValues(values: seq<(NodeId, Variant)>, order: seq<nat>) returns (statuses: seq<StatusCode>)
      requires IsOrder(order, |values|)
      modifies this`cells
      ensures cells == ApplyInOrder(device, old(cells), values, order)
      ensures |statuses| == |values| && StatusesAlong(device, old(cells), values, order, statuses)
    {
      statuses := seq(|values|, _ => 0);
      for p := 0 to |order|
        invariant |statuses| == |values| && IsOrder(order[..p], |values|)
        invariant cells == ApplyInOrder(device, old(cells), values, order[..p])
        invariant StatusesAlong(device, old(cells), values, order[..p], statuses)
      {
        var next := order[p];
        assert order[..p + 1] == order[..p] + [next];
        assert IsOrder(order[..p + 1], |values|);
        StatusesAlongStep(device, old(cells), values, order[..p], statuses, next);
        statuses := statuses[next := WriteStatus(device, cells, values[next].0, values[next].1)];
        cells := WriteOne(device, cells, values[next].0, values[next].1);
      }
      assert order[..|order|] == order;
    }

    /**
     Applies the values one at a time in an order of the server's own choosing; a request that does not complete
     may have applied only some of them.
     */
    method Write(values: seq<(NodeId, Variant)>)
      returns (response: Response, statuses: seq<StatusCode>, ghost order: seq<nat>)
      modifies this
      ensures log == old(log) + [Exchange(WriteRequest(values), response)]
      ensures IsOrder(order, |values|) && cells == ApplyInOrder(device, old(cells), values, order)
      ensures |statuses| == |values| && StatusesAlong(device, old(cells), values, order, statuses)
      ensures response.Done? ==> IsComplete(order, |values|)
    {
      response := Connection();
      var chosen := AnyOrder(|values|);
      if !response.Done? {
        var count: nat := *;
        if 0 <= count < |chosen| { chosen := chosen[..count]; }
      }
      statuses := ApplyValues(values, chosen);
      order := chosen;
      log := log + [Exchange(WriteRequest(values), response)];
    }

    /** A call that does not complete may have run the method or not. */
    method Call(method_: MethodRef, inputs: Variant) returns (response: Response, result: CallResult, ghost ran: bool)
      modifies this
      ensures log == old(log) + [Exchange(CallRequest(method_, inputs), response)]
      ensures cells == if ran then device.call(old(cells), method_, inputs).0 else old(cells)
      ensures response.Done? ==> ran && result == device.call(old(cells), method_, inputs).1
    {
      response := Connection();
      result := 0;
      var runs: bool := *;
      ran := runs || response.Done?;
      if runs || response.Done? {
        var (after, r) := device.call(cells, method_, inputs);
        cells, result := after, r;
      }
      log := log + [Exchange(CallRequest(method_, inputs), response)];
    }

    /** Work that does not complete may have had its effect or not. */
    method Do(work: nat) returns (response: Response, ghost ran: bool)
      modifies this
      ensures log == old(log) + [Exchange(WorkRequest(work), response)]
      ensures cells == if ran then device.work(old(cells), work) else old(cells)
      ensures response.Done? ==> ran
    {
      response := Connection();
      var runs: bool := *;
      ran := runs || response.Done?;
      if runs || response.Done? { cells := device.work(cells, work); }
      log := log + [Exchange(WorkRequest(work), response)];
    }
  }

  /**
   Where answers are sent; sending one may throw. An answer that work served alone sends of itself is noted here too.
   */
  class Output {
    var attempts: seq<(Answer, bool)>

    constructor ()
      ensures attempts == []
    {
      attempts := [];
    }

    method Send(answer: Answer) returns (threw: bool)
      modifies this
      ensures attempts == old(attempts) + [(answer, threw)]
    {
      threw := *;
      attempts := attempts + [(answer, threw)];
    }
  }

  /** The sends of some answers: one each, in order, until the `count`-th throws. */
  ghost function Attempted(answers: seq<Answer>, count: nat): seq<(Answer, bool)>
    requires count <= |answers|
  {
    seq(count, i requires 0 <= i < count => (answers[i], false)) + if count < |answers| then [(answers[count], true)]
      else []
  }

  // ------------------------------------------------------------------------------------------------------------
  // Runs

  ghost predicate AllGets(run: seq<Command>) {
    forall i :: 0 <= i < |run| ==> run[i].Get?
  }

  ghost predicate DistinctSets(run: seq<Command>) {
    && (forall i :: 0 <= i < |run| ==> run[i].Set?)
    && (forall i, j :: 0 <= i < j < |run| ==> run[i].item != run[j].item)
  }

  /** A run the executor may serve with one request. */
  ghost predicate IsRun(run: seq<Command>) {
    && 0 < |run| <= MAX_BATCH
    && (AllGets(run) || DistinctSets(run) || |run| == 1)
  }

  /** Gets change nothing, so each is answered from the server as the run found it. */
  lemma {:induction false} GetsChangeNothing(dev: Device, cells: Cells, gets: seq<Command>, links: seq<Link>)
    requires AllGets(gets) && |links| == |gets|
    ensures EffectAll(dev, cells, gets, links) == cells
    ensures forall i :: 0 <= i < |gets| ==>
      AnswerAt(dev, cells, gets, links, i) == AnswerOne(dev, cells, gets[i], links[i])
  {
    if gets != [] {
      var n := |gets| - 1;
      GetsChangeNothing(dev, cells, gets[..n], links[..n]);
      forall i | 0 <= i < |gets|
        ensures AnswerAt(dev, cells, gets, links, i) == AnswerOne(dev, cells, gets[i], links[i])
      {
        if i < n {
          assert gets[..n][..i] == gets[..i] && links[..n][..i] == links[..i];
          assert AnswerAt(dev, cells, gets[..n], links[..n], i) == AnswerOne(dev, cells, gets[i], links[i]);
        }
      }
    }
  }

  ghost predicate TakesEffect(dev: Device, command: Command, link: Link)
    requires command.Set?
  {
    dev.encodeSet(command.item, command.body).Encoded? && (link.Served? || link.reached)
  }

  /** What a run of Sets writes: its encodable values whose request reached the server. */
  ghost function SetWrites(dev: Device, sets: seq<Command>, links: seq<Link>): map<NodeId, Variant>
    requires DistinctSets(sets) && |links| == |sets|
  {
    if sets == [] then map[]
    else
      var n := |sets| - 1;
      var writes := SetWrites(dev, sets[..n], links[..n]);
      if TakesEffect(dev, sets[n], links[n]) then
        writes[sets[n].item := dev.encodeSet(sets[n].item, sets[n].body).value]
      else writes
  }

  lemma {:induction false} SetWritesNodes(dev: Device, sets: seq<Command>, links: seq<Link>, node: NodeId)
    requires DistinctSets(sets) && |links| == |sets|
    ensures node in SetWrites(dev, sets, links) ==> exists i :: 0 <= i < |sets| && sets[i].item == node
  {
    if sets != [] {
      var n := |sets| - 1;
      SetWritesNodes(dev, sets[..n], links[..n], node);
      if node in SetWrites(dev, sets[..n], links[..n]) {
        var i :| 0 <= i < n && sets[..n][i].item == node;
        assert sets[i].item == node;
      }
    }
  }

  lemma {:induction false} SetWritesAt(dev: Device, sets: seq<Command>, links: seq<Link>, i: nat)
    requires DistinctSets(sets) && |links| == |sets| && i < |sets|
    ensures var writes := SetWrites(dev, sets, links);
            && (sets[i].item in writes <==> TakesEffect(dev, sets[i], links[i]))
            && (sets[i].item in writes ==> dev.encodeSet(sets[i].item, sets[i].body) == Encoded(writes[sets[i].item]))
  {
    var n := |sets| - 1;
    if i < n {
      SetWritesAt(dev, sets[..n], links[..n], i);
      assert sets[i].item != sets[n].item;
    } else {
      SetWritesNodes(dev, sets[..n], links[..n], sets[n].item);
    }
  }

  /** Served one at a time, Sets of distinct nodes write each node once, from its original content. */
  lemma {:induction false} SetsOneAtATime(dev: Device, cells: Cells, sets: seq<Command>, links: seq<Link>)
    requires DistinctSets(sets) && |links| == |sets|
    ensures Overlaid(dev, cells, SetWrites(dev, sets, links), EffectAll(dev, cells, sets, links))
  {
    if sets != [] {
      var n := |sets| - 1;
      SetsOneAtATime(dev, cells, sets[..n], links[..n]);
      SetWritesNodes(dev, sets[..n], links[..n], sets[n].item);
      if TakesEffect(dev, sets[n], links[n]) {
        OverlaidExtend(dev, cells, SetWrites(dev, sets[..n], links[..n]), EffectAll(dev, cells, sets[..n], links[..n]),
                       sets[n].item, dev.encodeSet(sets[n].item, sets[n].body).value);
      }
    }
  }

  /** A Set whose node no earlier Set of the run names is answered from the server as the run found it. */
  lemma SetAnswerUnaffected(dev: Device, cells: Cells, sets: seq<Command>, links: seq<Link>, i: nat)
    requires DistinctSets(sets) && |links| == |sets| && i < |sets|
    ensures AnswerAt(dev, cells, sets, links, i) == AnswerOne(dev, cells, sets[i], links[i])
  {
    SetsOneAtATime(dev, cells, sets[..i], links[..i]);
    SetWritesNodes(dev, sets[..i], links[..i], sets[i].item);
    assert Look(EffectAll(dev, cells, sets[..i], links[..i]), sets[i].item) == Look(cells, sets[i].item);
  }

  /** The values a run of Sets hands to one Write: those that could be encoded, and which command each came from. */
  ghost predicate IsSelection(dev: Device, sets: seq<Command>, toWrite: seq<nat>, values: seq<(NodeId, Variant)>) {
    && (forall i :: 0 <= i < |sets| ==> sets[i].Set?)
    && |toWrite| == |values|
    && (forall k, l :: 0 <= k < l < |toWrite| ==> toWrite[k] < toWrite[l])
    && (forall k :: 0 <= k < |toWrite| ==>
          && toWrite[k] < |sets|
          && dev.encodeSet(sets[toWrite[k]].item, sets[toWrite[k]].body) == Encoded(values[k].1)
          && values[k].0 == sets[toWrite[k]].item)
    && (forall i :: 0 <= i < |sets| && dev.encodeSet(sets[i].item, sets[i].body).Encoded? ==> i in toWrite)
  }

  /** The link each Set of the run saw, given what its one Write did. */
  ghost function SetLinks(count: nat, toWrite: seq<nat>, response: Response, order: seq<nat>): seq<Link> {
    seq(count, i requires 0 <= i < count =>
      if response.Done? then Served
      else Failed(if response.Broken? then response.status else 0,
                  exists k :: 0 <= k < |toWrite| && toWrite[k] == i && k in order))
  }

  ghost predicate LinkFits(link: Link, response: Response) {
    match response
    case Done => link.Served?
    case Broken(status) => link.Failed? && link.status == status
    case Cancelled => link.Failed?
  }

  /** The values of the Sets that can be encoded, in their order. */
  ghost function Encodable(dev: Device, sets: seq<Command>): seq<(NodeId, Variant)>
    requires forall i :: 0 <= i < |sets| ==> sets[i].Set?
  {
    if sets == [] then []
    else
      var last := sets[|sets| - 1];
      Encodable(dev, sets[..|sets| - 1])
      + match dev.encodeSet(last.item, last.body) case Refused(_) => [] case Encoded(value) => [(last.item, value)]
  }

  lemma EncodableNext(dev: Device, sets: seq<Command>, i: nat)
    requires i < |sets| && forall k :: 0 <= k < |sets| ==> sets[k].Set?
    ensures Encodable(dev, sets[..i + 1]) == Encodable(dev, sets[..i])
      + match dev.encodeSet(sets[i].item, sets[i].body) case Refused(_) => [] case Encoded(value) =>
        [(sets[i].item, value)]
  {
    assert sets[..i + 1][..i] == sets[..i];
  }

  /** The first `i` Sets of a run have been encoded, or refused. */
  ghost predicate EncodedTo(dev: Device, sets: seq<Command>, i: nat, results: seq<StatusCode>, toWrite: seq<nat>,
                            values: seq<(NodeId, Variant)>)
    requires i <= |sets| && forall k :: 0 <= k < |sets| ==> sets[k].Set?
  {
    && IsSelection(dev, sets[..i], toWrite, values) && values == Encodable(dev, sets[..i])
    && |results| == i
    && forall j :: 0 <= j < i && j !in toWrite ==> dev.encodeSet(sets[j].item, sets[j].body) == Refused(results[j])
  }

  lemma SelectionNext(dev: Device, sets: seq<Command>, i: nat, toWrite: seq<nat>, values: seq<(NodeId, Variant)>)
    requires i < |sets| && sets[i].Set? && IsSelection(dev, sets[..i], toWrite, values)
    ensures match dev.encodeSet(sets[i].item, sets[i].body)
      case Refused(_) => IsSelection(dev, sets[..i + 1], toWrite, values)
      case Encoded(value) => IsSelection(dev, sets[..i + 1], toWrite + [i], values + [(sets[i].item, value)])
  {
    assert sets[..i + 1] == sets[..i] + [sets[i]];
    assert forall j :: j in toWrite ==> j in toWrite + [i];
  }

  lemma EncodedNext(dev: Device, sets: seq<Command>, i: nat, results: seq<StatusCode>, toWrite: seq<nat>,
                    values: seq<(NodeId, Variant)>)
    requires i < |sets| && (forall k :: 0 <= k < |sets| ==> sets[k].Set?)
    requires EncodedTo(dev, sets, i, results, toWrite, values)
    ensures match dev.encodeSet(sets[i].item, sets[i].body)
      case Refused(status) => EncodedTo(dev, sets, i + 1, results + [status], toWrite, values)
      case Encoded(value) => EncodedTo(dev, sets, i + 1, results + [0], toWrite + [i], values + [(sets[i].item, value)])
  {
    SelectionNext(dev, sets, i, toWrite, values);
    EncodableNext(dev, sets, i);
    assert forall j :: j in toWrite ==> j in toWrite + [i];
  }

  function Nodes(gets: seq<Command>): seq<NodeId>
    requires forall i :: 0 <= i < |gets| ==> gets[i].Get?
  {
    seq(|gets|, i requires 0 <= i < |gets| => gets[i].item)
  }

  /** The one request a run needs, if it needs any. */
  ghost function RequestOf(dev: Device, run: seq<Command>): Option<Request>
    requires IsRun(run)
  {
    if AllGets(run) then Some(ReadRequest(Nodes(run)))
    else if DistinctSets(run) then if Encodable(dev, run) == [] then None else Some(WriteRequest(Encodable(dev, run)))
    else if run[0].Exec? then
      match dev.encodeExec(run[0].method_, run[0].body)
      case Refused(_) => None
      case Encoded(inputs) => Some(CallRequest(run[0].method_, inputs))
    else if run[0].Alone? then Some(WorkRequest(run[0].work))
    else None
  }

  /**
   A run made exactly the request it needs, once; its commands fared as the request did, and were served if there was
   none.
   */
  ghost predicate Requested(dev: Device, run: seq<Command>, runLinks: seq<Link>, asked: seq<Exchange>) {
    IsRun(run) &&
    match RequestOf(dev, run)
    case None => asked == [] && forall i :: 0 <= i < |runLinks| ==> runLinks[i].Served?
    case Some(request) =>
      && |asked| == 1 && asked[0].request == request
      && forall i :: 0 <= i < |runLinks| ==> LinkFits(runLinks[i], asked[0].response)
  }

  /** A value is written by the one Write if and only if its Set, served in turn, writes it. */
  lemma SameWriteAt(dev: Device, sets: seq<Command>, toWrite: seq<nat>, values: seq<(NodeId, Variant)>,
                    response: Response, order: seq<nat>, k: nat)
    requires DistinctSets(sets) && IsSelection(dev, sets, toWrite, values)
    requires DistinctNodes(values) && IsOrder(order, |values|) && k < |values|
    requires response.Done? ==> IsComplete(order, |values|)
    ensures var one, many, node := WritesOf(values, order),
      SetWrites(dev, sets, SetLinks(|sets|, toWrite, response, order)), values[k].0;
            (node in one <==> node in many) && (node in one ==> one[node] == many[node])
  {
    WritesOfContent(values, order);
    SelectionLink(dev, sets, toWrite, values, response, order, k);
    SetWritesAt(dev, sets, SetLinks(|sets|, toWrite, response, order), toWrite[k]);
  }

  lemma SetWritesSelected(dev: Device, sets: seq<Command>, toWrite: seq<nat>, values: seq<(NodeId, Variant)>,
                          links: seq<Link>, node: NodeId)
    requires DistinctSets(sets) && IsSelection(dev, sets, toWrite, values) && |links| == |sets|
    requires node in SetWrites(dev, sets, links)
    ensures exists k :: 0 <= k < |values| && values[k].0 == node
  {
    SetWritesNodes(dev, sets, links, node);
    var i :| 0 <= i < |sets| && sets[i].item == node;
    SetWritesAt(dev, sets, links, i);
    assert i in toWrite;
    var k :| 0 <= k < |toWrite| && toWrite[k] == i;
    assert values[k].0 == node;
  }

  /** What one Write put on the server is what its Sets, served in turn, write. */
  lemma SameWrites(dev: Device, sets: seq<Command>, toWrite: seq<nat>, values: seq<(NodeId, Variant)>,
                   response: Response, order: seq<nat>)
    requires DistinctSets(sets) && IsSelection(dev, sets, toWrite, values)
    requires DistinctNodes(values) && IsOrder(order, |values|)
    requires response.Done? ==> IsComplete(order, |values|)
    ensures WritesOf(values, order) == SetWrites(dev, sets, SetLinks(|sets|, toWrite, response, order))
  {
    var links := SetLinks(|sets|, toWrite, response, order);
    var one, many := WritesOf(values, order), SetWrites(dev, sets, links);
    forall node
      ensures node in one <==> node in many
      ensures node in one ==> one[node] == many[node]
    {
      if node in one || node in many {
        if node in one {
          WritesOfContent(values, order);
        } else {
          SetWritesSelected(dev, sets, toWrite, values, links, node);
        }
        var k :| 0 <= k < |values| && values[k].0 == node;
        SameWriteAt(dev, sets, toWrite, values, response, order, k);
      }
    }
    assert one.Keys == many.Keys;
  }

  lemma SelectionLink(dev: Device, sets: seq<Command>, toWrite: seq<nat>, values: seq<(NodeId, Variant)>,
                      response: Response, order: seq<nat>, k: nat)
    requires IsSelection(dev, sets, toWrite, values) && k < |values|
    requires response.Done? ==> IsComplete(order, |values|)
    ensures TakesEffect(dev, sets[toWrite[k]], SetLinks(|sets|, toWrite, response, order)[toWrite[k]]) <==> k in order
  {
    forall l | 0 <= l < |toWrite| && toWrite[l] == toWrite[k] ensures l == k {}
  }

  lemma SelectionDistinct(dev: Device, sets: seq<Command>, toWrite: seq<nat>, values: seq<(NodeId, Variant)>)
    requires DistinctSets(sets) && IsSelection(dev, sets, toWrite, values)
    ensures DistinctNodes(values)
  {
    forall i, j | 0 <= i < j < |values| ensures values[i].0 != values[j].0 {
      assert toWrite[i] < toWrite[j];
    }
  }

  /** One Write, applied in any order and possibly cut short, leaves the server as serving the Sets in turn does. */
  lemma OneWriteIsSetsInTurn(dev: Device, cells: Cells, sets: seq<Command>, toWrite: seq<nat>,
                             values: seq<(NodeId, Variant)>,
                             response: Response, order: seq<nat>)
    requires DistinctSets(sets) && IsSelection(dev, sets, toWrite, values) && IsOrder(order, |values|)
    requires response.Done? ==> IsComplete(order, |values|)
    ensures ApplyInOrder(dev, cells, values, order)
      == EffectAll(dev, cells, sets, SetLinks(|sets|, toWrite, response, order))
  {
    var links := SetLinks(|sets|, toWrite, response, order);
    SelectionDistinct(dev, sets, toWrite, values);
    SetsOneAtATime(dev, cells, sets, links);
    ApplyInOrderOverlays(dev, cells, values, order);
    SameWrites(dev, sets, toWrite, values, response, order);
    OverlaidUnique(dev, cells, WritesOf(values, order), ApplyInOrder(dev, cells, values, order),
                   EffectAll(dev, cells, sets, links));
  }

  /** Each value of the Write gets the status its Set gets when served in turn. */
  lemma WriteStatusUnaffected(dev: Device, cells: Cells, values: seq<(NodeId, Variant)>, order: seq<nat>, p: nat)
    requires DistinctNodes(values) && IsOrder(order, |values|) && p < |order|
    ensures WriteStatus(dev, ApplyInOrder(dev, cells, values, order[..p]), values[order[p]].0, values[order[p]].1)
         == WriteStatus(dev, cells, values[order[p]].0, values[order[p]].1)
  {
    ApplyInOrderOverlays(dev, cells, values, order[..p]);
    WritesOfContent(values, order[..p]);
    assert order[p] !in order[..p];
    var node := values[order[p]].0;
    assert node !in WritesOf(values, order[..p]);
    assert Look(ApplyInOrder(dev, cells, values, order[..p]), node) == Look(cells, node);
  }

  /** Every status of a completed Write is that of writing to the server as the run found it. */
  lemma CompleteStatuses(dev: Device, before: Cells, values: seq<(NodeId, Variant)>, order: seq<nat>,
                         statuses: seq<StatusCode>, response: Response)
    requires DistinctNodes(values) && IsOrder(order, |values|) && |statuses| == |values|
    requires response.Done? ==> IsComplete(order, |values|) && StatusesAlong(dev, before, values, order, statuses)
    ensures response.Done? ==> forall k :: 0 <= k < |values| ==>
      statuses[k] == WriteStatus(dev, before, values[k].0, values[k].1)
  {
    if response.Done? {
      forall k | 0 <= k < |values| ensures statuses[k] == WriteStatus(dev, before, values[k].0, values[k].1) {
        assert k in order;
        var p :| 0 <= p < |order| && order[p] == k;
        WriteStatusUnaffected(dev, before, values, order, p);
      }
    }
  }

  /** A run's results once the statuses of its Write are put back where the values came from. */
  function Scatter(results: seq<StatusCode>, toWrite: seq<nat>, statuses: seq<StatusCode>): (scattered: seq<StatusCode>)
    requires |toWrite| == |statuses| && forall k :: 0 <= k < |toWrite| ==> toWrite[k] < |results|
    requires forall k, l :: 0 <= k < l < |toWrite| ==> toWrite[k] < toWrite[l]
    ensures |scattered| == |results|
    ensures forall k :: 0 <= k < |toWrite| ==> scattered[toWrite[k]] == statuses[k]
    ensures forall i :: 0 <= i < |results| && i !in toWrite ==> scattered[i] == results[i]
  {
    if toWrite == [] then results
    else
      var n := |toWrite| - 1;
      assert forall i :: i in toWrite <==> i in toWrite[..n] || i == toWrite[n];
      Scatter(results, toWrite[..n], statuses[..n])[toWrite[n] := statuses[n]]
  }

  /** The result the executor works out for each Set is the one serving it in turn gives. */
  lemma SetAnswered(dev: Device, before: Cells, sets: seq<Command>, toWrite: seq<nat>, values: seq<(NodeId, Variant)>,
                    response: Response, order: seq<nat>, results: seq<StatusCode>, i: nat)
    requires DistinctSets(sets) && IsSelection(dev, sets, toWrite, values) && |results| == |sets| && i < |sets|
    requires !response.Cancelled?
    requires i !in toWrite ==> dev.encodeSet(sets[i].item, sets[i].body) == Refused(results[i])
    requires forall k :: 0 <= k < |toWrite| ==>
      results[toWrite[k]] == if response.Broken? then response.status
        else WriteStatus(dev, before, values[k].0, values[k].1)
    ensures SetStatus(sets[i].item, results[i], sets[i].replyTo)
         == AnswerOne(dev, before, sets[i], SetLinks(|sets|, toWrite, response, order)[i])
  {
    if i in toWrite {
      var k :| 0 <= k < |toWrite| && toWrite[k] == i;
    }
  }

  lemma SetsAnswered(dev: Device, before: Cells, sets: seq<Command>, toWrite: seq<nat>, values: seq<(NodeId, Variant)>,
                     response: Response, order: seq<nat>, results: seq<StatusCode>, answers: seq<Answer>)
    requires DistinctSets(sets) && IsSelection(dev, sets, toWrite, values) && |results| == |sets| == |answers|
    requires !response.Cancelled?
    requires forall i :: 0 <= i < |sets| && i !in toWrite ==>
      dev.encodeSet(sets[i].item, sets[i].body) == Refused(results[i])
    requires forall k :: 0 <= k < |toWrite| ==>
      results[toWrite[k]] == if response.Broken? then response.status
        else WriteStatus(dev, before, values[k].0, values[k].1)
    requires forall i :: 0 <= i < |sets| ==> answers[i] == SetStatus(sets[i].item, results[i], sets[i].replyTo)
    ensures forall i :: 0 <= i < |sets| ==>
      answers[i] == AnswerAt(dev, before, sets, SetLinks(|sets|, toWrite, response, order), i)
  {
    forall i | 0 <= i < |sets|
      ensures answers[i] == AnswerAt(dev, before, sets, SetLinks(|sets|, toWrite, response, order), i)
    {
      SetAnswerUnaffected(dev, before, sets, SetLinks(|sets|, toWrite, response, order), i);
      SetAnswered(dev, before, sets, toWrite, values, response, order, results, i);
    }
  }

  /** The first `count` of a run's answers, sent before sending threw; the rest are lost. */
  function Sent(answers: seq<Answer>, count: nat): (slots: seq<Option<Answer>>)
    ensures |slots| == |answers|
  {
    seq(|answers|, i requires 0 <= i < |answers| => if i < count then Some(answers[i]) else None)
  }

  function HeldOver(held: Option<Command>): seq<Command> {
    if held.Some? then [held.value] else []
  }

  /** The first `n` indices but two of them. */
  ghost function Others(n: nat, i: nat, j: nat): seq<nat> {
    if n == 0 then [] else Others(n - 1, i, j) + if n - 1 == i || n - 1 == j then [] else [n - 1]
  }

  lemma {:induction false} OthersAre(n: nat, i: nat, j: nat)
    ensures Distinct(Others(n, i, j))
    ensures forall k: nat :: k in Others(n, i, j) <==> k < n && k != i && k != j
  {
    if n > 0 {
      var fewer, m := Others(n - 1, i, j), n - 1;
      OthersAre(m, i, j);
      if m != i && m != j {
        assert Others(n, i, j) == fewer + [m];
        forall k | 0 <= k < |fewer| ensures fewer[k] < m { assert fewer[k] in fewer; }
        assert Distinct(fewer + [m]);
      } else {
        assert Others(n, i, j) == fewer;
      }
    }
  }

  /** The last two values applied, to one node of which each takes whatever it held before to a content of its own. */
  lemma LastWins(dev: Device, cells: Cells, values: seq<(NodeId, Variant)>, order: seq<nat>, first: nat, last: nat,
                 cell: Cell)
    requires first < |values| && last < |values| && forall k :: 0 <= k < |order| ==> order[k] < |values|
    requires forall before :: dev.write(values[last].0, before, values[last].1).1 == Some(cell)
    ensures Look(ApplyInOrder(dev, cells, values, order + [first, last]), values[last].0) == Some(cell)
  {
    var whole := order + [first, last];
    assert whole[..|whole| - 1] == order + [first] && whole[|whole| - 1] == last;
    assert forall k :: 0 <= k < |whole| ==> whole[k] < |values|;
  }

  /**
   Without the rule that no node repeats in a Write, the order the server picks would show: whatever the server holds
   and whatever else the request writes, two values that leave one node with different contents make two orders differ.
   */
  lemma RepeatedNodeWouldShow(dev: Device, cells: Cells, values: seq<(NodeId, Variant)>, i: nat, j: nat, ci: Cell,
                              cj: Cell)
    requires i < j < |values| && values[i].0 == values[j].0 && ci != cj
    requires forall before :: dev.write(values[i].0, before, values[i].1).1 == Some(ci)
    requires forall before :: dev.write(values[j].0, before, values[j].1).1 == Some(cj)
    ensures exists a, b ::
      && IsOrder(a, |values|) && IsComplete(a, |values|) && IsOrder(b, |values|) && IsComplete(b, |values|)
      && ApplyInOrder(dev, cells, values, a) != ApplyInOrder(dev, cells, values, b)
  {
    var others := Others(|values|, i, j);
    OthersAre(|values|, i, j);
    var a, b := others + [i, j], others + [j, i];
    assert forall k :: 0 <= k < |others| ==> others[k] in others;
    forall k: nat | k < |values| ensures k in a && k in b {
      assert k in others ==> k in a && k in b;
      if k == i { assert a[|others|] == i && b[|others| + 1] == i; }
      if k == j { assert a[|others| + 1] == j && b[|others|] == j; }
    }
    LastWins(dev, cells, values, others, i, j, cj);
    LastWins(dev, cells, values, others, j, i, ci);
  }

  lemma AloneInRun(dev: Device, cells: Cells, command: Command, link: Link)
    ensures EffectAll(dev, cells, [command], [link]) == EffectOne(dev, cells, command, link)
    ensures AnswerAt(dev, cells, [command], [link], 0) == AnswerOne(dev, cells, command, link)
  {
    assert [command][..0] == [] && [link][..0] == [];
  }

  /** Whether `next` may join a run that so far is `run`. */
  ghost predicate Joins(run: seq<Command>, next: Command) {
    (AllGets(run) && next.Get?) || (DistinctSets(run) && DistinctSets(run + [next]))
  }

  /** Exactly the Gets go on a run of Gets, and exactly the Sets of yet another node a run of Sets. */
  lemma JoinsWhen(run: seq<Command>, next: Command)
    requires IsRun(run)
    ensures AllGets(run) ==> (Joins(run, next) <==> next.Get?)
    ensures DistinctSets(run) ==>
      (Joins(run, next) <==> next.Set? && forall i :: 0 <= i < |run| ==> run[i].item != next.item)
    ensures run[0].Exec? || run[0].Alone? ==> !Joins(run, next)
  {
    var longer := run + [next];
    assert run[0] == longer[0] && longer[|run|] == next && forall i :: 0 <= i < |run| ==> longer[i] == run[i];
    assert AllGets(run) ==> run[0].Get?;
    assert DistinctSets(run) ==> run[0].Set?;
    if DistinctSets(longer) {
      forall i | 0 <= i < |run| ensures run[i].item != next.item { assert longer[i].item != longer[|run|].item; }
    }
  }

  lemma RunEnds(sets: seq<Command>, next: Command)
    requires DistinctSets(sets) && sets != []
    requires next.Set? ==> exists i :: 0 <= i < |sets| && sets[i].item == next.item
    ensures !Joins(sets, next)
  {
    assert sets[0].Set?;
    assert (sets + [next])[|sets|] == next;
    if next.Set? {
      var i :| 0 <= i < |sets| && sets[i].item == next.item;
      assert (sets + [next])[i].item == (sets + [next])[|sets|].item;
    }
  }

  // ------------------------------------------------------------------------------------------------------------
  // What the executor has done

  /**
   One run: its commands and how each fared, the answers worked out for them and how many were sent, what was asked of
   the server, and whether the run was cut off before it answered.
   */
  datatype RunRecord = RunRecord(run: seq<Command>, links: seq<Link>, answers: seq<Answer>, count: nat, cutOff: bool,
                                 asked: seq<Exchange>) {
    ghost predicate Valid(dev: Device) {
      && |links| == |answers| == |run| && count <= |run| && (cutOff ==> count == 0)
      && Requested(dev, run, links, asked)
    }

    /** Sending one of its answers threw. */
    predicate Threw() {
      !cutOff && count < |answers|
    }

    /** What went out of its answers, command by command. */
    function Slots(): seq<Option<Answer>> {
      Sent(answers, count)
    }

    /** What was worked out to answer each command with, unless the run was cut off. */
    function Worked(): seq<Option<Answer>> {
      Sent(answers, if cutOff then 0 else |answers|)
    }

    ghost function Attempts(): seq<(Answer, bool)> {
      if cutOff || count > |answers| then [] else Attempted(answers, count)
    }
  }

  ghost function CommandsOf(runs: seq<RunRecord>): seq<Command> {
    if runs == [] then [] else CommandsOf(runs[..|runs| - 1]) + runs[|runs| - 1].run
  }

  ghost function LinksOf(runs: seq<RunRecord>): seq<Link> {
    if runs == [] then [] else LinksOf(runs[..|runs| - 1]) + runs[|runs| - 1].links
  }

  ghost function SlotsOf(runs: seq<RunRecord>): seq<Option<Answer>> {
    if runs == [] then [] else SlotsOf(runs[..|runs| - 1]) + runs[|runs| - 1].Slots()
  }

  ghost function WorkedOf(runs: seq<RunRecord>): seq<Option<Answer>> {
    if runs == [] then [] else WorkedOf(runs[..|runs| - 1]) + runs[|runs| - 1].Worked()
  }

  ghost function AsksOf(runs: seq<RunRecord>): seq<Exchange> {
    if runs == [] then [] else AsksOf(runs[..|runs| - 1]) + runs[|runs| - 1].asked
  }

  ghost function AttemptsOf(runs: seq<RunRecord>): seq<(Answer, bool)> {
    if runs == [] then [] else AttemptsOf(runs[..|runs| - 1]) + runs[|runs| - 1].Attempts()
  }

  ghost predicate AllValid(dev: Device, runs: seq<RunRecord>) {
    forall i {:trigger runs[i].Valid(dev)} :: 0 <= i < |runs| ==> runs[i].Valid(dev)
  }

  lemma {:induction false} Lengths(dev: Device, runs: seq<RunRecord>)
    requires AllValid(dev, runs)
    ensures |CommandsOf(runs)| == |LinksOf(runs)| == |SlotsOf(runs)| == |WorkedOf(runs)|
  {
    if runs != [] {
      Lengths(dev, runs[..|runs| - 1]);
      assert runs[|runs| - 1].Valid(dev);
    }
  }

  /** A run is on record as it went: its answers were worked out from the server as the run found it. */
  ghost predicate RunRight(dev: Device, before: Cells, r: RunRecord) {
    && r.Valid(dev)
    && (!r.cutOff ==> forall i :: 0 <= i < |r.run| ==> r.answers[i] == AnswerAt(dev, before, r.run, r.links, i))
  }

  /** The server after the runs, each starting from what those before it left. */
  ghost function CellsOf(dev: Device, initial: Cells, runs: seq<RunRecord>): Cells {
    if runs == [] then initial
    else
      var before, r := CellsOf(dev, initial, runs[..|runs| - 1]), runs[|runs| - 1];
      if |r.links| == |r.run| then EffectAll(dev, before, r.run, r.links) else before
  }

  ghost predicate RunsRight(dev: Device, initial: Cells, runs: seq<RunRecord>) {
    runs == [] || (RunsRight(dev, initial, runs[..|runs| - 1])
                   && RunRight(dev, CellsOf(dev, initial, runs[..|runs| - 1]), runs[|runs| - 1]))
  }

  /** The runs account for the server, for all that was asked of it since, and for every attempt to send since. */
  ghost predicate Tallies(dev: Device, initial: Cells, askedBefore: seq<Exchange>, attemptedBefore: seq<(Answer, bool)>,
                          runs: seq<RunRecord>, cells: Cells, asks: seq<Exchange>, attempts: seq<(Answer, bool)>) {
    && RunsRight(dev, initial, runs) && cells == CellsOf(dev, initial, runs)
    && asks == askedBefore + AsksOf(runs) && attempts == attemptedBefore + AttemptsOf(runs)
  }

  /** One more run, from the server as it found it. */
  lemma TalliesOn(dev: Device, initial: Cells, askedBefore: seq<Exchange>, attemptedBefore: seq<(Answer, bool)>,
                  runs: seq<RunRecord>, before: Cells, asks: seq<Exchange>, attempts: seq<(Answer, bool)>, r: RunRecord,
                  after: Cells)
    requires Tallies(dev, initial, askedBefore, attemptedBefore, runs, before, asks, attempts)
    requires RunRight(dev, before, r) && after == EffectAll(dev, before, r.run, r.links)
    ensures Tallies(dev, initial, askedBefore, attemptedBefore, runs + [r], after, asks + r.asked,
                    attempts + r.Attempts())
  {
    OneMoreRun(dev, initial, runs, r);
    Joined(askedBefore, AsksOf(runs), r.asked);
    Joined(attemptedBefore, AttemptsOf(runs), r.Attempts());
  }

  lemma OneMoreRun(dev: Device, initial: Cells, runs: seq<RunRecord>, r: RunRecord)
    requires RunsRight(dev, initial, runs) && RunRight(dev, CellsOf(dev, initial, runs), r)
    ensures RunsRight(dev, initial, runs + [r])
    ensures CellsOf(dev, initial, runs + [r]) == EffectAll(dev, CellsOf(dev, initial, runs), r.run, r.links)
    ensures AsksOf(runs + [r]) == AsksOf(runs) + r.asked && AttemptsOf(runs + [r]) == AttemptsOf(runs) + r.Attempts()
  {
    assert (runs + [r])[..|runs|] == runs;
  }

  lemma {:induction false} RightIsValid(dev: Device, initial: Cells, runs: seq<RunRecord>)
    requires RunsRight(dev, initial, runs)
    ensures AllValid(dev, runs)
  {
    if runs != [] {
      var n := |runs| - 1;
      RightIsValid(dev, initial, runs[..n]);
      forall i | 0 <= i < |runs| ensures runs[i].Valid(dev) {
        if i < n { assert runs[..n][i].Valid(dev); }
      }
    }
  }

  /** Every answer worked out is the one serving the commands one at a time gives. */
  ghost predicate AnswersRight(dev: Device, initial: Cells, commands: seq<Command>, links: seq<Link>,
                               worked: seq<Option<Answer>>)
  {
    && |commands| == |links| == |worked|
    && forall i {:trigger AnswerAt(dev, initial, commands, links, i)} :: 0 <= i < |worked| && worked[i].Some? ==>
         worked[i].value == AnswerAt(dev, initial, commands, links, i)
  }

  lemma AnswersRightOn(dev: Device, initial: Cells, commands: seq<Command>, links: seq<Link>,
                       worked: seq<Option<Answer>>, before: Cells, r: RunRecord)
    requires AnswersRight(dev, initial, commands, links, worked) && RunRight(dev, before, r)
    requires before == EffectAll(dev, initial, commands, links)
    ensures AnswersRight(dev, initial, commands + r.run, links + r.links, worked + r.Worked())
  {
    var all := worked + r.Worked();
    forall i | 0 <= i < |all| && all[i].Some?
      ensures all[i].value == AnswerAt(dev, initial, commands + r.run, links + r.links, i)
    {
      AnswerAtConcat(dev, initial, commands, links, r.run, r.links, i);
      if i < |worked| {
        assert all[i] == worked[i];
      } else {
        assert all[i] == r.Worked()[i - |worked|];
      }
    }
  }

  /** Runs of whatever length, served one after the other, are their commands served one at a time. */
  lemma {:induction false} RunsAreCommandsInTurn(dev: Device, initial: Cells, runs: seq<RunRecord>)
    requires RunsRight(dev, initial, runs)
    ensures |CommandsOf(runs)| == |LinksOf(runs)|
    ensures CellsOf(dev, initial, runs) == EffectAll(dev, initial, CommandsOf(runs), LinksOf(runs))
    ensures AnswersRight(dev, initial, CommandsOf(runs), LinksOf(runs), WorkedOf(runs))
  {
    if runs != [] {
      var earlier, r := runs[..|runs| - 1], runs[|runs| - 1];
      RunsAreCommandsInTurn(dev, initial, earlier);
      EffectAllConcat(dev, initial, CommandsOf(earlier), LinksOf(earlier), r.run, r.links);
      AnswersRightOn(dev, initial, CommandsOf(earlier), LinksOf(earlier), WorkedOf(earlier),
                     CellsOf(dev, initial, earlier), r);
    }
  }

  // ------------------------------------------------------------------------------------------------------------
  // What a command was answered from, and what it left behind

  /**
   A command, the server as it found it, and the one request of its run: the answer goes where the command asked, for
   the item or method it names, and says what came of that request. Without one -- a Set or Exec that cannot be encoded,
   or a Set of a run none of which can -- it says why.
   */
  ghost predicate AnswerFits(dev: Device, found: Cells, command: Command, asked: seq<Exchange>, answer: Answer) {
    match command
    case Get(item, replyTo) =>
      && |asked| == 1 && asked[0].request.ReadRequest? && item in asked[0].request.nodes
      && answer.GetEvent? && answer.item == item && answer.replyTo == replyTo
      && (asked[0].response.Done? ==> answer.value == dev.read(item, Look(found, item)))
      && (asked[0].response.Broken? ==> answer.value == dev.badValue(asked[0].response.status))
    case Set(item, body, replyTo) =>
      && answer.SetStatus? && answer.item == item && answer.replyTo == replyTo
      && (match dev.encodeSet(item, body)
          case Refused(status) => answer.status == status
          case Encoded(value) =>
            && |asked| == 1 && asked[0].request.WriteRequest? && (item, value) in asked[0].request.values
            && (asked[0].response.Done? ==> answer.status == dev.write(item, Look(found, item), value).0)
            && (asked[0].response.Broken? ==> answer.status == asked[0].response.status))
    case Exec(m, body, replyTo) =>
      && answer.ExecResult? && answer.method_ == m && answer.replyTo == replyTo
      && (match dev.encodeExec(m, body)
          case Refused(status) => asked == [] && answer.result == dev.refusedCall(status)
          case Encoded(inputs) =>
            && |asked| == 1 && asked[0].request == CallRequest(m, inputs)
            && (asked[0].response.Done? ==> answer.result == dev.call(found, m, inputs).1)
            && (asked[0].response.Broken? ==> answer.result == dev.failedCall(asked[0].response.status)))
    case Alone(work) => answer == Ran(work)
  }

  /**
   What a command leaves of the server it found: a Get nothing else; a Set its own node as writing it makes it, and all
   other nodes alone; an Exec, and work served alone, whatever they do. A request that completed had its effect, and one
   that did not may have had it or not.
   */
  ghost predicate EffectFits(dev: Device, found: Cells, command: Command, asked: seq<Exchange>, left: Cells) {
    var certain := asked != [] && asked[0].response.Done?;
    match command
    case Get(_, _) => left == found
    case Set(item, body, _) =>
      && (forall node :: node != item ==> Look(left, node) == Look(found, node))
      && (match dev.encodeSet(item, body)
          case Refused(_) => left == found
          case Encoded(value) =>
            var written := dev.write(item, Look(found, item), value).1;
            || Look(left, item) == (if written.Some? then written else Look(found, item))
            || (!certain && left == found))
    case Exec(m, body, _) =>
      (match dev.encodeExec(m, body)
       case Refused(_) => left == found
       case Encoded(inputs) => left == dev.call(found, m, inputs).0 || (!certain && left == found))
    case Alone(work) => left == dev.work(found, work) || (!certain && left == found)
  }

  ghost predicate Fits(dev: Device, found: Cells, r: RunRecord, i: nat)
    requires i < |r.run| && |r.links| == |r.answers| == |r.run|
  {
    && (!r.cutOff ==> AnswerFits(dev, EffectAll(dev, found, r.run[..i], r.links[..i]), r.run[i], r.asked, r.answers[i]))
    && EffectFits(dev, EffectAll(dev, found, r.run[..i], r.links[..i]), r.run[i], r.asked,
                  EffectAll(dev, found, r.run[..i + 1], r.links[..i + 1]))
  }

  lemma {:induction false} EncodableHas(dev: Device, sets: seq<Command>, i: nat)
    requires i < |sets| && forall k :: 0 <= k < |sets| ==> sets[k].Set?
    requires dev.encodeSet(sets[i].item, sets[i].body).Encoded?
    ensures (sets[i].item, dev.encodeSet(sets[i].item, sets[i].body).value) in Encodable(dev, sets)
  {
    if i < |sets| - 1 { EncodableHas(dev, sets[..|sets| - 1], i); }
  }

  /** The one request of a run is one that a command of it needs; there may be none if that needs none. */
  ghost predicate AsksFor(dev: Device, command: Command, asked: seq<Exchange>) {
    match command
    case Get(item, _) => asked != [] && asked[0].request.ReadRequest? && item in asked[0].request.nodes
    case Set(item, body, _) =>
      dev.encodeSet(item, body).Encoded? ==>
        && asked != [] && asked[0].request.WriteRequest?
        && (item, dev.encodeSet(item, body).value) in asked[0].request.values
    case Exec(m, body, _) =>
      (match dev.encodeExec(m, body)
       case Refused(_) => asked == []
       case Encoded(inputs) => asked != [] && asked[0].request == CallRequest(m, inputs))
    case Alone(work) => asked != [] && asked[0].request == WorkRequest(work)
  }

  /** What one command of a valid run was asked of the server with, and how its request fared. */
  lemma AskedFor(dev: Device, r: RunRecord, i: nat)
    requires r.Valid(dev) && i < |r.run|
    ensures r.asked != [] ==> |r.asked| == 1 && LinkFits(r.links[i], r.asked[0].response)
    ensures AsksFor(dev, r.run[i], r.asked)
  {
    assert r.run[0] == r.run[0];
    if AllGets(r.run) {
      assert Nodes(r.run)[i] == r.run[i].item;
    } else if DistinctSets(r.run) {
      if dev.encodeSet(r.run[i].item, r.run[i].body).Encoded? { EncodableHas(dev, r.run, i); }
    }
  }

  lemma AnswerOneFits(dev: Device, found: Cells, command: Command, link: Link, asked: seq<Exchange>)
    requires AsksFor(dev, command, asked) && (asked != [] ==> |asked| == 1 && LinkFits(link, asked[0].response))
    ensures AnswerFits(dev, found, command, asked, AnswerOne(dev, found, command, link))
  {}

  lemma EffectOneFits(dev: Device, found: Cells, command: Command, link: Link, asked: seq<Exchange>)
    requires AsksFor(dev, command, asked) && (asked != [] ==> |asked| == 1 && LinkFits(link, asked[0].response))
    ensures EffectFits(dev, found, command, asked, EffectOne(dev, found, command, link))
  {}

  /** A value to write that is the encoding of what some Set gives. */
  ghost predicate ComesFrom(dev: Device, sets: seq<Command>, value: (NodeId, Variant)) {
    exists i :: 0 <= i < |sets| && sets[i].Set? && sets[i].item == value.0
                && dev.encodeSet(sets[i].item, sets[i].body) == Encoded(value.1)
  }

  lemma {:induction false} EncodableComeFrom(dev: Device, sets: seq<Command>)
    requires forall k :: 0 <= k < |sets| ==> sets[k].Set?
    ensures forall k :: 0 <= k < |Encodable(dev, sets)| ==> ComesFrom(dev, sets, Encodable(dev, sets)[k])
  {
    if sets != [] {
      var n := |sets| - 1;
      EncodableComeFrom(dev, sets[..n]);
      forall k | 0 <= k < |Encodable(dev, sets)| ensures ComesFrom(dev, sets, Encodable(dev, sets)[k]) {
        if k < |Encodable(dev, sets[..n])| {
          var i :| 0 <= i < n && sets[..n][i].item == Encodable(dev, sets)[k].0
            && dev.encodeSet(sets[..n][i].item, sets[..n][i].body) == Encoded(Encodable(dev, sets)[k].1);
          assert sets[i] == sets[..n][i];
        } else {
          assert sets[n].Set?;
        }
      }
    }
  }

  /**
   A run is of at most 500 commands and makes at most one request, which asks for nothing but what its commands want:
   the value of each Get's node, in their order; the values of its Sets; or what its one Exec, or its one piece of work,
   is.
   */
  lemma OneRequest(dev: Device, r: RunRecord)
    requires r.Valid(dev)
    ensures 1 <= |r.run| <= 500 && |r.asked| <= 1
    ensures r.asked != [] ==>
      match r.asked[0].request
      case ReadRequest(nodes) =>
        |nodes| == |r.run| && forall i :: 0 <= i < |r.run| ==> r.run[i].Get? && nodes[i] == r.run[i].item
      case WriteRequest(values) =>
        && (forall i :: 0 <= i < |r.run| ==> r.run[i].Set?)
        && (forall k :: 0 <= k < |values| ==> ComesFrom(dev, r.run, values[k]))
      case CallRequest(m, inputs) =>
        |r.run| == 1 && r.run[0].Exec? && r.run[0].method_ == m && dev.encodeExec(m, r.run[0].body) == Encoded(inputs)
      case WorkRequest(work) => r.run == [Alone(work)]
  {
    if DistinctSets(r.run) { EncodableComeFrom(dev, r.run); }
  }

  /** Every answer of a run, and every effect, is what came of the one request of the run. */
  lemma AnswersFit(dev: Device, found: Cells, r: RunRecord, i: nat)
    requires RunRight(dev, found, r) && i < |r.run|
    ensures Fits(dev, found, r, i)
  {
    var before := EffectAll(dev, found, r.run[..i], r.links[..i]);
    AskedFor(dev, r, i);
    AnswerOneFits(dev, before, r.run[i], r.links[i], r.asked);
    EffectOneFits(dev, before, r.run[i], r.links[i], r.asked);
    assert r.run[..i + 1][..i] == r.run[..i] && r.links[..i + 1][..i] == r.links[..i];
    if !r.cutOff { assert r.answers[i] == AnswerAt(dev, found, r.run, r.links, i); }
  }

  ghost predicate RunFits(dev: Device, found: Cells, r: RunRecord) {
    |r.links| == |r.answers| == |r.run| && forall i :: 0 <= i < |r.run| ==> Fits(dev, found, r, i)
  }

  /** The same over many runs, each from the server it found. */
  ghost predicate AllFit(dev: Device, initial: Cells, runs: seq<RunRecord>) {
    forall j :: 0 <= j < |runs| ==> RunFits(dev, CellsOf(dev, initial, runs[..j]), runs[j])
  }

  lemma {:induction false} RightAt(dev: Device, initial: Cells, runs: seq<RunRecord>, j: nat)
    requires RunsRight(dev, initial, runs) && j < |runs|
    ensures RunRight(dev, CellsOf(dev, initial, runs[..j]), runs[j])
  {
    var n := |runs| - 1;
    if j < n {
      RightAt(dev, initial, runs[..n], j);
      assert runs[..n][..j] == runs[..j] && runs[..n][j] == runs[j];
    }
  }

  lemma OneRunFits(dev: Device, found: Cells, r: RunRecord)
    requires RunRight(dev, found, r)
    ensures RunFits(dev, found, r)
  {
    forall i | 0 <= i < |r.run| ensures Fits(dev, found, r, i) { AnswersFit(dev, found, r, i); }
  }

  lemma RunsFit(dev: Device, initial: Cells, runs: seq<RunRecord>)
    requires RunsRight(dev, initial, runs)
    ensures AllFit(dev, initial, runs)
  {
    forall j | 0 <= j < |runs| ensures RunFits(dev, CellsOf(dev, initial, runs[..j]), runs[j]) {
      RightAt(dev, initial, runs, j);
      OneRunFits(dev, CellsOf(dev, initial, runs[..j]), runs[j]);
    }
  }

  /** Each Get has the value of its own node, or the request's failure. */
  ghost predicate GetsRead(dev: Device, cells: Cells, gets: seq<Command>, response: Response, values: seq<DataValue>)
    requires AllGets(gets) && |values| == |gets|
  {
    forall i :: 0 <= i < |gets| ==>
      match response
      case Done => values[i] == dev.read(gets[i].item, Look(cells, gets[i].item))
      case Broken(status) => values[i] == dev.badValue(status)
      case Cancelled => true
  }

  /** What a run of Gets leaves on record, from the one Read it made. */
  lemma GetsRecord(dev: Device, cells: Cells, gets: seq<Command>, response: Response, values: seq<DataValue>,
                   answers: seq<Answer>, count: nat) returns (r: RunRecord)
    requires AllGets(gets) && IsRun(gets) && |gets| == |values| == |answers| && count <= |gets|
    requires (response.Cancelled? ==> count == 0)
    requires forall i :: 0 <= i < |gets| ==> answers[i] == GetEvent(gets[i].item, values[i], gets[i].replyTo)
    requires GetsRead(dev, cells, gets, response, values)
    ensures r.run == gets && r.answers == answers && r.count == count && r.cutOff == response.Cancelled?
    ensures r.asked == [Exchange(ReadRequest(Nodes(gets)), response)]
    ensures r.Valid(dev) && cells == EffectAll(dev, cells, gets, r.links)
    ensures !r.cutOff ==> forall i :: 0 <= i < |gets| ==> answers[i] == AnswerAt(dev, cells, gets, r.links, i)
  {
    var link := if response.Done? then Served else Failed(if response.Broken? then response.status else 0, false);
    var links := seq(|gets|, _ => link);
    GetsChangeNothing(dev, cells, gets, links);
    r := RunRecord(gets, links, answers, count, response.Cancelled?, [Exchange(ReadRequest(Nodes(gets)), response)]);
  }

  /** What work served alone leaves on record; it sends its answer when it completes, and may have when it does not. */
  lemma AloneRecord(dev: Device, before: Cells, alone: Command, response: Response, ran: bool, answered: bool)
    returns (r: RunRecord)
    requires alone.Alone? && (response.Done? ==> ran && answered)
    ensures RunRight(dev, before, r) && r.run == [alone] && !r.Threw()
    ensures r.asked == [Exchange(WorkRequest(alone.work), response)]
    ensures r.Attempts() == if answered then [(Ran(alone.work), false)] else []
    ensures EffectAll(dev, before, r.run, r.links) == if ran then dev.work(before, alone.work) else before
    ensures r.cutOff == !answered && Fared(r, [alone], false, response.Cancelled?)
  {
    var link := if response.Done? then Served else Failed(if response.Broken? then response.status else 0, ran);
    AloneInRun(dev, before, alone, link);
    assert [alone][0].Alone?;
    r := RunRecord([alone], [link], [Ran(alone.work)], if answered then 1 else 0, !answered,
                   [Exchange(WorkRequest(alone.work), response)]);
    assert seq(1, i requires 0 <= i < 1 => (r.answers[i], false)) == [(Ran(alone.work), false)];
  }

  /** What one Write made of a run of Sets: every Set has its status, or the request's, or its own refusal. */
  ghost predicate SetsWritten(dev: Device, before: Cells, sets: seq<Command>, toWrite: seq<nat>,
                              values: seq<(NodeId, Variant)>,
                              response: Response, order: seq<nat>, results: seq<StatusCode>) {
    && IsSelection(dev, sets, toWrite, values)
    && IsOrder(order, |values|) && (response.Done? ==> IsComplete(order, |values|))
    && (values == [] ==> response == Done)
    && |results| == |sets|
    && (forall i :: 0 <= i < |sets| && i !in toWrite ==>
        dev.encodeSet(sets[i].item, sets[i].body) == Refused(results[i]))
    && (!response.Cancelled? ==> forall k :: 0 <= k < |toWrite| ==>
          results[toWrite[k]] == if response.Broken? then response.status
            else WriteStatus(dev, before, values[k].0, values[k].1))
  }

  lemma SetsRequested(dev: Device, sets: seq<Command>, toWrite: seq<nat>, values: seq<(NodeId, Variant)>,
                      response: Response, order: seq<nat>)
    requires DistinctSets(sets) && IsRun(sets) && values == Encodable(dev, sets) && (values == [] ==> response == Done)
    ensures Requested(dev, sets, SetLinks(|sets|, toWrite, response, order), if values
                      == [] then [] else [Exchange(WriteRequest(values), response)])
  {
    assert sets[0].Set? && !AllGets(sets);
  }

  /** What a run of Sets leaves on record, from the one Write it made, if it made one. */
  lemma SetsRecord(dev: Device, before: Cells, sets: seq<Command>, toWrite: seq<nat>, values: seq<(NodeId, Variant)>,
                   response: Response, order: seq<nat>, results: seq<StatusCode>, answers: seq<Answer>, count: nat)
                     returns (r: RunRecord)
    requires DistinctSets(sets) && IsRun(sets) && values == Encodable(dev, sets)
    requires SetsWritten(dev, before, sets, toWrite, values, response, order, results)
    requires |results| == |sets| == |answers| && count <= |sets| && (response.Cancelled? ==> count == 0)
    requires forall i :: 0 <= i < |sets| ==> answers[i] == SetStatus(sets[i].item, results[i], sets[i].replyTo)
    ensures RunRight(dev, before, r) && r.run == sets && r.answers == answers && r.count == count
    ensures r.cutOff == response.Cancelled?
    ensures r.asked == if values == [] then [] else [Exchange(WriteRequest(values), response)]
    ensures EffectAll(dev, before, r.run, r.links) == ApplyInOrder(dev, before, values, order)
  {
    OneWriteIsSetsInTurn(dev, before, sets, toWrite, values, response, order);
    if !response.Cancelled? { SetsAnswered(dev, before, sets, toWrite, values, response, order, results, answers); }
    SetsRequested(dev, sets, toWrite, values, response, order);
    r := RunRecord(sets, SetLinks(|sets|, toWrite, response, order), answers, count, response.Cancelled?,
                   if values == [] then [] else [Exchange(WriteRequest(values), response)]);
  }

  /** Something asked of the server was cut off by the shutdown. */
  predicate WasCancelled(asked: seq<Exchange>) {
    asked != [] && asked[0].response.Cancelled?
  }

  predicate IsFailedWork(r: RunRecord) {
    |r.run| == 1 && r.run[0].Alone? && r.asked != [] && r.asked[0].response.Broken?
  }

  /**
   How serving a run went: sending threw, or the shutdown cut it off, or it is answered -- or was work that failed.
   */
  ghost predicate Fared(r: RunRecord, run: seq<Command>, threw: bool, cancelled: bool) {
    && r.run == run && r.count <= |r.answers| && threw == r.Threw() && cancelled == WasCancelled(r.asked)
    && (r.cutOff ==> cancelled || IsFailedWork(r))
  }

  /** Every answer was sent; or it is work that failed, which need not have sent one. */
  predicate IsAnswered(r: RunRecord) {
    r.count == |r.answers| || IsFailedWork(r)
  }

  /**
   How some more runs went: whether sending threw in any, and whether the bridge shut down, as it does when it cuts one
   off, which is then the last. That one may have answers missing, and so may a run whose sending threw; every other is
   answered.
   */
  ghost predicate Went(before: seq<RunRecord>, after: seq<RunRecord>, threw: bool, shutDown: bool) {
    && before <= after
    && (threw <==> exists i :: |before| <= i < |after| && after[i].Threw())
    && (forall i :: |before| <= i < |after| && WasCancelled(after[i].asked) ==> shutDown)
    && (forall i :: |before| <= i < |after| ==>
          if WasCancelled(after[i].asked) then i == |after| - 1 else after[i].Threw() || IsAnswered(after[i]))
  }

  lemma WentOn(a: seq<RunRecord>, b: seq<RunRecord>, c: seq<RunRecord>, threw: bool, threwNext: bool, shutDown: bool)
    requires Went(a, b, threw, false) && Went(b, c, threwNext, shutDown)
    ensures Went(a, c, threw || threwNext, shutDown)
  {
    if threw {
      var i :| |a| <= i < |b| && b[i].Threw();
      assert c[i].Threw();
    }
    assert forall i :: |a| <= i < |b| ==> c[i] == b[i];
  }

  /** One more run has been served. */
  ghost predicate RanOnce(before: seq<RunRecord>, after: seq<RunRecord>, run: seq<Command>, threw: bool,
                          cancelled: bool)
  {
    && |after| == |before| + 1 && before <= after
    && IsRun(run) && Fared(after[|before|], run, threw, cancelled)
  }

  lemma RanOnceWent(before: seq<RunRecord>, after: seq<RunRecord>, run: seq<Command>, threw: bool, cancelled: bool)
    requires RanOnce(before, after, run, threw, cancelled)
    ensures Went(before, after, threw, cancelled) && CommandsOf(after) == CommandsOf(before) + run && run != []
  {
    CommandsNext(before, after);
    if threw { assert after[|before|].Threw(); }
  }

  lemma CommandsNext(before: seq<RunRecord>, after: seq<RunRecord>)
    requires |after| == |before| + 1 && before <= after
    ensures CommandsOf(after) == CommandsOf(before) + after[|before|].run
  {
    assert after[..|before|] == before;
  }

  // ------------------------------------------------------------------------------------------------------------
  // What went out

  /** The answers whose sending did not throw. */
  ghost function Successes(attempts: seq<(Answer, bool)>): seq<Answer> {
    if attempts == [] then []
    else
      var (answer, threw) := attempts[|attempts| - 1];
      Successes(attempts[..|attempts| - 1]) + if threw then [] else [answer]
  }

  ghost function Values(slots: seq<Option<Answer>>): seq<Answer> {
    if slots == [] then []
    else
      var last := slots[|slots| - 1];
      Values(slots[..|slots| - 1]) + if last.Some? then [last.value] else []
  }

  lemma {:induction false} SuccessesConcat(a: seq<(Answer, bool)>, b: seq<(Answer, bool)>)
    ensures Successes(a + b) == Successes(a) + Successes(b)
  {
    if b == [] {
      assert a + b == a;
    } else {
      assert (a + b)[..|a + b| - 1] == a + b[..|b| - 1];
      SuccessesConcat(a, b[..|b| - 1]);
    }
  }

  lemma {:induction false} ValuesConcat(a: seq<Option<Answer>>, b: seq<Option<Answer>>)
    ensures Values(a + b) == Values(a) + Values(b)
  {
    if b == [] {
      assert a + b == a;
    } else {
      assert (a + b)[..|a + b| - 1] == a + b[..|b| - 1];
      ValuesConcat(a, b[..|b| - 1]);
    }
  }

  lemma {:induction false} ValuesSent(answers: seq<Answer>, count: nat)
    requires count <= |answers|
    ensures Values(Sent(answers, count)) == answers[..count]
  {
    if answers != [] {
      var n := |answers| - 1;
      var fewer := if count > n then n else count;
      ValuesSent(answers[..n], fewer);
      assert Sent(answers, count)[..n] == Sent(answers[..n], fewer);
      assert answers[..n][..fewer] == answers[..fewer];
    }
  }

  lemma {:induction false} SuccessesSent(answers: seq<Answer>, count: nat)
    requires count <= |answers|
    ensures Successes(seq(count, i requires 0 <= i < count => (answers[i], false))) == answers[..count]
  {
    if count > 0 {
      SuccessesSent(answers, count - 1);
      var sends := seq(count, i requires 0 <= i < count => (answers[i], false));
      assert sends[..count - 1] == seq(count - 1, i requires 0 <= i < count - 1 => (answers[i], false));
    }
  }

  lemma RunSendsItsSlots(r: RunRecord)
    requires r.count <= |r.answers| && (r.cutOff ==> r.count == 0)
    ensures Successes(r.Attempts()) == Values(r.Slots())
  {
    ValuesSent(r.answers, r.count);
    if !r.cutOff {
      var sends := seq(r.count, i requires 0 <= i < r.count => (r.answers[i], false));
      var last := if r.count < |r.answers| then [(r.answers[r.count], true)] else [];
      SuccessesSent(r.answers, r.count);
      SuccessesConcat(sends, last);
      assert last[..|last| - |last|] == [] && Successes(last) == [];
      assert r.Attempts() == sends + last;
    }
  }

  /**
   What went out, in the order it went out, is one answer for each command that has one, in the order of the commands.
   */
  lemma {:induction false} SentOnceInOrder(dev: Device, runs: seq<RunRecord>)
    requires AllValid(dev, runs)
    ensures Successes(AttemptsOf(runs)) == Values(SlotsOf(runs))
  {
    if runs != [] {
      var earlier, r := runs[..|runs| - 1], runs[|runs| - 1];
      SentOnceInOrder(dev, earlier);
      assert r.Valid(dev);
      RunSendsItsSlots(r);
      SuccessesConcat(AttemptsOf(earlier), r.Attempts());
      ValuesConcat(SlotsOf(earlier), r.Slots());
    }
  }

  /** An answer is the first of its run that was not sent. */
  ghost predicate FirstUnsent(runs: seq<RunRecord>, answer: Answer) {
    exists j :: 0 <= j < |runs| && runs[j].Threw() && runs[j].answers[runs[j].count] == answer
  }

  /** An attempt that threw is of the first answer of its run that was not sent. */
  lemma {:induction false} ThrownIsFirstUnsent(dev: Device, runs: seq<RunRecord>, k: nat)
    requires AllValid(dev, runs) && k < |AttemptsOf(runs)| && AttemptsOf(runs)[k].1
    ensures FirstUnsent(runs, AttemptsOf(runs)[k].0)
  {
    var n := |runs| - 1;
    if k < |AttemptsOf(runs[..n])| {
      ThrownIsFirstUnsent(dev, runs[..n], k);
      var j :| 0 <= j < n && runs[..n][j].Threw()
        && runs[..n][j].answers[runs[..n][j].count] == AttemptsOf(runs[..n])[k].0;
      assert runs[j].Threw();
    } else {
      assert runs[n].Threw();
    }
  }

  lemma SlotIsWorked(dev: Device, r: RunRecord, j: nat)
    requires r.Valid(dev) && j < |r.Slots()| && r.Slots()[j].Some?
    ensures j < |r.Worked()| && r.Worked()[j] == r.Slots()[j]
  {}

  /** An answer sent is the one worked out, and so the one serving the commands one at a time gives. */
  lemma {:induction false} SlotsAreWorked(dev: Device, runs: seq<RunRecord>, i: nat)
    requires AllValid(dev, runs) && i < |SlotsOf(runs)| && SlotsOf(runs)[i].Some?
    ensures i < |WorkedOf(runs)| && WorkedOf(runs)[i] == SlotsOf(runs)[i]
  {
    var n := |runs| - 1;
    var slots, worked := SlotsOf(runs[..n]), WorkedOf(runs[..n]);
    assert SlotsOf(runs) == slots + runs[n].Slots() && WorkedOf(runs) == worked + runs[n].Worked();
    assert |slots| == |worked| by { Lengths(dev, runs[..n]); }
    if i < |slots| {
      SlotsAreWorked(dev, runs[..n], i);
    } else {
      assert runs[n].Valid(dev);
      SlotIsWorked(dev, runs[n], i - |slots|);
    }
  }

  // ------------------------------------------------------------------------------------------------------------
  // The executor

  class Executor {
    const server: Server
    const output: Output
    /** The queue; `upcoming` is what the transport will still add to it, at moments nobody can predict. */
    var pending: seq<Command>
    var upcoming: seq<Command>
    var held: Option<Command>
    /** Every run served so far. */
    ghost var runs: seq<RunRecord>
    ghost const initial: Cells
    ghost const askedBefore: seq<Exchange>
    ghost const attemptedBefore: seq<(Answer, bool)>

    constructor (server: Server, output: Output, upcoming: seq<Command>)
      ensures this.server == server && this.output == output && initial == server.cells && Backlog() == upcoming
      ensures askedBefore == server.log && attemptedBefore == output.attempts
      ensures runs == [] && Faithful()
    {
      this.server, this.output, this.upcoming, this.initial := server, output, upcoming, server.cells;
      askedBefore, attemptedBefore := server.log, output.attempts;
      pending, held, runs := [], None, [];
    }

    /** Every command not yet served, oldest first. */
    ghost function Backlog(): seq<Command>
      reads this`held, this`pending, this`upcoming
    {
      HeldOver(held) + (pending + upcoming)
    }

    /**
     The server, and every answer sent or tried since the executor began, are what serving the commands of its runs one
     at a time gives.
     */
    ghost predicate Faithful()
      reads this`runs, server, output
    {
      Tallies(server.device, initial, askedBefore, attemptedBefore, runs, server.cells, server.log, output.attempts)
    }

    /** Sends answers until one throws. */
    method Send(answers: seq<Answer>) returns (count: nat)
      modifies output
      ensures count <= |answers| && output.attempts == old(output.attempts) + Attempted(answers, count)
    {
      count := 0;
      var threw := false;
      while count < |answers| && !threw
        invariant count <= |answers| && (threw ==> count < |answers|)
        invariant output.attempts == old(output.attempts) + seq(count, i requires 0 <= i < count => (answers[i], false))
          + if threw then [(answers[count], true)] else []
        decreases |answers| - count, !threw
      {
        threw := output.Send(answers[count]);
        if !threw { count := count + 1; }
      }
    }

    /** Answers a run, unless it was cut off. */
    method SendUnless(cutOff: bool, answers: seq<Answer>) returns (count: nat)
      modifies output
      ensures count <= |answers| && (cutOff ==> count == 0)
      ensures output.attempts == old(output.attempts) + if cutOff then [] else Attempted(answers, count)
    {
      count := 0;
      if !cutOff { count := Send(answers); }
    }

    /** The transport may add commands at any moment; this is such a moment. */
    method Arrive(atLeast: nat)
      requires atLeast <= |upcoming|
      modifies this`pending, this`upcoming
      ensures pending + upcoming == old(pending + upcoming) && |pending| >= |old(pending)| + atLeast
    {
      var n: nat := *;
      if !(atLeast <= n <= |upcoming|) { n := atLeast; }
      assert upcoming == upcoming[..n] + upcoming[n..];
      pending, upcoming := pending + upcoming[..n], upcoming[n..];
    }

    method TryRead() returns (next: Option<Command>)
      modifies this`pending, this`upcoming
      ensures HeldOver(next) + (pending + upcoming) == old(pending + upcoming)
      ensures next.None? ==> pending == []
      ensures old(pending) != [] ==> next.Some?
    {
      Arrive(0);
      if pending == [] {
        next := None;
      } else {
        assert pending == [pending[0]] + pending[1..];
        next := Some(pending[0]);
        pending := pending[1..];
      }
    }

    /** Waits for a command; false once the queue is completed and empty, or on shutdown. */
    method WaitToRead() returns (more: bool)
      modifies this`pending, this`upcoming
      ensures pending + upcoming == old(pending + upcoming)
      ensures more ==> pending != []
    {
      more := *;
      if pending == [] && upcoming == [] {
        more := false;
      } else if more && pending == [] {
        Arrive(1);
      }
    }

    /** The longest run of Gets from the head of the queue; what ended it is held over. */
    method CollectGets(head: Command) returns (gets: seq<Command>)
      requires head.Get? && held == None
      modifies this`pending, this`upcoming, this`held
      ensures IsRun(gets) && AllGets(gets) && gets[0] == head
      ensures gets + Backlog() == [head] + old(Backlog())
      ensures held.Some? ==> !Joins(gets, held.value)
      ensures held.None? ==> |gets| == MAX_BATCH || pending == []
    {
      assert Backlog() == pending + upcoming;
      gets := [head];
      while |gets| < MAX_BATCH
        invariant held == None && 0 < |gets| <= MAX_BATCH && AllGets(gets) && gets[0] == head
        invariant gets + (pending + upcoming) == [head] + old(pending + upcoming)
        decreases MAX_BATCH - |gets|
      {
        var next := TryRead();
        assert gets + (HeldOver(next) + (pending + upcoming)) == gets + HeldOver(next) + (pending + upcoming);
        if next.None? { break; }
        if next.value.Get? {
          gets := gets + [next.value];
        } else {
          held := next;
          break;
        }
      }
      assert held.None? ==> Backlog() == pending + upcoming;
    }

    /** The longest run of Sets from the head of the queue in which no node repeats. */
    method CollectSets(head: Command) returns (sets: seq<Command>)
      requires head.Set? && held == None
      modifies this`pending, this`upcoming, this`held
      ensures IsRun(sets) && DistinctSets(sets) && sets[0] == head
      ensures sets + Backlog() == [head] + old(Backlog())
      ensures held.Some? ==> !Joins(sets, held.value)
      ensures held.None? ==> |sets| == MAX_BATCH || pending == []
    {
      assert Backlog() == pending + upcoming;
      sets := [head];
      var nodes: set<NodeId> := {head.item};
      while |sets| < MAX_BATCH
        invariant held == None && 0 < |sets| <= MAX_BATCH && DistinctSets(sets) && sets[0] == head
        invariant nodes == set command | command in sets :: command.item
        invariant sets + (pending + upcoming) == [head] + old(pending + upcoming)
        decreases MAX_BATCH - |sets|
      {
        var next := TryRead();
        assert sets + (HeldOver(next) + (pending + upcoming)) == sets + HeldOver(next) + (pending + upcoming);
        if next.None? { break; }
        if next.value.Set? && next.value.item !in nodes {
          nodes := nodes + {next.value.item};
          sets := sets + [next.value];
        } else {
          held := next;
          RunEnds(sets, next.value);
          break;
        }
      }
      assert held.None? ==> Backlog() == pending + upcoming;
    }

    /** One Read of the run's nodes; a failed one fails every Get alike. */
    method Read(gets: seq<Command>) returns (response: Response, values: seq<DataValue>)
      requires AllGets(gets)
      modifies server`log
      ensures server.log == old(server.log) + [Exchange(ReadRequest(Nodes(gets)), response)]
      ensures |values| == |gets| && GetsRead(server.device, server.cells, gets, response, values)
    {
      response, values := server.Read(Nodes(gets));
      if !response.Done? {
        var status: StatusCode := if response.Broken? then response.status else 0;
        values := seq(|gets|, _ => server.device.badValue(status));
      }
    }

    method ServeGets(gets: seq<Command>) returns (threw: bool, cancelled: bool)
      requires AllGets(gets) && IsRun(gets) && Faithful()
      modifies this`runs, server, output
      ensures Faithful() && RanOnce(old(runs), runs, gets, threw, cancelled)
    {
      ghost var before, asks, attempts := server.cells, server.log, output.attempts;
      var response, values := Read(gets);
      cancelled := response.Cancelled?;
      var answers := seq(|gets|, i requires 0 <= i < |gets| => GetEvent(gets[i].item, values[i], gets[i].replyTo));
      var count := SendUnless(cancelled, answers);
      ghost var r := GetsRecord(server.device, before, gets, response, values, answers, count);
      TalliesOn(server.device, initial, askedBefore, attemptedBefore, runs, before, asks, attempts, r, server.cells);
      runs := runs + [r];
      threw := !cancelled && count < |gets|;
    }

    /** The encodable Sets of a run, as one Write's values, with every other Set's refusal. */
    method EncodeSets(sets: seq<Command>)
      returns (results: seq<StatusCode>, toWrite: seq<nat>, values: seq<(NodeId, Variant)>)
      requires forall i :: 0 <= i < |sets| ==> sets[i].Set?
      ensures IsSelection(server.device, sets, toWrite, values) && values == Encodable(server.device, sets)
      ensures |results| == |sets|
      ensures forall i :: 0 <= i < |sets| && i !in toWrite ==>
        server.device.encodeSet(sets[i].item, sets[i].body) == Refused(results[i])
    {
      results, toWrite, values := [], [], [];
      for i := 0 to |sets|
        invariant EncodedTo(server.device, sets, i, results, toWrite, values)
      {
        EncodedNext(server.device, sets, i, results, toWrite, values);
        match server.device.encodeSet(sets[i].item, sets[i].body) {
          case Refused(status) =>
            results := results + [status];
          case Encoded(value) =>
            results, toWrite, values := results + [0], toWrite + [i], values + [(sets[i].item, value)];
        }
      }
      assert sets[..|sets|] == sets;
    }

    /** Writes the values there are, in one request; a failed one fails them all. */
    method Write(sets: seq<Command>, toWrite: seq<nat>, values: seq<(NodeId, Variant)>, refusals: seq<StatusCode>)
      returns (response: Response, results: seq<StatusCode>, ghost order: seq<nat>)
      requires DistinctSets(sets) && IsSelection(server.device, sets, toWrite, values) && |refusals| == |sets|
      requires forall i :: 0 <= i < |sets| && i !in toWrite ==>
        server.device.encodeSet(sets[i].item, sets[i].body) == Refused(refusals[i])
      modifies server
      ensures SetsWritten(server.device, old(server.cells), sets, toWrite, values, response, order, results)
      ensures server.cells == ApplyInOrder(server.device, old(server.cells), values, order)
      ensures server.log == old(server.log) + if values == [] then [] else [Exchange(WriteRequest(values), response)]
    {
      SelectionDistinct(server.device, sets, toWrite, values);
      response, results, order := Done, refusals, [];
      if |values| > 0 {
        var statuses;
        response, statuses, order := server.Write(values);
        if response.Broken? { statuses := seq(|values|, _ => response.status); }
        CompleteStatuses(server.device, old(server.cells), values, order, statuses, response);
        results := Scatter(refusals, toWrite, statuses);
      }
    }

    method ServeSets(sets: seq<Command>) returns (threw: bool, cancelled: bool)
      requires DistinctSets(sets) && IsRun(sets) && Faithful()
      modifies this`runs, server, output
      ensures Faithful() && RanOnce(old(runs), runs, sets, threw, cancelled)
    {
      ghost var before, asks, attempts := server.cells, server.log, output.attempts;
      var refusals, toWrite, values := EncodeSets(sets);
      var response, results;
      ghost var order;
      response, results, order := Write(sets, toWrite, values, refusals);
      cancelled := response.Cancelled?;
      var answers := seq(|sets|, i requires 0 <= i < |sets| => SetStatus(sets[i].item, results[i], sets[i].replyTo));
      var count := SendUnless(cancelled, answers);
      ghost var r := SetsRecord(server.device, before, sets, toWrite, values, response, order, results, answers, count);
      TalliesOn(server.device, initial, askedBefore, attemptedBefore, runs, before, asks, attempts, r, server.cells);
      runs := runs + [r];
      threw := !cancelled && count < |sets|;
    }

    /** Calls the method, if the inputs can be encoded. */
    method Call(exec: Command)
      returns (cancelled: bool, result: CallResult, ghost link: Link, ghost asked: seq<Exchange>)
      requires exec.Exec?
      modifies server
      ensures server.cells == EffectOne(server.device, old(server.cells), exec, link)
      ensures !cancelled ==>
        ExecResult(exec.method_, result, exec.replyTo) == AnswerOne(server.device, old(server.cells), exec, link)
      ensures Requested(server.device, [exec], [link], asked) && server.log == old(server.log) + asked
      ensures cancelled <==> WasCancelled(asked)
      ensures !cancelled ==>
        AnswerFits(server.device, old(server.cells), exec, asked, ExecResult(exec.method_, result, exec.replyTo))
    {
      assert [exec][0] == exec;
      cancelled, link, asked := false, Served, [];
      match server.device.encodeExec(exec.method_, exec.body) {
        case Refused(status) =>
          result := server.device.refusedCall(status);
        case Encoded(inputs) =>
          ghost var ran;
          var response;
          response, result, ran := server.Call(exec.method_, inputs);
          cancelled := response.Cancelled?;
          if response.Broken? { result := server.device.failedCall(response.status); }
          link := if response.Done? then Served else Failed(if response.Broken? then response.status else 0, ran);
          asked := [Exchange(CallRequest(exec.method_, inputs), response)];
      }
    }

    method ServeExec(exec: Command) returns (threw: bool, cancelled: bool)
      requires exec.Exec? && Faithful()
      modifies this`runs, server, output
      ensures Faithful() && RanOnce(old(runs), runs, [exec], threw, cancelled)
    {
      ghost var before, asks, attempts := server.cells, server.log, output.attempts;
      var result;
      ghost var link, asked;
      cancelled, result, link, asked := Call(exec);
      var answers := [ExecResult(exec.method_, result, exec.replyTo)];
      var count := SendUnless(cancelled, answers);
      ghost var r := RunRecord([exec], [link], answers, count, cancelled, asked);
      AloneInRun(server.device, before, exec, link);
      TalliesOn(server.device, initial, askedBefore, attemptedBefore, runs, before, asks, attempts, r, server.cells);
      runs := runs + [r];
      threw := !cancelled && count < 1;
    }

    /** Waits for the work, which answers for itself; when it does not complete, it may have answered or not. */
    method Do(alone: Command) returns (response: Response, ghost ran: bool, ghost answered: bool)
      requires alone.Alone?
      modifies server, output
      ensures server.log == old(server.log) + [Exchange(WorkRequest(alone.work), response)]
      ensures server.cells == if ran then server.device.work(old(server.cells), alone.work) else old(server.cells)
      ensures response.Done? ==> ran && answered
      ensures output.attempts == old(output.attempts) + if answered then [(Ran(alone.work), false)] else []
    {
      response, ran := server.Do(alone.work);
      var answers: bool := *;
      answered := answers || response.Done?;
      if answers || response.Done? { output.attempts := output.attempts + [(Ran(alone.work), false)]; }
    }

    /** Work that fails stops nothing behind it; only the bridge's own shutdown ends the reader's turns. */
    method RunAlone(alone: Command) returns (threw: bool, cancelled: bool)
      requires alone.Alone? && Faithful()
      modifies this`runs, server, output
      ensures Faithful() && RanOnce(old(runs), runs, [alone], threw, cancelled) && !threw
    {
      ghost var before, asks, attempts := server.cells, server.log, output.attempts;
      var response;
      ghost var ran, answered;
      response, ran, answered := Do(alone);
      threw, cancelled := false, response.Cancelled?;
      ghost var r := AloneRecord(server.device, before, alone, response, ran, answered);
      TalliesOn(server.device, initial, askedBefore, attemptedBefore, runs, before, asks, attempts, r, server.cells);
      runs := runs + [r];
    }

    /**
     Serves the run starting at `head`: exactly the next commands of the backlog, as many as may share a request,
     and only their own answers are lost when sending one throws.
     */
    method ServeRun(head: Command) returns (ghost run: seq<Command>, threw: bool, cancelled: bool)
      requires held == None && Faithful()
      modifies this, server, output
      ensures Faithful() && RanOnce(old(runs), runs, run, threw, cancelled)
      ensures run + Backlog() == [head] + old(Backlog())
      ensures held.Some? ==> !Joins(run, held.value)
      ensures held.None? && !head.Exec? && !head.Alone? ==> |run| == MAX_BATCH || pending == []
    {
      match head {
        case Get(_, _) =>
          var gets := CollectGets(head);
          run := gets;
          threw, cancelled := ServeGets(gets);
        case Set(_, _, _) =>
          var sets := CollectSets(head);
          run := sets;
          threw, cancelled := ServeSets(sets);
        case Exec(_, _, _) =>
          run := [head];
          threw, cancelled := ServeExec(head);
        case Alone(_) =>
          run := [head];
          threw, cancelled := RunAlone(head);
      }
    }

    /** Takes the next command, from the one held over or else from the queue. */
    method NextHead() returns (head: Option<Command>)
      modifies this`pending, this`upcoming, this`held
      ensures held == None && HeldOver(head) + Backlog() == old(Backlog())
    {
      head := held;
      held := None;
      if head.None? {
        var more := WaitToRead();
        assert Backlog() == pending + upcoming;
        if more { head := TryRead(); }
        assert Backlog() == pending + upcoming;
      }
    }

    /** One turn of the reader: the next run, or the end of the queue, or the shutdown. */
    method ServeNext() returns (threw: bool, shutDown: bool)
      requires Faithful()
      modifies this, server, output
      ensures Faithful() && Went(old(runs), runs, threw, shutDown)
      ensures CommandsOf(runs) + Backlog() == old(CommandsOf(runs) + Backlog())
      ensures |Backlog()| <= |old(Backlog())| && (shutDown || |Backlog()| < |old(Backlog())| || Backlog() == [])
    {
      threw, shutDown := false, false;
      var head := NextHead();
      if head.None? {
        shutDown := pending + upcoming != [];
      } else {
        ghost var run;
        run, threw, shutDown := ServeRun(head.value);
        RanOnceWent(old(runs), runs, run, threw, shutDown);
        Joined(CommandsOf(old(runs)), run, Backlog());
      }
    }

    /**
     Serves the queue until it is completed or the bridge shuts down. Whatever happened on the way, the commands served
     are the oldest ones in arrival order, the rest are still waiting, and the server, all that was asked of it and
     every attempt to send are those of serving them one at a time: what went out is, in order, one answer for each
     command that has one, and each says what came of the request its run made. With no throw and no shutdown every
     command was served and answered, but for work that failed.
     */
    method Run() returns (threw: bool, shutDown: bool)
      requires Faithful()
      modifies this, server, output
      ensures Faithful() && Went(old(runs), runs, threw, shutDown)
      ensures CommandsOf(runs) + Backlog() == old(CommandsOf(runs) + Backlog())
      ensures !shutDown ==> Backlog() == []
      ensures var attempts := output.attempts[|attemptedBefore|..];
        && Successes(attempts) == Values(SlotsOf(runs))
        && forall k :: 0 <= k < |attempts| && attempts[k].1 ==> FirstUnsent(runs, attempts[k].0)
      ensures OneAtATime() && AllFit(server.device, initial, runs)
    {
      threw, shutDown := ServeAll();
      assert output.attempts[|attemptedBefore|..] == AttemptsOf(runs);
      RightIsValid(server.device, initial, runs);
      SentOnceInOrder(server.device, runs);
      forall k | 0 <= k < |AttemptsOf(runs)| && AttemptsOf(runs)[k].1 ensures FirstUnsent(runs, AttemptsOf(runs)[k].0) {
        ThrownIsFirstUnsent(server.device, runs, k);
      }
      SentOneAtATime();
      RunsFit(server.device, initial, runs);
    }

    method ServeAll() returns (threw: bool, shutDown: bool)
      requires Faithful()
      modifies this, server, output
      ensures Faithful() && Went(old(runs), runs, threw, shutDown)
      ensures CommandsOf(runs) + Backlog() == old(CommandsOf(runs) + Backlog())
      ensures !shutDown ==> Backlog() == []
    {
      threw, shutDown := false, false;
      while !shutDown && (held.Some? || pending + upcoming != [])
        invariant Faithful() && Went(old(runs), runs, threw, shutDown)
        invariant CommandsOf(runs) + Backlog() == old(CommandsOf(runs) + Backlog())
        decreases |Backlog()|, !shutDown
      {
        var runThrew;
        ghost var before := runs;
        runThrew, shutDown := ServeNext();
        WentOn(old(runs), before, runs, threw, runThrew, shutDown);
        threw := threw || runThrew;
      }
    }

    /** Every answer sent is the one its command gets when all are served one at a time. */
    ghost predicate OneAtATime()
      reads this`runs, server
    {
      && |CommandsOf(runs)| == |LinksOf(runs)| == |SlotsOf(runs)|
      && server.cells == EffectAll(server.device, initial, CommandsOf(runs), LinksOf(runs))
      && forall i :: 0 <= i < |SlotsOf(runs)| && SlotsOf(runs)[i].Some? ==>
           SlotsOf(runs)[i].value == AnswerAt(server.device, initial, CommandsOf(runs), LinksOf(runs), i)
    }

    lemma SentOneAtATime()
      requires Faithful()
      ensures OneAtATime()
    {
      RightIsValid(server.device, initial, runs);
      RunsAreCommandsInTurn(server.device, initial, runs);
      Lengths(server.device, runs);
      forall i | 0 <= i < |SlotsOf(runs)| && SlotsOf(runs)[i].Some?
        ensures SlotsOf(runs)[i].value == AnswerAt(server.device, initial, CommandsOf(runs), LinksOf(runs), i)
      {
        SlotsAreWorked(server.device, runs, i);
      }
    }
  }
}
