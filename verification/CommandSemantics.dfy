/**
 The commands the executor serves, the server they are served against, and what serving a sequence of them one
 at a time means. Nothing in this module knows about batches: it is the reference the executor is compared with.
 */
module CommandSemantics {
  import opened Options
  import opened Sequences

  type NodeId = nat
  type MethodRef = nat
  type Body = seq<int>
  type ReplyTo = nat
  type Cell = int
  type Variant = int
  type DataValue = int
  type CallResult = int

  /** An OPC UA status code, a 32-bit number. */
  type StatusCode = n: int | 0 <= n < 0x1_0000_0000

  /** The values held by the server's nodes; a node that is absent does not exist. */
  type Cells = map<NodeId, Cell>

  function Look(cells: Cells, node: NodeId): Option<Cell> {
    if node in cells then Some(cells[node]) else None
  }

  datatype Encoded = Refused(status: StatusCode) | Encoded(value: Variant)

  /**
   What the executor cannot see into. A write's result and effect depend on its own node alone; a call, and work served
   alone, may read and change everything. `write` returns the node's new content, or None when it changes nothing.
   */
  datatype Device = Device(
    read: (NodeId, Option<Cell>) -> DataValue,
    badValue: StatusCode -> DataValue,
    write: (NodeId, Option<Cell>, Variant) -> (StatusCode, Option<Cell>),
    call: (Cells, MethodRef, Variant) -> (Cells, CallResult),
    work: (Cells, nat) -> Cells,
    failedCall: StatusCode -> CallResult,
    refusedCall: StatusCode -> CallResult,
    encodeSet: (NodeId, Body) -> Encoded,
    encodeExec: (MethodRef, Body) -> Encoded)

  datatype Command =
    | Get(item: NodeId, replyTo: ReplyTo)
    | Set(item: NodeId, body: Body, replyTo: ReplyTo)
    | Exec(method_: MethodRef, body: Body, replyTo: ReplyTo)
    /** A Monitor or Delete, or a refusal: whatever it is, it is waited for, and sends its own answer. */
    | Alone(work: nat)

  datatype Answer =
    | GetEvent(item: NodeId, value: DataValue, replyTo: ReplyTo)
    | SetStatus(item: NodeId, status: StatusCode, replyTo: ReplyTo)
    | ExecResult(method_: MethodRef, result: CallResult, replyTo: ReplyTo)
    | Ran(work: nat)

  /**
   How the request serving one command fared. A failed request may still have reached the server: `reached` says
   whether this command took effect before the connection failed.
   */
  datatype Link = Served | Failed(status: StatusCode, reached: bool)

  function WriteOne(dev: Device, cells: Cells, node: NodeId, value: Variant): Cells {
    match dev.write(node, Look(cells, node), value).1
    case None => cells
    case Some(cell) => cells[node := cell]
  }

  function WriteStatus(dev: Device, cells: Cells, node: NodeId, value: Variant): StatusCode {
    dev.write(node, Look(cells, node), value).0
  }

  function AnswerOne(dev: Device, cells: Cells, command: Command, link: Link): Answer {
    match command
    case Get(item, replyTo) =>
      GetEvent(item, if link.Served? then dev.read(item, Look(cells, item)) else dev.badValue(link.status), replyTo)
    case Set(item, body, replyTo) =>
      SetStatus(item,
                match dev.encodeSet(item, body)
                case Refused(status) => status
                case Encoded(value) => if link.Served? then WriteStatus(dev, cells, item, value) else link.status,
                replyTo)
    case Exec(m, body, replyTo) =>
      ExecResult(m,
                 match dev.encodeExec(m, body)
                 case Refused(status) => dev.refusedCall(status)
                 case Encoded(inputs) =>
                   if link.Served? then dev.call(cells, m, inputs).1 else dev.failedCall(link.status),
                 replyTo)
    case Alone(work) => Ran(work)
  }

  function EffectOne(dev: Device, cells: Cells, command: Command, link: Link): Cells {
    if link.Failed? && !link.reached then cells else
    match command
    case Set(item, body, _) =>
      (match dev.encodeSet(item, body)
       case Refused(_) => cells
       case Encoded(value) => WriteOne(dev, cells, item, value))
    case Exec(m, body, _) =>
      (match dev.encodeExec(m, body)
       case Refused(_) => cells
       case Encoded(inputs) => dev.call(cells, m, inputs).0)
    case Alone(work) => dev.work(cells, work)
    case Get(_, _) => cells
  }

  /** The server after serving the commands one at a time, each seeing the effects of those before it. */
  function EffectAll(dev: Device, cells: Cells, commands: seq<Command>, links: seq<Link>): Cells
    requires |links| == |commands|
  {
    if commands == [] then cells
    else
      var n := |commands| - 1;
      EffectOne(dev, EffectAll(dev, cells, commands[..n], links[..n]), commands[n], links[n])
  }

  /** The answer to command `i` from the server that the commands before it, each served alone, leave behind. */
  function AnswerAt(dev: Device, cells: Cells, commands: seq<Command>, links: seq<Link>, i: nat): Answer
    requires |links| == |commands| && i < |commands|
  {
    AnswerOne(dev, EffectAll(dev, cells, commands[..i], links[..i]), commands[i], links[i])
  }

  /** Serving one sequence after another is serving their concatenation. */
  lemma {:induction false} EffectAllConcat(dev: Device, cells: Cells, a: seq<Command>, la: seq<Link>, b: seq<Command>,
                                           lb: seq<Link>)
    requires |a| == |la| && |b| == |lb|
    ensures EffectAll(dev, cells, a + b, la + lb) == EffectAll(dev, EffectAll(dev, cells, a, la), b, lb)
  {
    if b == [] {
      assert a + b == a && la + lb == la;
    } else {
      var n := |b| - 1;
      EffectAllConcat(dev, cells, a, la, b[..n], lb[..n]);
      assert (a + b)[..|a| + n] == a + b[..n];
      assert (la + lb)[..|a| + n] == la + lb[..n];
    }
  }

  /** Answers to a later sequence are those it gets from the server the earlier one left behind. */
  lemma AnswerAtConcat(dev: Device, cells: Cells, a: seq<Command>, la: seq<Link>, b: seq<Command>, lb: seq<Link>,
                       i: nat)
    requires |a| == |la| && |b| == |lb| && i < |a| + |b|
    ensures AnswerAt(dev, cells, a + b, la + lb, i) ==
            if i < |a| then AnswerAt(dev, cells, a, la, i)
            else AnswerAt(dev, EffectAll(dev, cells, a, la), b, lb, i - |a|)
  {
    if i < |a| {
      assert (a + b)[..i] == a[..i] && (la + lb)[..i] == la[..i];
    } else {
      var k := i - |a|;
      assert (a + b)[..i] == a + b[..k] && (la + lb)[..i] == la + lb[..k];
      EffectAllConcat(dev, cells, a, la, b[..k], lb[..k]);
    }
  }

  // ------------------------------------------------------------------------------------------------------------
  // Writes to distinct nodes

  /** `after` is `before` with each node of `writes` written once, starting from its own content in `before`. */
  ghost predicate Overlaid(dev: Device, before: Cells, writes: map<NodeId, Variant>, after: Cells) {
    forall node: NodeId :: Look(after, node) ==
      if node in writes then Look(WriteOne(dev, before, node, writes[node]), node) else Look(before, node)
  }

  lemma OverlaidUnique(dev: Device, before: Cells, writes: map<NodeId, Variant>, x: Cells, y: Cells)
    requires Overlaid(dev, before, writes, x) && Overlaid(dev, before, writes, y)
    ensures x == y
  {
    forall node: NodeId ensures Look(x, node) == Look(y, node) {}
    forall node: NodeId ensures node in x <==> node in y {
      assert Look(x, node) == Look(y, node);
    }
    forall node | node in x ensures x[node] == y[node] {
      assert Look(x, node) == Look(y, node);
    }
  }

  lemma OverlaidExtend(dev: Device, before: Cells, writes: map<NodeId, Variant>, after: Cells, node: NodeId,
                       value: Variant)
    requires Overlaid(dev, before, writes, after) && node !in writes
    ensures Overlaid(dev, before, writes[node := value], WriteOne(dev, after, node, value))
    ensures Look(after, node) == Look(before, node)
  {
    assert Look(after, node) == Look(before, node);
    var final := WriteOne(dev, after, node, value);
    forall other: NodeId
      ensures Look(final, other) ==
              if other in writes[node := value] then
                Look(WriteOne(dev, before, other, writes[node := value][other]), other)
              else Look(before, other)
    {
      if other != node {
        assert Look(final, other) == Look(after, other);
      }
    }
  }

  /** Indices into a request's values, in the order the server gets to them. */
  predicate IsOrder(order: seq<nat>, n: nat) {
    Distinct(order) && forall k :: 0 <= k < |order| ==> order[k] < n
  }

  /** The server applies some of a request's values in the order it likes. */
  function ApplyInOrder(dev: Device, cells: Cells, values: seq<(NodeId, Variant)>, order: seq<nat>): Cells
    requires forall k :: 0 <= k < |order| ==> order[k] < |values|
  {
    if order == [] then cells
    else
      var n := |order| - 1;
      var (node, value) := values[order[n]];
      WriteOne(dev, ApplyInOrder(dev, cells, values, order[..n]), node, value)
  }

  ghost predicate DistinctNodes(values: seq<(NodeId, Variant)>) {
    forall i, j :: 0 <= i < j < |values| ==> values[i].0 != values[j].0
  }

  ghost function WritesOf(values: seq<(NodeId, Variant)>, order: seq<nat>): map<NodeId, Variant>
    requires forall k :: 0 <= k < |order| ==> order[k] < |values|
  {
    if order == [] then map[]
    else
      var n := |order| - 1;
      WritesOf(values, order[..n])[values[order[n]].0 := values[order[n]].1]
  }

  lemma {:induction false} WritesOfContent(values: seq<(NodeId, Variant)>, order: seq<nat>)
    requires DistinctNodes(values) && IsOrder(order, |values|)
    ensures forall i :: 0 <= i < |values| ==> (values[i].0 in WritesOf(values, order) <==> i in order)
    ensures forall i :: 0 <= i < |values| && i in order ==> WritesOf(values, order)[values[i].0] == values[i].1
    ensures forall node :: node in WritesOf(values, order) ==> exists i :: 0 <= i < |values| && values[i].0 == node
  {
    if order != [] {
      var n := |order| - 1;
      var fewer := order[..n];
      WritesOfContent(values, fewer);
      assert order == fewer + [order[n]];
      forall i | 0 <= i < |values|
        ensures values[i].0 in WritesOf(values, order) <==> i in order
        ensures i in order ==> WritesOf(values, order)[values[i].0] == values[i].1
      {
        assert i in order <==> i in fewer || i == order[n];
        assert i != order[n] ==> values[i].0 != values[order[n]].0;
      }
    }
  }

  /** Applying values with distinct nodes in any order writes each node once, from its own original content. */
  lemma {:induction false} ApplyInOrderOverlays(dev: Device, cells: Cells, values: seq<(NodeId, Variant)>,
                                                order: seq<nat>)
    requires DistinctNodes(values) && IsOrder(order, |values|)
    ensures Overlaid(dev, cells, WritesOf(values, order), ApplyInOrder(dev, cells, values, order))
  {
    if order != [] {
      var n := |order| - 1;
      ApplyInOrderOverlays(dev, cells, values, order[..n]);
      WritesOfContent(values, order[..n]);
      assert order[n] !in order[..n];
      OverlaidExtend(dev, cells, WritesOf(values, order[..n]), ApplyInOrder(dev, cells, values, order[..n]),
                     values[order[n]].0, values[order[n]].1);
    }
  }
}
