/**
 Discovery: a breadth-first walk of the server's reference graph in batches, each batch's answers coming in pages
 behind continuation points. The walk ends, finds each reachable variable once, and finds exactly the methods that
 reachable objects refer to.
 */
module Discovery {
  import opened Options
  import opened Sequences

  type NodeId = int

  const OBJECTS_FOLDER: NodeId := 85
  const BATCH_SIZE: nat := 100

  datatype NodeClass = Object | Variable | Method_ | Other

  /** A reference's target: a node of another server, no node, or a node of this one. */
  datatype Target = Absolute | Null | Local(id: NodeId)

  datatype Reference = Reference(target: Target, nodeClass: NodeClass)

  /** One part of what the server answers about one node. */
  datatype Page = Good(references: seq<Reference>) | Bad

  /** What the server hands out to be asked for more with; nothing here looks inside one. */
  datatype ContinuationPoint = ContinuationPoint(node: NodeId, page: nat)

  datatype BrowseResult = BrowseResult(isBad: bool, references: seq<Reference>,
                                       continuationPoint: Option<ContinuationPoint>)

  /** A server: what it has to say about each of its nodes, and how it splits that into pages. */
  datatype Server = Server(pages: map<NodeId, seq<Page>>) {
    function Answer(node: NodeId, page: nat): BrowseResult {
      if node !in pages || page >= |pages[node]| || pages[node][page].Bad? then BrowseResult(true, [], None)
      else BrowseResult(false, pages[node][page].references,
                        if page + 1 < |pages[node]| then Some(ContinuationPoint(node, page + 1)) else None)
    }

    function Browse(nodes: seq<NodeId>): seq<BrowseResult> {
      seq(|nodes|, i requires 0 <= i < |nodes| => Answer(nodes[i], 0))
    }

    function BrowseNext(points: seq<ContinuationPoint>): seq<BrowseResult> {
      seq(|points|, i requires 0 <= i < |points| => Answer(points[i].node, points[i].page))
    }

    /** The references of one node the server delivers, from a page on: all up to the first refused page. */
    ghost function Delivered(node: NodeId, from: nat): seq<Reference>
      decreases if node in pages then |pages[node]| - from else 0
    {
      if node !in pages || from >= |pages[node]| || pages[node][from].Bad? then []
      else pages[node][from].references + Delivered(node, from + 1)
    }

    /** Every reference names the class its target has; the folder the walk starts at is an object. */
    ghost predicate Consistent(classes: NodeId -> NodeClass) {
      && classes(OBJECTS_FOLDER) == Object
      && forall node, reference :: node in pages && reference in Delivered(node, 0) && reference.target.Local? ==>
           reference.nodeClass == classes(reference.target.id)
    }

    /** One node refers to another as being of a class. */
    ghost predicate LeadsAs(source: NodeId, to: NodeId, nodeClass: NodeClass) {
      Reference(Local(to), nodeClass) in Delivered(source, 0) && nodeClass != Method_
    }

    /** One node leads to another: methods are not walked into. */
    ghost predicate Leads(source: NodeId, to: NodeId) {
      exists nodeClass :: LeadsAs(source, to, nodeClass)
    }

    /** Some reference the walk comes by says that a node is of a class. */
    ghost predicate IsNamed(node: NodeId, nodeClass: NodeClass) {
      exists source :: Reachable(source) && LeadsAs(source, node, nodeClass)
    }

    ghost predicate IsWalk(walk: seq<NodeId>) {
      && walk != [] && walk[0] == OBJECTS_FOLDER
      && forall i :: 0 <= i < |walk| - 1 ==> Leads(walk[i], walk[i + 1])
    }

    ghost predicate WalkTo(walk: seq<NodeId>, node: NodeId) {
      IsWalk(walk) && walk[|walk| - 1] == node
    }

    ghost predicate Reachable(node: NodeId) {
      exists walk :: WalkTo(walk, node)
    }

    /** Some reference to a node that is met makes it one of a class; the node the walk starts at is an object. */
    ghost predicate MayBe(node: NodeId, nodeClass: NodeClass) {
      Reachable(node) && if node == OBJECTS_FOLDER then nodeClass == Object else IsNamed(node, nodeClass)
    }

    /** Every reference to a node that is met makes it one of that class. */
    ghost predicate MustBe(node: NodeId, nodeClass: NodeClass) {
      Reachable(node) && forall other {:trigger MayBe(node, other)} :: MayBe(node, other) ==> other == nodeClass
    }

    ghost predicate HasMethod(object_: NodeId, method_: NodeId) {
      Reference(Local(method_), Method_) in Delivered(object_, 0)
    }

    /** Every node any page mentions. */
    ghost function Mentioned(): set<NodeId> {
      {OBJECTS_FOLDER} + set node, page, reference |
        node in pages && page in pages[node] && page.Good? && reference in page.references
          && reference.target.Local? :: reference.target.id
    }
  }

  lemma {:induction false} DeliveredIsMentioned(server: Server, node: NodeId, from: nat, reference: Reference)
    requires reference in server.Delivered(node, from) && reference.target.Local?
    ensures reference.target.id in server.Mentioned()
    decreases if node in server.pages then |server.pages[node]| - from else 0
  {
    if reference in server.pages[node][from].references {
      assert server.pages[node][from] in server.pages[node];
    } else {
      DeliveredIsMentioned(server, node, from + 1, reference);
    }
  }

  lemma RootReachable(server: Server)
    ensures server.Reachable(OBJECTS_FOLDER)
  {
    assert server.WalkTo([OBJECTS_FOLDER], OBJECTS_FOLDER);
  }

  lemma ReachFurther(server: Server, source: NodeId, to: NodeId)
    requires server.Reachable(source) && server.Leads(source, to)
    ensures server.Reachable(to)
  {
    var walk :| server.WalkTo(walk, source);
    assert server.WalkTo(walk + [to], to);
  }

  /** A set that holds the start, and with a node all it leads to, holds everything reachable. */
  lemma {:induction false} ClosedHoldsWalk(server: Server, nodes: set<NodeId>, walk: seq<NodeId>, i: nat)
    requires OBJECTS_FOLDER in nodes && server.IsWalk(walk) && i < |walk|
    requires forall source, to :: source in nodes && server.Leads(source, to) ==> to in nodes
    ensures walk[i] in nodes
  {
    if i > 0 {
      ClosedHoldsWalk(server, nodes, walk, i - 1);
      assert server.Leads(walk[i - 1], walk[i - 1 + 1]);
    }
  }

  // ------------------------------------------------------------------------------------------------------------
  // One batch

  datatype Found = Found(source: NodeId, reference: Reference)

  /** What was found on one node, in the order it was found. */
  ghost function FoundOn(found: seq<Found>, node: NodeId): seq<Reference> {
    if found == [] then []
    else
      var last := found[|found| - 1];
      FoundOn(found[..|found| - 1], node) + if last.source == node then [last.reference] else []
  }

  lemma {:induction false} FoundOnHas(found: seq<Found>, node: NodeId, reference: Reference)
    ensures reference in FoundOn(found, node) <==> Found(node, reference) in found
  {
    if found != [] {
      FoundOnHas(found[..|found| - 1], node, reference);
      assert found == found[..|found| - 1] + [found[|found| - 1]];
    }
  }

  lemma {:induction false} FoundOnConcat(a: seq<Found>, b: seq<Found>, node: NodeId)
    ensures FoundOn(a + b, node) == FoundOn(a, node) + FoundOn(b, node)
  {
    if b == [] {
      assert a + b == a;
    } else {
      assert (a + b)[..|a + b| - 1] == a + b[..|b| - 1];
      FoundOnConcat(a, b[..|b| - 1], node);
    }
  }

  function Paired(source: NodeId, references: seq<Reference>): seq<Found> {
    seq(|references|, i requires 0 <= i < |references| => Found(source, references[i]))
  }

  lemma {:induction false} FoundOnPaired(source: NodeId, references: seq<Reference>, node: NodeId)
    ensures FoundOn(Paired(source, references), node) == if node == source then references else []
  {
    if references != [] {
      var n := |references| - 1;
      FoundOnPaired(source, references[..n], node);
      assert Paired(source, references)[..n] == Paired(source, references[..n]);
      assert references == references[..n] + [references[n]];
    }
  }

  /** The nodes still being answered for, of the first `n`, after the page just read. */
  ghost function Continued(server: Server, sources: seq<NodeId>, page: nat, n: nat): seq<NodeId>
    requires n <= |sources|
  {
    if n == 0 then []
    else Continued(server, sources, page, n - 1) + if server.Answer(sources[n - 1], page).continuationPoint.Some? then
      [sources[n - 1]] else []
  }

  lemma {:induction false} ContinuedIs(server: Server, sources: seq<NodeId>, page: nat, n: nat)
    requires n <= |sources| && Distinct(sources)
    ensures Distinct(Continued(server, sources, page, n))
    ensures forall node :: node in Continued(server, sources, page, n) <==>
      node in sources[..n] && server.Answer(node, page).continuationPoint.Some?
  {
    if n > 0 {
      ContinuedIs(server, sources, page, n - 1);
      assert sources[..n] == sources[..n - 1] + [sources[n - 1]];
    }
  }

  /** What is still to come from a node, when pages up to `page` have been read of those in `sources`. */
  ghost function ToCome(server: Server, sources: seq<NodeId>, page: nat, node: NodeId): seq<Reference> {
    if node in sources then server.Delivered(node, page) else []
  }

  /** What has been found on each node of the batch, with what is still to come, is what the server delivers. */
  ghost predicate Complete(server: Server, batch: seq<NodeId>, found: seq<Found>, sources: seq<NodeId>, page: nat) {
    forall node {:trigger CompleteAt(server, batch, found, sources, page, node)} ::
      CompleteAt(server, batch, found, sources, page, node)
  }

  ghost predicate CompleteAt(server: Server, batch: seq<NodeId>, found: seq<Found>, sources: seq<NodeId>, page: nat,
                             node: NodeId)
  {
    FoundOn(found, node) + ToCome(server, sources, page, node) == if node in batch then server.Delivered(node, 0)
      else []
  }

  /** The points asked with next are those of the nodes still being answered for, in their order. */
  ghost predicate Matches(points: seq<ContinuationPoint>, sources: seq<NodeId>, page: nat) {
    && |points| == |sources|
    && forall i :: 0 <= i < |points| ==> points[i] == ContinuationPoint(sources[i], page)
  }

  /** On each of some nodes, exactly one page of it has been found. */
  ghost predicate OnePage(server: Server, found: seq<Found>, nodes: seq<NodeId>, page: nat) {
    forall node {:trigger OnePageAt(server, found, nodes, page, node)} :: OnePageAt(server, found, nodes, page, node)
  }

  ghost predicate OnePageAt(server: Server, found: seq<Found>, nodes: seq<NodeId>, page: nat, node: NodeId) {
    FoundOn(found, node) == if node in nodes then server.Answer(node, page).references else []
  }

  lemma OneMorePage(server: Server, found: seq<Found>, nodes: seq<NodeId>, page: nat, node: NodeId)
    requires OnePage(server, found, nodes, page) && node !in nodes
    ensures OnePage(server, found + Paired(node, server.Answer(node, page).references), nodes + [node], page)
  {
    var references := server.Answer(node, page).references;
    forall n ensures OnePageAt(server, found + Paired(node, references), nodes + [node], page, n) {
      assert OnePageAt(server, found, nodes, page, n);
      assert FoundOn(found + Paired(node, references), n)
        == FoundOn(found, n) + FoundOn(Paired(node, references), n) by {
        FoundOnConcat(found, Paired(node, references), n);
      }
      assert FoundOn(Paired(node, references), n) == if n == node then references
        else [] by { FoundOnPaired(node, references, n); }
    }
  }

  lemma NextSource(sources: seq<NodeId>, i: nat)
    requires Distinct(sources) && i < |sources|
    ensures sources[..i + 1] == sources[..i] + [sources[i]] && sources[i] !in sources[..i]
  {}

  /** The first `i` nodes' pages have been read. */
  ghost predicate ReadSoFar(server: Server, sources: seq<NodeId>, page: nat, i: nat, found: seq<Found>,
                            points: seq<ContinuationPoint>, continued: seq<NodeId>)
    requires i <= |sources|
  {
    && continued == Continued(server, sources, page, i) && Matches(points, continued, page + 1)
    && OnePage(server, found, sources[..i], page)
  }

  lemma ReadNext(server: Server, sources: seq<NodeId>, page: nat, i: nat, found: seq<Found>,
                 points: seq<ContinuationPoint>, continued: seq<NodeId>)
    requires i < |sources| && Distinct(sources) && ReadSoFar(server, sources, page, i, found, points, continued)
    ensures var answer := server.Answer(sources[i], page);
      ReadSoFar(server, sources, page, i + 1, found + Paired(sources[i], answer.references),
        if answer.continuationPoint.Some? then points + [answer.continuationPoint.value] else points,
        if answer.continuationPoint.Some? then continued + [sources[i]] else continued)
  {
    NextSource(sources, i);
    OneMorePage(server, found, sources[..i], page, sources[i]);
  }

  /** One page of every node still being answered for. */
  method ReadPages(ghost server: Server, results: seq<BrowseResult>, sources: seq<NodeId>, ghost page: nat)
    returns (found: seq<Found>, points: seq<ContinuationPoint>, continued: seq<NodeId>)
    requires AreAnswers(server, results, sources, page) && Distinct(sources)
    ensures ReadSoFar(server, sources, page, |sources|, found, points, continued)
  {
    found, points, continued := [], [], [];
    for i := 0 to |results|
      invariant ReadSoFar(server, sources, page, i, found, points, continued)
    {
      found, points, continued := ReadPage(server, results[i], sources, page, i, found, points, continued);
    }
  }

  /** What the server answered about each node's page. */
  ghost predicate AreAnswers(server: Server, results: seq<BrowseResult>, sources: seq<NodeId>, page: nat) {
    |results| == |sources| && forall i :: 0 <= i < |sources| ==> results[i] == server.Answer(sources[i], page)
  }

  method ReadPage(ghost server: Server, result: BrowseResult, sources: seq<NodeId>, ghost page: nat, i: nat,
                  found: seq<Found>, points: seq<ContinuationPoint>, continued: seq<NodeId>)
    returns (found': seq<Found>, points': seq<ContinuationPoint>, continued': seq<NodeId>)
    requires i < |sources| && Distinct(sources) && result == server.Answer(sources[i], page)
    requires ReadSoFar(server, sources, page, i, found, points, continued)
    ensures ReadSoFar(server, sources, page, i + 1, found', points', continued')
  {
    ReadNext(server, sources, page, i, found, points, continued);
    found', points', continued' := found, points, continued;
    if result.isBad {
      assert found + Paired(sources[i], result.references) == found;
      return;
    }
    found' := found + Paired(sources[i], result.references);
    if result.continuationPoint.Some? {
      points' := points + [result.continuationPoint.value];
      continued' := continued + [sources[i]];
    }
  }

  lemma DeliveredFrom(server: Server, node: NodeId, page: nat)
    ensures var answer := server.Answer(node, page);
      server.Delivered(node, page) == answer.references + if answer.continuationPoint.Some? then
        server.Delivered(node, page + 1) else []
  {}

  /** A node's references to come are those of its next page, and those to come after it. */
  lemma ToComeAfter(server: Server, sources: seq<NodeId>, page: nat, node: NodeId)
    requires Distinct(sources)
    ensures ToCome(server, sources, page, node) ==
      (if node in sources then server.Answer(node, page).references else [])
        + ToCome(server, Continued(server, sources, page, |sources|), page + 1, node)
  {
    ContinuedIs(server, sources, page, |sources|);
    assert sources[..|sources|] == sources;
    DeliveredFrom(server, node, page);
  }

  /** One page more of one node, whether or not it is among those read. */
  lemma PageReadAt(server: Server, batch: seq<NodeId>, found: seq<Found>, more: seq<Found>, sources: seq<NodeId>,
                   page: nat, continued: seq<NodeId>, node: NodeId)
    requires Distinct(sources) && CompleteAt(server, batch, found, sources, page, node)
    requires OnePageAt(server, more, sources, page, node)
    requires continued == Continued(server, sources, page, |sources|)
    ensures CompleteAt(server, batch, found + more, continued, page + 1, node)
  {
    var came, comes := FoundOn(found, node), FoundOn(more, node);
    var before, after := ToCome(server, sources, page, node), ToCome(server, continued, page + 1, node);
    assert before == comes + after by { ToComeAfter(server, sources, page, node); }
    assert FoundOn(found + more, node) == came + comes by { FoundOnConcat(found, more, node); }
    ReadOn(came, comes, after, before);
  }

  lemma ReadOn<T>(came: seq<T>, comes: seq<T>, after: seq<T>, before: seq<T>)
    requires before == comes + after
    ensures came + comes + after == came + before
  {}

  lemma PageRead(server: Server, batch: seq<NodeId>, found: seq<Found>, more: seq<Found>, sources: seq<NodeId>,
                 page: nat, continued: seq<NodeId>)
    requires Distinct(sources) && Complete(server, batch, found, sources, page) && OnePage(server, more, sources, page)
    requires continued == Continued(server, sources, page, |sources|)
    ensures Complete(server, batch, found + more, continued, page + 1)
  {
    var whole, next := found + more, page + 1;
    forall node ensures CompleteAt(server, batch, whole, continued, next, node) {
      PageReadAt(server, batch, found, more, sources, page, continued, node);
    }
  }

  /** The most pages any of the nodes has. */
  ghost function MostPages(server: Server, nodes: seq<NodeId>): (most: nat)
    ensures forall node :: node in nodes && node in server.pages ==> |server.pages[node]| <= most
  {
    if nodes == [] then 0
    else
      var rest := MostPages(server, nodes[1..]);
      var own := if nodes[0] in server.pages then |server.pages[nodes[0]]| else 0;
      if own > rest then own else rest
  }

  lemma PagesRunOut(server: Server, batch: seq<NodeId>, sources: seq<NodeId>, page: nat)
    requires Distinct(sources) && Continued(server, sources, page, |sources|) != []
    requires forall node :: node in sources ==> node in batch
    ensures page < MostPages(server, batch)
  {
    ContinuedIs(server, sources, page, |sources|);
    var node := Continued(server, sources, page, |sources|)[0];
    assert node in sources[..|sources|];
  }

  /**
   Asks for pages of references until no node of the batch has any more: what is found on each node is exactly what
   the server delivers of it, in order.
   */
  method BrowseAll(server: Server, batch: seq<NodeId>) returns (found: seq<Found>)
    requires Distinct(batch)
    ensures FoundAll(server, found, batch)
  {
    found := [];
    var results, sources := server.Browse(batch), batch;
    ghost var page := 0;
    BrowsingStarts(server, batch);
    while true
      invariant Browsing(server, batch, found, results, sources, page)
      decreases MostPages(server, batch) - page
    {
      var more, points, continued := ReadPages(server, results, sources, page);
      BrowsingOn(server, batch, found, results, sources, page, more, points, continued);
      found := found + more;
      if points == [] { return; }
      results, sources, page := server.BrowseNext(points), continued, page + 1;
    }
  }

  /** Part-way: the last answers are of the nodes still being answered for, and nothing is missing or extra. */
  ghost predicate Browsing(server: Server, batch: seq<NodeId>, found: seq<Found>, results: seq<BrowseResult>,
                           sources: seq<NodeId>, page: nat)
  {
    && AreAnswers(server, results, sources, page) && Distinct(sources)
    && (forall node :: node in sources ==> node in batch)
    && Complete(server, batch, found, sources, page)
  }

  lemma BrowsingStarts(server: Server, batch: seq<NodeId>)
    requires Distinct(batch)
    ensures Browsing(server, batch, [], server.Browse(batch), batch, 0)
  {
    forall node ensures CompleteAt(server, batch, [], batch, 0, node) {
      assert FoundOn([], node) == [];
    }
  }

  /** With nothing left to come, everything has been found. */
  lemma AllFound(server: Server, found: seq<Found>, batch: seq<NodeId>, page: nat)
    requires Complete(server, batch, found, [], page)
    ensures FoundAll(server, found, batch)
  {
    forall node ensures FoundOnAll(server, found, batch, node) {
      assert CompleteAt(server, batch, found, [], page, node);
    }
  }

  /** One round of pages later: everything has been found, or there are more pages to ask for. */
  lemma BrowsingOn(server: Server, batch: seq<NodeId>, found: seq<Found>, results: seq<BrowseResult>,
                   sources: seq<NodeId>, page: nat,
                   more: seq<Found>, points: seq<ContinuationPoint>, continued: seq<NodeId>)
    requires Browsing(server, batch, found, results, sources, page)
    requires ReadSoFar(server, sources, page, |sources|, more, points, continued)
    ensures if points == [] then FoundAll(server, found + more, batch)
      else page < MostPages(server, batch) && Browsing(server, batch, found + more, server.BrowseNext(points),
                                                       continued, page + 1)
  {
    assert sources[..|sources|] == sources;
    PageRead(server, batch, found, more, sources, page, continued);
    ContinuedIs(server, sources, page, |sources|);
    if points == [] {
      AllFound(server, found + more, batch, page + 1);
    } else {
      PagesRunOut(server, batch, sources, page);
    }
  }

  // ------------------------------------------------------------------------------------------------------------
  // The walk

  datatype Walk = Walk(
    variables: seq<NodeId>,
    methods: seq<(NodeId, NodeId)>,
    visited: set<NodeId>,
    nodeClasses: map<NodeId, NodeClass>,
    toBrowse: seq<NodeId>)

  /** Every node has the class some reference to it gives it; the one the walk starts at is an object. */
  ghost predicate ClassesRight(server: Server, nodeClasses: map<NodeId, NodeClass>) {
    forall node {:trigger nodeClasses[node]} :: node in nodeClasses ==>
      if node == OBJECTS_FOLDER then nodeClasses[node] == Object else server.IsNamed(node, nodeClasses[node])
  }

  /** A node has a class it may have, and so, where references agree, the one it must have. */
  lemma ClassesGiven(server: Server, nodeClasses: map<NodeId, NodeClass>)
    requires ClassesRight(server, nodeClasses) && forall node :: node in nodeClasses <==> server.Reachable(node)
    ensures forall node :: node in nodeClasses ==> server.MayBe(node, nodeClasses[node])
    ensures forall node, nodeClass :: server.MustBe(node, nodeClass) ==> IsOf(nodeClasses, node, nodeClass)
  {
    forall node | node in nodeClasses ensures server.MayBe(node, nodeClasses[node]) {}
    forall node, nodeClass | server.MustBe(node, nodeClass) ensures IsOf(nodeClasses, node, nodeClass) {
      assert server.MayBe(node, nodeClasses[node]);
    }
  }

  /** Where the server is of one mind about every node, the walk has each one's own class. */
  lemma ConsistentClasses(server: Server, classes: NodeId -> NodeClass, nodeClasses: map<NodeId, NodeClass>)
    requires server.Consistent(classes) && ClassesRight(server, nodeClasses)
    ensures forall node :: node in nodeClasses ==> nodeClasses[node] == classes(node)
  {
    forall node | node in nodeClasses ensures nodeClasses[node] == classes(node) {
      if node != OBJECTS_FOLDER {
        var source :| server.Reachable(source) && server.LeadsAs(source, node, nodeClasses[node]);
        assert source in server.pages;
      }
    }
  }

  /** What a walk has recorded is right: `order` is every node so far, in the order they were met. */
  ghost predicate Right(server: Server, all: set<NodeId>, walk: Walk, order: seq<NodeId>) {
    && OBJECTS_FOLDER in walk.visited
    && Distinct(order) && (forall node :: node in order <==> node in walk.visited)
    && (forall node :: node in walk.visited ==> server.Reachable(node))
    && walk.visited <= all
    && walk.nodeClasses.Keys == walk.visited && ClassesRight(server, walk.nodeClasses)
  }

  predicate IsOf(nodeClasses: map<NodeId, NodeClass>, node: NodeId, nodeClass: NodeClass) {
    node in nodeClasses && nodeClasses[node] == nodeClass
  }

  ghost predicate VariablesRight(walk: Walk) {
    && Distinct(walk.variables)
    && (forall node :: node in walk.variables <==> IsOf(walk.nodeClasses, node, Variable))
  }

  ghost predicate MethodsRight(server: Server, walk: Walk) {
    forall pair :: pair in walk.methods ==> IsOf(walk.nodeClasses, pair.0, Object) && server.HasMethod(pair.0, pair.1)
  }

  ghost predicate AllRight(server: Server, all: set<NodeId>, walk: Walk, order: seq<NodeId>) {
    Right(server, all, walk, order) && VariablesRight(walk) && MethodsRight(server, walk)
  }

  /** A reference has had its effect. */
  ghost predicate Noted(walk: Walk, source: NodeId, reference: Reference) {
    source in walk.nodeClasses && (reference.target.Local? ==>
      if reference.nodeClass.Method_? then IsOf(walk.nodeClasses, source, Object) ==>
        (source, reference.target.id) in walk.methods
      else reference.target.id in walk.visited)
  }

  /** Every reference of a node has had its effect. */
  ghost predicate Explored(server: Server, walk: Walk, node: NodeId) {
    forall reference :: reference in server.Delivered(node, 0) ==> Noted(walk, node, reference)
  }

  /** Nothing a walk has recorded is forgotten. */
  ghost predicate Extends(before: Walk, after: Walk) {
    && before.visited <= after.visited && (forall pair :: pair in before.methods ==> pair in after.methods)
    && (forall node :: node in before.nodeClasses ==> IsOf(after.nodeClasses, node, before.nodeClasses[node]))
  }

  /** Some nodes hold wherever the walk could get. */
  ghost predicate Covers(server: Server, all: set<NodeId>) {
    OBJECTS_FOLDER in all && forall source, to :: server.Leads(source, to) ==> to in all
  }

  lemma MentionedCovers(server: Server)
    ensures Covers(server, server.Mentioned())
  {
    forall source, to | server.Leads(source, to) ensures to in server.Mentioned() {
      var nodeClass :| server.LeadsAs(source, to, nodeClass);
      DeliveredIsMentioned(server, source, 0, Reference(Local(to), nodeClass));
    }
  }

  /** What is left to do: counts down with every batch. */
  ghost function Remaining(all: set<NodeId>, walk: Walk): nat {
    2 * |all - walk.visited| + |walk.toBrowse|
  }

  /** The walk with a node it had not met. */
  function Meeting(walk: Walk, node: NodeId, nodeClass: NodeClass): Walk {
    Walk(
      if nodeClass == Variable then walk.variables + [node] else walk.variables,
      walk.methods, walk.visited + {node}, walk.nodeClasses[node := nodeClass], walk.toBrowse + [node])
  }

  lemma MeetingRight(server: Server, all: set<NodeId>, walk: Walk, source: NodeId, node: NodeId, nodeClass: NodeClass,
                     order: seq<NodeId>)
    requires Right(server, all, walk, order) && node !in walk.visited && node in all
    requires server.Reachable(source) && server.LeadsAs(source, node, nodeClass)
    ensures Right(server, all, Meeting(walk, node, nodeClass), order + [node])
  {
    ReachFurther(server, source, node);
    assert server.IsNamed(node, nodeClass);
  }

  lemma MeetingVariables(walk: Walk, node: NodeId, nodeClass: NodeClass)
    requires VariablesRight(walk) && node !in walk.nodeClasses
    ensures VariablesRight(Meeting(walk, node, nodeClass))
  {
    forall i | 0 <= i < |walk.variables| ensures walk.variables[i] != node {
      assert walk.variables[i] in walk.variables;
    }
  }

  lemma MeetingRemaining(all: set<NodeId>, walk: Walk, node: NodeId, nodeClass: NodeClass)
    requires node !in walk.visited && node in all
    ensures Remaining(all, Meeting(walk, node, nodeClass)) < Remaining(all, walk)
  {
    assert all - walk.visited == (all - (walk.visited + {node})) + {node};
  }

  lemma NewNode(server: Server, all: set<NodeId>, walk: Walk, source: NodeId, node: NodeId, nodeClass: NodeClass,
                order: seq<NodeId>)
    requires Covers(server, all) && AllRight(server, all, walk, order) && source in walk.visited
    requires node !in walk.visited && server.LeadsAs(source, node, nodeClass)
    ensures AllRight(server, all, Meeting(walk, node, nodeClass), order + [node])
    ensures Remaining(all, Meeting(walk, node, nodeClass)) <= Remaining(all, walk)
  {
    assert server.Leads(source, node);
    MeetingRight(server, all, walk, source, node, nodeClass, order);
    MeetingVariables(walk, node, nodeClass);
    MeetingRemaining(all, walk, node, nodeClass);
  }

  /** Everything found so far has had its effect. */
  ghost predicate NotedAll(walk: Walk, found: seq<Found>) {
    forall one :: one in found ==> Noted(walk, one.source, one.reference)
  }

  lemma NotedStays(before: Walk, after: Walk, found: seq<Found>, one: Found)
    requires NotedAll(before, found) && Extends(before, after) && Noted(after, one.source, one.reference)
    ensures NotedAll(after, found + [one])
  {}

  /** A walk goes on from another: it forgot nothing, and queued what it met, in order. */
  ghost predicate GoesOn(all: set<NodeId>, before: Walk, after: Walk, met: seq<NodeId>) {
    && Extends(before, after) && Remaining(all, after) <= Remaining(all, before)
    && after.toBrowse == before.toBrowse + met
  }

  lemma GoesOnOn(all: set<NodeId>, a: Walk, b: Walk, metB: seq<NodeId>, c: Walk, metC: seq<NodeId>)
    requires GoesOn(all, a, b, metB) && GoesOn(all, b, c, metC)
    ensures GoesOn(all, a, c, metB + metC)
  {
    assert a.toBrowse + metB + metC == a.toBrowse + (metB + metC);
  }

  /** The body of the walk's inner loop. */
  method Note(server: Server, ghost all: set<NodeId>, walk: Walk, source: NodeId, reference: Reference,
              ghost order: seq<NodeId>)
    returns (after: Walk, ghost met: seq<NodeId>)
    requires Covers(server, all) && AllRight(server, all, walk, order)
    requires source in walk.visited && reference in server.Delivered(source, 0)
    ensures AllRight(server, all, after, order + met) && Noted(after, source, reference)
    ensures GoesOn(all, walk, after, met)
  {
    after, met := walk, [];
    assert order + met == order;
    if reference.target.Absolute? { return; }
    if reference.target.Null? { return; }
    var node := reference.target.id;
    if reference.nodeClass == Method_ {
      if source in walk.nodeClasses && walk.nodeClasses[source] == Object {
        after := walk.(methods := walk.methods + [(source, node)]);
      }
      return;
    }
    if node in walk.visited { return; }
    met := [node];
    after := Meeting(walk, node, reference.nodeClass);
    NewNode(server, all, walk, source, node, reference.nodeClass, order);
  }

  /** Everything found on a batch is noted, in the order it was found. */
  method NoteAll(server: Server, ghost all: set<NodeId>, walk: Walk, found: seq<Found>, ghost order: seq<NodeId>)
    returns (after: Walk, ghost met: seq<NodeId>)
    requires Covers(server, all) && AllRight(server, all, walk, order)
    requires forall one :: one in found ==>
      one.source in walk.visited && one.reference in server.Delivered(one.source, 0)
    ensures AllRight(server, all, after, order + met) && GoesOn(all, walk, after, met) && NotedAll(after, found)
  {
    after, met := walk, [];
    assert order + met == order;
    for i := 0 to |found|
      invariant AllRight(server, all, after, order + met) && GoesOn(all, walk, after, met)
      invariant NotedAll(after, found[..i])
    {
      ghost var before, metBefore := after, met;
      ghost var more;
      assert found[i] in found && found[..i + 1] == found[..i] + [found[i]];
      after, more := Note(server, all, after, found[i].source, found[i].reference, order + met);
      met := met + more;
      assert order + metBefore + more == order + met;
      GoesOnOn(all, walk, before, metBefore, after, more);
      NotedStays(before, after, found[..i], found[i]);
    }
    assert found[..|found|] == found;
  }

  /** Takes the next batch off the queue. */
  method NextBatch(toBrowse: seq<NodeId>) returns (batch: seq<NodeId>, rest: seq<NodeId>)
    requires toBrowse != []
    ensures batch + rest == toBrowse && 0 < |batch| <= 100 && (rest == [] || |batch| == 100)
  {
    batch, rest := [], toBrowse;
    while rest != [] && |batch| < BATCH_SIZE
      invariant batch + rest == toBrowse && |batch| <= BATCH_SIZE
      decreases |rest|
    {
      batch, rest := batch + [rest[0]], rest[1..];
    }
  }

  /** The walk between batches: the nodes met are those browsed, then those to browse. */
  ghost predicate Between(server: Server, all: set<NodeId>, walk: Walk, browsed: seq<NodeId>) {
    && AllRight(server, all, walk, browsed + walk.toBrowse)
    && forall node :: node in browsed ==> Explored(server, walk, node)
  }

  lemma BatchOf(server: Server, all: set<NodeId>, walk: Walk, browsed: seq<NodeId>, batch: seq<NodeId>,
                rest: seq<NodeId>)
    requires Between(server, all, walk, browsed) && batch + rest == walk.toBrowse
    ensures Distinct(batch) && forall node :: node in batch ==> node in walk.visited
    ensures browsed + walk.toBrowse == (browsed + batch) + rest
    ensures AllRight(server, all, walk.(toBrowse := rest), (browsed + batch) + rest)
  {
    var order := browsed + walk.toBrowse;
    assert order == browsed + batch + rest;
    assert forall i :: 0 <= i < |batch| ==> batch[i] == order[|browsed| + i];
  }

  /** What a node delivers, for those of the batch. */
  ghost predicate FoundAll(server: Server, found: seq<Found>, batch: seq<NodeId>) {
    forall node {:trigger FoundOnAll(server, found, batch, node)} :: FoundOnAll(server, found, batch, node)
  }

  ghost predicate FoundOnAll(server: Server, found: seq<Found>, batch: seq<NodeId>, node: NodeId) {
    FoundOn(found, node) == if node in batch then server.Delivered(node, 0) else []
  }

  lemma FoundIsDelivered(server: Server, found: seq<Found>, batch: seq<NodeId>, one: Found)
    requires FoundAll(server, found, batch) && one in found
    ensures one.source in batch && one.reference in server.Delivered(one.source, 0)
  {
    assert FoundOnAll(server, found, batch, one.source);
    FoundOnHas(found, one.source, one.reference);
  }

  lemma ExploredAfter(server: Server, walk: Walk, after: Walk, browsed: seq<NodeId>, batch: seq<NodeId>,
                      found: seq<Found>)
    requires forall node :: node in browsed ==> Explored(server, walk, node)
    requires Extends(walk, after) && NotedAll(after, found) && FoundAll(server, found, batch)
    ensures forall node :: node in browsed + batch ==> Explored(server, after, node)
  {
    forall node | node in browsed + batch ensures Explored(server, after, node) {
      forall reference | reference in server.Delivered(node, 0) ensures Noted(after, node, reference) {
        if node in browsed {
          assert Noted(walk, node, reference);
        } else {
          assert FoundOnAll(server, found, batch, node);
          FoundOnHas(found, node, reference);
          assert Found(node, reference) in found;
        }
      }
    }
  }

  /** One batch: browsed, and everything found on it noted. */
  method BrowseBatch(server: Server, ghost all: set<NodeId>, walk: Walk, ghost browsed: seq<NodeId>)
    returns (after: Walk, ghost browsed': seq<NodeId>)
    requires Covers(server, all) && Between(server, all, walk, browsed) && walk.toBrowse != []
    ensures Between(server, all, after, browsed') && Remaining(all, after) < Remaining(all, walk)
  {
    var batch, rest := NextBatch(walk.toBrowse);
    BatchOf(server, all, walk, browsed, batch, rest);
    var found := BrowseAll(server, batch);
    forall one | one in found ensures one.source in walk.visited && one.reference in server.Delivered(one.source, 0) {
      FoundIsDelivered(server, found, batch, one);
    }
    browsed' := browsed + batch;
    ghost var met;
    after, met := NoteAll(server, all, walk.(toBrowse := rest), found, browsed' + rest);
    assert browsed' + after.toBrowse == browsed' + rest + met;
    ExploredAfter(server, walk, after, browsed, batch, found);
  }

  /** A walk with nothing left to browse has met every reachable node, and every method of every object. */
  lemma WalkEnds(server: Server, all: set<NodeId>, walk: Walk, browsed: seq<NodeId>)
    requires Covers(server, all) && Between(server, all, walk, browsed) && walk.toBrowse == []
    ensures forall node :: node in browsed <==> server.Reachable(node)
    ensures forall node :: node in walk.nodeClasses <==> server.Reachable(node)
    ensures forall object_, method_ :: (object_, method_) in walk.methods <==>
      IsOf(walk.nodeClasses, object_, Object) && server.HasMethod(object_, method_)
  {
    assert browsed + walk.toBrowse == browsed;
    forall source, to | source in walk.visited && server.Leads(source, to) ensures to in walk.visited {
      var nodeClass :| server.LeadsAs(source, to, nodeClass);
      assert Explored(server, walk, source);
      assert Noted(walk, source, Reference(Local(to), nodeClass));
    }
    forall node | server.Reachable(node) ensures node in walk.visited {
      var path :| server.WalkTo(path, node);
      ClosedHoldsWalk(server, walk.visited, path, |path| - 1);
    }
    forall object_, method_ | IsOf(walk.nodeClasses, object_, Object) && server.HasMethod(object_, method_)
      ensures (object_, method_) in walk.methods
    {
      assert Explored(server, walk, object_);
      assert Noted(walk, object_, Reference(Local(method_), Method_));
    }
  }

  function AtRoot(): Walk {
    Walk([], [], {OBJECTS_FOLDER}, map[OBJECTS_FOLDER := Object], [OBJECTS_FOLDER])
  }

  lemma WalkStarts(server: Server)
    ensures Covers(server, server.Mentioned()) && Between(server, server.Mentioned(), AtRoot(), [])
  {
    RootReachable(server);
    MentionedCovers(server);
    assert [] + AtRoot().toBrowse == [OBJECTS_FOLDER];
  }

  /**
   Walks the hierarchy below Objects: it meets exactly the reachable nodes of this server, each with a class some
   reference gives it; it returns each variable among them once, and as a set exactly the methods its objects refer to.
   No node is browsed twice. So a node that every reference calls a variable is returned, and one that none does is not;
   the same goes for the methods of objects.
   */
  method Browse(server: Server)
    returns (variables: seq<NodeId>, methods: seq<(NodeId, NodeId)>, ghost browsed: seq<NodeId>,
             ghost nodeClasses: map<NodeId, NodeClass>)
    ensures Distinct(browsed) && forall node :: node in browsed <==> server.Reachable(node)
    ensures (forall node :: node in nodeClasses <==> server.Reachable(node)) && ClassesRight(server, nodeClasses)
    ensures Distinct(variables) && forall node :: node in variables <==> IsOf(nodeClasses, node, Variable)
    ensures forall object_, method_ :: (object_, method_) in methods <==>
      IsOf(nodeClasses, object_, Object) && server.HasMethod(object_, method_)
    ensures forall node ::
      (node in variables ==> server.MayBe(node, Variable)) && (server.MustBe(node, Variable) ==> node in variables)
    ensures forall object_, method_ :: (object_, method_) in methods ==>
      server.MayBe(object_, Object) && server.HasMethod(object_, method_)
    ensures forall object_, method_ :: server.MustBe(object_, Object) && server.HasMethod(object_, method_) ==>
      (object_, method_) in methods
  {
    var walk := AtRoot();
    browsed := [];
    ghost var all := server.Mentioned();
    WalkStarts(server);
    while walk.toBrowse != []
      invariant Between(server, all, walk, browsed)
      decreases Remaining(all, walk)
    {
      walk, browsed := BrowseBatch(server, all, walk, browsed);
    }
    WalkEnds(server, all, walk, browsed);
    assert browsed + walk.toBrowse == browsed;
    variables, methods, nodeClasses := walk.variables, walk.methods, walk.nodeClasses;
    ClassesGiven(server, nodeClasses);
  }
}
