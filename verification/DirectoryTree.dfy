/**
 The explorer's tree of commands: directories that say nothing are taken out of it in place, until none is left, and
 every name is then cut down to what its parents do not already say.
 */
module DirectoryTree {
  import opened Options

  /**
   A tree of directories as it stands: what its objects hold. A command entry is its full name; the root, which the
   program gives no name, is named by the empty text.
   */
  datatype Node = Node(dir: Directory, name: string, command: Option<string>, children: seq<Node>)

  // ------------------------------------------------------------------------------------------------------------
  // What a tree is made of

  ghost function Bag(t: Node): multiset<Directory> {
    multiset{t.dir} + BagAll(t.children)
  }

  ghost function BagAll(ts: seq<Node>): multiset<Directory> {
    if ts == [] then multiset{} else Bag(ts[0]) + BagAll(ts[1..])
  }

  ghost function Leaves(t: Node): multiset<string> {
    (if t.command.Some? then multiset{t.command.value} else multiset{}) + LeavesAll(t.children)
  }

  ghost function LeavesAll(ts: seq<Node>): multiset<string> {
    if ts == [] then multiset{} else Leaves(ts[0]) + LeavesAll(ts[1..])
  }

  lemma Rest(a: seq<Node>, b: seq<Node>)
    requires a != []
    ensures (a + b)[0] == a[0] && (a + b)[1..] == a[1..] + b
  {}

  lemma {:induction false} BagConcat(a: seq<Node>, b: seq<Node>)
    ensures BagAll(a + b) == BagAll(a) + BagAll(b)
  {
    if a == [] {
      assert a + b == b;
    } else {
      BagConcat(a[1..], b);
      Rest(a, b);
    }
  }

  lemma {:induction false} LeavesConcat(a: seq<Node>, b: seq<Node>)
    ensures LeavesAll(a + b) == LeavesAll(a) + LeavesAll(b)
  {
    if a == [] {
      assert a + b == b;
    } else {
      LeavesConcat(a[1..], b);
      Rest(a, b);
    }
  }

  lemma Around(ts: seq<Node>, k: nat)
    requires k < |ts|
    ensures ts == ts[..k] + ([ts[k]] + ts[k + 1..])
  {}

  /** One child, set apart from those before and after it. */
  lemma BagAround(ts: seq<Node>, k: nat)
    requires k < |ts|
    ensures BagAll(ts) == BagAll(ts[..k]) + Bag(ts[k]) + BagAll(ts[k + 1..])
  {
    var before, t, after := ts[..k], ts[k], ts[k + 1..];
    Around(ts, k);
    BagConcat(before, [t] + after);
    BagConcat([t], after);
  }

  lemma LeavesAround(ts: seq<Node>, k: nat)
    requires k < |ts|
    ensures LeavesAll(ts) == LeavesAll(ts[..k]) + Leaves(ts[k]) + LeavesAll(ts[k + 1..])
  {
    var before, t, after := ts[..k], ts[k], ts[k + 1..];
    Around(ts, k);
    LeavesConcat(before, [t] + after);
    LeavesConcat([t], after);
  }

  /** Every object stands in one place of the tree. */
  ghost predicate Once(bag: multiset<Directory>) {
    forall d | d in bag :: bag[d] == 1
  }

  lemma OncePart(whole: multiset<Directory>, a: multiset<Directory>, b: multiset<Directory>)
    requires Once(whole) && a + b <= whole
    ensures Once(a) && Once(b) && a !! b
  {
    forall d | d in a || d in b ensures a[d] + b[d] == 1 {
      assert a[d] + b[d] == (a + b)[d] <= whole[d];
      assert d in whole;
    }
  }

  // ------------------------------------------------------------------------------------------------------------
  // Compacting

  predicate IsEmpty(t: Node) {
    t.children == [] && t.command.None?
  }

  /** A directory that holds one directory and nothing else. */
  predicate HoldsOneDirectory(t: Node) {
    |t.children| == 1 && t.children[0].command.None?
  }

  function Without(ts: seq<Node>, k: nat): seq<Node>
    requires k < |ts|
  {
    ts[..k] + ts[k + 1..]
  }

  /** What a directory's children become when the k-th is compacted, if that changes them. */
  function CompactAt(ts: seq<Node>, k: nat): Option<seq<Node>>
    requires k < |ts|
    decreases ts, 0, 0
  {
    if IsEmpty(ts[k]) then Some(Without(ts, k))
    else if HoldsOneDirectory(ts[k]) then Some(Without(ts, k) + [ts[k].children[0]])
    else
      match CompactFrom(ts[k].children, 0)
      case None => None
      case Some(below) => Some(ts[k := ts[k].(children := below)])
  }

  /** What becomes of them when the first that can be, from the k-th on, is compacted. */
  function CompactFrom(ts: seq<Node>, k: nat): Option<seq<Node>>
    requires k <= |ts|
    decreases ts, 1, |ts| - k
  {
    if k == |ts| then None
    else if CompactAt(ts, k).Some? then CompactAt(ts, k)
    else CompactFrom(ts, k + 1)
  }

  /** No directory below is empty, and none holds one directory and nothing else. */
  ghost predicate Normal(ts: seq<Node>) {
    forall i :: 0 <= i < |ts| ==> NormalNode(ts[i])
  }

  ghost predicate NormalNode(t: Node) {
    !IsEmpty(t) && !HoldsOneDirectory(t) && Normal(t.children)
  }

  lemma {:induction false} StuckAtNormal(ts: seq<Node>, k: nat)
    requires k < |ts|
    ensures CompactAt(ts, k).None? <==> NormalNode(ts[k])
    decreases ts, 0, 0
  {
    StuckIsNormal(ts[k].children, 0);
  }

  /** Compacting changes nothing exactly when there is nothing left to compact. */
  lemma {:induction false} StuckIsNormal(ts: seq<Node>, k: nat)
    requires k <= |ts|
    ensures CompactFrom(ts, k).None? <==> forall i :: k <= i < |ts| ==> NormalNode(ts[i])
    decreases ts, 1, |ts| - k
  {
    if k < |ts| {
      StuckAtNormal(ts, k);
      StuckIsNormal(ts, k + 1);
    }
  }

  // ------------------------------------------------------------------------------------------------------------
  // What compacting keeps

  /**
   A tree under a directory of some name: every name goes on from its parent's after a dot, and a command stands
   alone, under its full name.
   */
  ghost predicate Named(t: Node, parent: string) {
    && t.name != "" && (parent == "" || parent + "." <= t.name)
    && (t.command.Some? ==> t.command.value == t.name && t.children == [])
    && NamedAll(t.children, t.name)
  }

  ghost predicate NamedAll(ts: seq<Node>, parent: string) {
    forall i :: 0 <= i < |ts| ==> Named(ts[i], parent)
  }

  lemma NamedBelow(t: Node, parent: string, i: nat)
    requires Named(t, parent) && i < |t.children|
    ensures Named(t.children[i], t.name) && t.command.None?
  {
    assert NamedAll(t.children, t.name);
  }

  lemma NamedHigher(t: Node, middle: string, parent: string)
    requires Named(t, middle) && middle != "" && (parent == "" || parent + "." <= middle)
    ensures Named(t, parent)
  {
    assert parent + "." <= middle <= t.name || parent == "";
  }

  /** What one step of compacting promises: one directory fewer, every command kept, and names that still go on. */
  ghost predicate Fewer(ts: seq<Node>, after: seq<Node>, parent: string) {
    && NamedAll(after, parent) && LeavesAll(after) == LeavesAll(ts)
    && BagAll(after) <= BagAll(ts) && |BagAll(after)| + 1 == |BagAll(ts)|
  }

  lemma WithoutIs(ts: seq<Node>, k: nat)
    requires k < |ts|
    ensures BagAll(ts) == BagAll(Without(ts, k)) + Bag(ts[k])
    ensures LeavesAll(ts) == LeavesAll(Without(ts, k)) + Leaves(ts[k])
  {
    var before, after := ts[..k], ts[k + 1..];
    assert BagAll(ts) == BagAll(before + after) + Bag(ts[k]) by { BagAround(ts, k); BagConcat(before, after); }
    assert LeavesAll(ts) == LeavesAll(before + after)
      + Leaves(ts[k]) by { LeavesAround(ts, k); LeavesConcat(before, after); }
  }

  lemma EmptyFewer(ts: seq<Node>, k: nat, parent: string)
    requires k < |ts| && NamedAll(ts, parent) && IsEmpty(ts[k])
    ensures Fewer(ts, Without(ts, k), parent)
  {
    WithoutIs(ts, k);
  }

  lemma OneDirectory(t: Node, parent: string)
    requires Named(t, parent) && HoldsOneDirectory(t)
    ensures var child := t.children[0];
      Named(child, parent) && Bag(t) == multiset{t.dir} + Bag(child) && Leaves(t) == Leaves(child)
  {
    var child := t.children[0];
    assert t.children[1..] == [];
    assert Bag(t) == multiset{t.dir} + (Bag(child) + BagAll(t.children[1..]));
    assert Leaves(t) == multiset{} + (Leaves(child) + LeavesAll(t.children[1..])) by { NamedBelow(t, parent, 0); }
    NamedBelow(t, parent, 0);
    NamedHigher(child, t.name, parent);
  }

  lemma OneFewer(whole: multiset<Directory>, part: multiset<Directory>, d: Directory)
    requires whole == part + multiset{d}
    ensures part <= whole && |part| + 1 == |whole|
  {}

  lemma LiftedBag(ts: seq<Node>, k: nat, parent: string)
    requires k < |ts| && NamedAll(ts, parent) && HoldsOneDirectory(ts[k])
    ensures BagAll(ts) == BagAll(Without(ts, k) + [ts[k].children[0]]) + multiset{ts[k].dir}
  {
    WithoutIs(ts, k);
    OneDirectory(ts[k], parent);
    BagConcat(Without(ts, k), [ts[k].children[0]]);
  }

  lemma LiftedLeaves(ts: seq<Node>, k: nat, parent: string)
    requires k < |ts| && NamedAll(ts, parent) && HoldsOneDirectory(ts[k])
    ensures LeavesAll(ts) == LeavesAll(Without(ts, k) + [ts[k].children[0]])
  {
    WithoutIs(ts, k);
    OneDirectory(ts[k], parent);
    LeavesConcat(Without(ts, k), [ts[k].children[0]]);
  }

  lemma LiftedNamed(ts: seq<Node>, k: nat, parent: string)
    requires k < |ts| && NamedAll(ts, parent) && HoldsOneDirectory(ts[k])
    ensures NamedAll(Without(ts, k) + [ts[k].children[0]], parent)
  {
    OneDirectory(ts[k], parent);
  }

  lemma LiftedFewer(ts: seq<Node>, k: nat, parent: string)
    requires k < |ts| && NamedAll(ts, parent) && HoldsOneDirectory(ts[k])
    ensures Fewer(ts, Without(ts, k) + [ts[k].children[0]], parent)
  {
    var after := Without(ts, k) + [ts[k].children[0]];
    LiftedBag(ts, k, parent);
    LiftedLeaves(ts, k, parent);
    LiftedNamed(ts, k, parent);
    OneFewer(BagAll(ts), BagAll(after), ts[k].dir);
  }

  lemma BelowFewer(ts: seq<Node>, k: nat, below: seq<Node>, parent: string)
    requires k < |ts| && NamedAll(ts, parent) && Fewer(ts[k].children, below, ts[k].name) && ts[k].children != []
    ensures Fewer(ts, ts[k := ts[k].(children := below)], parent)
  {
    var t := ts[k].(children := below);
    var after := ts[k := t];
    assert Without(after, k) == Without(ts, k);
    assert Bag(t) <= Bag(ts[k]) && |Bag(t)| + 1 == |Bag(ts[k])| && Leaves(t) == Leaves(ts[k]);
    WithoutIs(ts, k);
    WithoutIs(after, k);
    NamedBelow(ts[k], parent, 0);
    assert Named(t, parent);
  }

  lemma {:induction false} CompactAtFewer(ts: seq<Node>, k: nat, parent: string)
    requires k < |ts| && NamedAll(ts, parent) && CompactAt(ts, k).Some?
    ensures Fewer(ts, CompactAt(ts, k).value, parent)
    decreases ts, 0, 0
  {
    if IsEmpty(ts[k]) {
      EmptyFewer(ts, k, parent);
    } else if HoldsOneDirectory(ts[k]) {
      LiftedFewer(ts, k, parent);
    } else {
      assert Named(ts[k], parent);
      CompactFewer(ts[k].children, 0, ts[k].name);
      BelowFewer(ts, k, CompactFrom(ts[k].children, 0).value, parent);
    }
  }

  lemma {:induction false} CompactFewer(ts: seq<Node>, k: nat, parent: string)
    requires k <= |ts| && NamedAll(ts, parent) && CompactFrom(ts, k).Some?
    ensures Fewer(ts, CompactFrom(ts, k).value, parent)
    decreases ts, 1, |ts| - k
  {
    if CompactAt(ts, k).Some? {
      CompactAtFewer(ts, k, parent);
    } else {
      CompactFewer(ts, k + 1, parent);
    }
  }

  // ------------------------------------------------------------------------------------------------------------
  // Which directories stay

  ghost function Count(ts: seq<Node>, p: Node -> bool): nat {
    if ts == [] then 0 else (if p(ts[0]) then 1 else 0) + Count(ts[1..], p)
  }

  /** Some command is in it, or it is one. */
  ghost predicate Bears(t: Node) {
    Leaves(t) != multiset{}
  }

  predicate IsCommand(t: Node) {
    t.command.Some?
  }

  /** A command entry stays, and so does what holds one itself, or holds two directories with commands in them. */
  ghost predicate Stays(t: Node) {
    t.command.Some? || Count(t.children, IsCommand) >= 1 || Count(t.children, Bears) >= 2
  }

  ghost function Staying(t: Node): multiset<Directory> {
    (if Stays(t) then multiset{t.dir} else multiset{}) + StayingAll(t.children)
  }

  ghost function StayingAll(ts: seq<Node>): multiset<Directory> {
    if ts == [] then multiset{} else Staying(ts[0]) + StayingAll(ts[1..])
  }

  lemma {:induction false} StayingConcat(a: seq<Node>, b: seq<Node>)
    ensures StayingAll(a + b) == StayingAll(a) + StayingAll(b)
  {
    if a == [] {
      assert a + b == b;
    } else {
      StayingConcat(a[1..], b);
      Rest(a, b);
    }
  }

  lemma {:induction false} CountConcat(a: seq<Node>, b: seq<Node>, p: Node -> bool)
    ensures Count(a + b, p) == Count(a, p) + Count(b, p)
  {
    if a == [] {
      assert a + b == b;
    } else {
      CountConcat(a[1..], b, p);
      Rest(a, b);
    }
  }

  lemma StayingOne(t: Node)
    ensures StayingAll([t]) == Staying(t)
  {
    assert [t][1..] == [];
  }

  lemma CountOne(t: Node, p: Node -> bool)
    ensures Count([t], p) == if p(t) then 1 else 0
  {
    assert [t][1..] == [];
  }

  lemma StayingWithout(ts: seq<Node>, k: nat)
    requires k < |ts|
    ensures StayingAll(ts) == StayingAll(Without(ts, k)) + Staying(ts[k])
  {
    var before, t, after := ts[..k], ts[k], ts[k + 1..];
    Around(ts, k);
    StayingConcat(before, [t] + after);
    StayingConcat([t], after);
    StayingConcat(before, after);
    StayingOne(t);
  }

  lemma CountWithout(ts: seq<Node>, k: nat, p: Node -> bool)
    requires k < |ts|
    ensures Count(ts, p) == Count(Without(ts, k), p) + if p(ts[k]) then 1 else 0
  {
    var before, t, after := ts[..k], ts[k], ts[k + 1..];
    Around(ts, k);
    CountConcat(before, [t] + after, p);
    CountConcat([t], after, p);
    CountConcat(before, after, p);
    CountOne(t, p);
  }

  /** What a step of compacting leaves as it is: who stays, and how many of them bear, and are, commands. */
  ghost predicate StaySame(ts: seq<Node>, after: seq<Node>) {
    && StayingAll(after) == StayingAll(ts)
    && Count(after, Bears) == Count(ts, Bears) && Count(after, IsCommand) == Count(ts, IsCommand)
  }

  lemma EmptyGoes(ts: seq<Node>, k: nat)
    requires k < |ts| && IsEmpty(ts[k])
    ensures StaySame(ts, Without(ts, k))
  {
    assert LeavesAll(ts[k].children) == multiset{} && !Bears(ts[k]);
    StayingWithout(ts, k);
    CountWithout(ts, k, Bears);
    CountWithout(ts, k, IsCommand);
  }

  /** A directory that holds one directory and nothing else gives way to it. */
  lemma GivesWay(t: Node, parent: string)
    requires Named(t, parent) && HoldsOneDirectory(t)
    ensures var child := t.children[0];
      Staying(t) == Staying(child) && (Bears(t) <==> Bears(child)) && !IsCommand(t) && !IsCommand(child)
  {
    var child := t.children[0];
    OneDirectory(t, parent);
    NamedBelow(t, parent, 0);
    assert t.children == [child];
    CountOne(child, Bears);
    CountOne(child, IsCommand);
    StayingOne(child);
  }

  lemma LiftedStays(ts: seq<Node>, k: nat, parent: string)
    requires k < |ts| && NamedAll(ts, parent) && HoldsOneDirectory(ts[k])
    ensures StaySame(ts, Without(ts, k) + [ts[k].children[0]])
  {
    var child := ts[k].children[0];
    GivesWay(ts[k], parent);
    StayingWithout(ts, k);
    StayingConcat(Without(ts, k), [child]);
    StayingOne(child);
    LiftedCounts(ts, k, child, Bears);
    LiftedCounts(ts, k, child, IsCommand);
  }

  lemma LiftedCounts(ts: seq<Node>, k: nat, child: Node, p: Node -> bool)
    requires k < |ts| && (p(ts[k]) <==> p(child))
    ensures Count(Without(ts, k) + [child], p) == Count(ts, p)
  {
    CountWithout(ts, k, p);
    CountConcat(Without(ts, k), [child], p);
    CountOne(child, p);
  }

  lemma BelowStays(ts: seq<Node>, k: nat, below: seq<Node>)
    requires k < |ts| && StaySame(ts[k].children, below) && LeavesAll(below) == LeavesAll(ts[k].children)
    ensures StaySame(ts, ts[k := ts[k].(children := below)])
  {
    var t := ts[k].(children := below);
    var after := ts[k := t];
    assert Without(after, k) == Without(ts, k);
    assert Staying(t) == Staying(ts[k]) && Leaves(t) == Leaves(ts[k]);
    StayingWithout(ts, k);
    StayingWithout(after, k);
    CountWithout(ts, k, Bears);
    CountWithout(after, k, Bears);
    CountWithout(ts, k, IsCommand);
    CountWithout(after, k, IsCommand);
  }

  lemma {:induction false} CompactAtStays(ts: seq<Node>, k: nat, parent: string)
    requires k < |ts| && NamedAll(ts, parent) && CompactAt(ts, k).Some?
    ensures StaySame(ts, CompactAt(ts, k).value)
    decreases ts, 0, 0
  {
    if IsEmpty(ts[k]) {
      EmptyGoes(ts, k);
    } else if HoldsOneDirectory(ts[k]) {
      LiftedStays(ts, k, parent);
    } else {
      assert Named(ts[k], parent);
      CompactStays(ts[k].children, 0, ts[k].name);
      CompactFewer(ts[k].children, 0, ts[k].name);
      BelowStays(ts, k, CompactFrom(ts[k].children, 0).value);
    }
  }

  /** No step of compacting changes who is to stay. */
  lemma {:induction false} CompactStays(ts: seq<Node>, k: nat, parent: string)
    requires k <= |ts| && NamedAll(ts, parent) && CompactFrom(ts, k).Some?
    ensures StaySame(ts, CompactFrom(ts, k).value)
    decreases ts, 1, |ts| - k
  {
    if CompactAt(ts, k).Some? {
      CompactAtStays(ts, k, parent);
    } else {
      CompactStays(ts, k + 1, parent);
    }
  }

  /** Where nothing is left to compact, everybody stays. */
  lemma {:induction false} NormalStays(t: Node)
    requires NormalNode(t)
    ensures Bears(t) && Stays(t) && Staying(t) == Bag(t)
    decreases t
  {
    NormalAllStay(t.children);
    if t.children != [] {
      NormalStays(t.children[0]);
      if |t.children| == 1 {
        assert t.children == [t.children[0]];
        CountOne(t.children[0], IsCommand);
      }
    }
  }

  lemma {:induction false} NormalAllStay(ts: seq<Node>)
    requires Normal(ts)
    ensures StayingAll(ts) == BagAll(ts) && Count(ts, Bears) == |ts|
    decreases ts
  {
    if ts != [] {
      NormalStays(ts[0]);
      NormalAllStay(ts[1..]);
    }
  }

  // ------------------------------------------------------------------------------------------------------------
  // Shortening

  function Cut(parent: string): nat {
    if |parent| > 0 then |parent| + 1 else 0
  }

  function Shortened(t: Node, parent: string): Node
    requires Cut(parent) <= |t.name| && NamedAll(t.children, t.name)
  {
    Node(t.dir, t.name[Cut(parent)..], t.command, seq(|t.children|, i requires 0 <= i < |t.children| =>
      assert Named(t.children[i], t.name);
      Shortened(t.children[i], t.name)))
  }

  function Joined(above: string, name: string): string {
    if above == "" then name else above + "." + name
  }

  /** Joining the names from the root down to any command, with dots, spells the command's full name. */
  ghost predicate Spells(t: Node, above: string) {
    && (t.command.Some? ==> Joined(above, t.name) == t.command.value)
    && forall i :: 0 <= i < |t.children| ==> Spells(t.children[i], Joined(above, t.name))
  }

  ghost predicate SpellsAll(ts: seq<Node>) {
    forall i :: 0 <= i < |ts| ==> Spells(ts[i], "")
  }

  lemma {:induction false} ShortenedSpells(t: Node, parent: string)
    requires Named(t, parent)
    ensures Spells(Shortened(t, parent), parent)
  {
    ShortenedBelow(t, parent);
    assert Joined(parent, t.name[Cut(parent)..]) == t.name;
    forall i | 0 <= i < |t.children| ensures Spells(ShortenedAll(t.children, t.name)[i], t.name) {
      assert Named(t.children[i], t.name);
      ShortenedSpells(t.children[i], t.name);
    }
  }

  function ShortenedAll(ts: seq<Node>, parent: string): (shortened: seq<Node>)
    requires NamedAll(ts, parent)
    ensures |shortened| == |ts|
    ensures forall i :: 0 <= i < |ts| ==> Named(ts[i], parent) && shortened[i] == Shortened(ts[i], parent)
  {
    seq(|ts|, i requires 0 <= i < |ts| =>
      assert Named(ts[i], parent);
      Shortened(ts[i], parent))
  }

  lemma ShortenedBelow(t: Node, parent: string)
    requires Cut(parent) <= |t.name| && NamedAll(t.children, t.name)
    ensures NamedAll(t.children, t.name) && Shortened(t, parent).children == ShortenedAll(t.children, t.name)
  {}

  lemma ShortenedRest(ts: seq<Node>, parent: string)
    requires NamedAll(ts, parent) && ts != []
    ensures NamedAll(ts[1..], parent) && ShortenedAll(ts, parent)[1..] == ShortenedAll(ts[1..], parent)
  {}

  /** Shortening changes names only: not which objects there are, nor the commands, nor the shape. */
  ghost predicate SameButNames(a: Node, b: Node) {
    && Bag(a) == Bag(b) && Leaves(a) == Leaves(b) && (NormalNode(a) <==> NormalNode(b)) && a.command == b.command
  }

  ghost predicate AllSameButNames(a: seq<Node>, b: seq<Node>) {
    && |a| == |b| && BagAll(a) == BagAll(b) && LeavesAll(a) == LeavesAll(b) && (Normal(a) <==> Normal(b))
    && forall i :: 0 <= i < |a| ==> a[i].command == b[i].command
  }

  lemma SameAbove(a: Node, b: Node)
    requires AllSameButNames(a.children, b.children) && a.dir == b.dir && a.command == b.command
    ensures SameButNames(a, b)
  {}

  lemma SameLonger(a: seq<Node>, b: seq<Node>)
    requires a != [] && b != [] && SameButNames(a[0], b[0]) && AllSameButNames(a[1..], b[1..])
    ensures AllSameButNames(a, b)
  {
    NormalSplit(a);
    NormalSplit(b);
    forall i | 0 <= i < |a| ensures a[i].command == b[i].command {
      if i > 0 { assert a[i] == a[1..][i - 1] && b[i] == b[1..][i - 1]; }
    }
  }

  lemma {:induction false} ShortenedKeeps(t: Node, parent: string)
    requires Named(t, parent)
    ensures SameButNames(Shortened(t, parent), t)
    decreases t, 0
  {
    ShortenedBelow(t, parent);
    ShortenedAllKeeps(t.children, t.name);
    SameAbove(Shortened(t, parent), t);
  }

  lemma {:induction false} ShortenedAllKeeps(ts: seq<Node>, parent: string)
    requires NamedAll(ts, parent)
    ensures AllSameButNames(ShortenedAll(ts, parent), ts)
    decreases ts, 1
  {
    if ts != [] {
      ShortenedKeeps(ts[0], parent);
      ShortenedRest(ts, parent);
      ShortenedAllKeeps(ts[1..], parent);
      SameLonger(ShortenedAll(ts, parent), ts);
    }
  }

  lemma NormalSplit(ts: seq<Node>)
    requires ts != []
    ensures Normal(ts) <==> NormalNode(ts[0]) && Normal(ts[1..])
  {
    if NormalNode(ts[0]) && Normal(ts[1..]) {
      forall i | 0 <= i < |ts| ensures NormalNode(ts[i]) {
        if i > 0 { assert ts[i] == ts[1..][i - 1]; }
      }
    }
  }

  // ------------------------------------------------------------------------------------------------------------
  // In place

  function Dirs(ts: seq<Node>): (dirs: seq<Directory>)
    ensures |dirs| == |ts| && forall i :: 0 <= i < |ts| ==> dirs[i] == ts[i].dir
  {
    seq(|ts|, i requires 0 <= i < |ts| => ts[i].dir)
  }

  /** One object holds what the tree says of it. */
  ghost predicate Holds(t: Node)
    reads t.dir
  {
    t.dir.directoryName == t.name && t.dir.command == t.command && t.dir.subdirectories == Dirs(t.children)
  }

  /** The objects of a tree hold what it says. */
  ghost predicate Stands(t: Node)
    reads Bag(t)
  {
    Holds(t) && StandAll(t.children)
  }

  ghost predicate StandAll(ts: seq<Node>)
    reads BagAll(ts)
  {
    ts == [] || (Stands(ts[0]) && StandAll(ts[1..]))
  }

  lemma {:induction false} StandConcat(a: seq<Node>, b: seq<Node>)
    ensures StandAll(a + b) <==> StandAll(a) && StandAll(b)
  {
    if a == [] {
      assert a + b == b;
    } else {
      StandConcat(a[1..], b);
      Rest(a, b);
    }
  }

  lemma StandOne(t: Node)
    ensures StandAll([t]) <==> Stands(t)
  {
    assert [t][1..] == [];
  }

  lemma StandAround(ts: seq<Node>, k: nat)
    requires k < |ts|
    ensures StandAll(ts) <==> StandAll(ts[..k]) && Stands(ts[k]) && StandAll(ts[k + 1..])
  {
    var before, t, after := ts[..k], ts[k], ts[k + 1..];
    Around(ts, k);
    StandConcat(before, [t] + after);
    StandConcat([t], after);
    StandOne(t);
  }

  /** A child's objects are apart from its siblings' and from its parent. */
  lemma ChildApart(t: Node, k: nat)
    requires Once(Bag(t)) && k < |t.children|
    ensures var b := Bag(t.children[k]);
      && Once(b) && b <= Bag(t) && t.dir !in b
      && b !! BagAll(t.children[..k]) && b !! BagAll(t.children[k + 1..])
    ensures t.dir !in BagAll(t.children)
  {
    var b := Bag(t.children[k]);
    BagAround(t.children, k);
    OncePart(Bag(t), multiset{t.dir} + BagAll(t.children[..k]) + BagAll(t.children[k + 1..]), b);
    OncePart(Bag(t), multiset{t.dir}, BagAll(t.children));
  }

  /** List.Remove: takes out the first that is the one given. */
  function Removed(dirs: seq<Directory>, d: Directory): seq<Directory> {
    if dirs == [] then [] else if dirs[0] == d then dirs[1..] else [dirs[0]] + Removed(dirs[1..], d)
  }

  lemma {:induction false} RemovedIs(dirs: seq<Directory>, k: nat)
    requires k < |dirs| && forall i :: 0 <= i < k ==> dirs[i] != dirs[k]
    ensures Removed(dirs, dirs[k]) == dirs[..k] + dirs[k + 1..]
  {
    if k > 0 {
      RemovedIs(dirs[1..], k - 1);
      assert dirs[1..][k - 1] == dirs[k];
      assert dirs[..k] == [dirs[0]] + dirs[1..][..k - 1];
    }
  }

  /** A tree whose objects hold what it says, each in one place of it. */
  ghost predicate IsTree(t: Node)
    reads Bag(t)
  {
    Once(Bag(t)) && Stands(t)
  }

  /** Two children are different objects. */
  lemma ChildrenDiffer(t: Node, i: nat, k: nat)
    requires Once(Bag(t)) && i < k < |t.children|
    ensures t.children[i].dir != t.children[k].dir
  {
    ChildApart(t, k);
    BagAround(t.children[..k], i);
    assert t.children[..k][i] == t.children[i];
    assert t.children[i].dir in Bag(t.children[i]) && t.children[k].dir in Bag(t.children[k]);
  }

  lemma DirsOfWithout(ts: seq<Node>, k: nat)
    requires k < |ts|
    ensures Dirs(Without(ts, k)) == Dirs(ts)[..k] + Dirs(ts)[k + 1..]
  {}

  lemma DirsWithout(t: Node, k: nat)
    requires Once(Bag(t)) && k < |t.children|
    ensures Removed(Dirs(t.children), t.children[k].dir) == Dirs(Without(t.children, k))
  {
    var dirs := Dirs(t.children);
    forall i | 0 <= i < k ensures dirs[i] != dirs[k] {
      ChildrenDiffer(t, i, k);
    }
    RemovedIs(dirs, k);
    DirsOfWithout(t.children, k);
  }

  lemma StandWithout(ts: seq<Node>, k: nat)
    requires k < |ts| && StandAll(ts)
    ensures StandAll(Without(ts, k)) && Stands(ts[k])
  {
    StandAround(ts, k);
    StandConcat(ts[..k], ts[k + 1..]);
  }

  lemma {:induction false} RemovedLonger(dirs: seq<Directory>, more: Directory, d: Directory)
    requires d in dirs
    ensures Removed(dirs + [more], d) == Removed(dirs, d) + [more]
  {
    assert (dirs + [more])[1..] == dirs[1..] + [more];
    if dirs[0] != d { RemovedLonger(dirs[1..], more, d); }
  }

  /** A directory's children with the k-th replaced, at the end, by the one directory it holds. */
  function Lifted(ts: seq<Node>, k: nat): seq<Node>
    requires k < |ts| && HoldsOneDirectory(ts[k])
  {
    Without(ts, k) + [ts[k].children[0]]
  }

  lemma DirsLifted(t: Node, k: nat)
    requires Once(Bag(t)) && k < |t.children| && HoldsOneDirectory(t.children[k])
    ensures Removed(Dirs(t.children) + [t.children[k].children[0].dir], t.children[k].dir)
      == Dirs(Lifted(t.children, k))
  {
    assert Dirs(t.children)[k] == t.children[k].dir;
    RemovedLonger(Dirs(t.children), t.children[k].children[0].dir, t.children[k].dir);
    DirsWithout(t, k);
  }

  lemma StandLifted(ts: seq<Node>, k: nat)
    requires k < |ts| && HoldsOneDirectory(ts[k]) && StandAll(ts)
    ensures StandAll(Lifted(ts, k)) && ts[k].dir.subdirectories == [ts[k].children[0].dir]
  {
    var child := ts[k].children[0];
    StandWithout(ts, k);
    assert Holds(ts[k]);
    StandConcat(Without(ts, k), [child]);
    StandOne(child);
  }

  /** What the compacting of a directory's k-th child, or of the root itself, makes of the directory's children. */
  function Outcome(p: Node, isRoot: bool, k: nat): Option<seq<Node>>
    requires isRoot || k < |p.children|
  {
    if isRoot then CompactFrom(p.children, 0) else CompactAt(p.children, k)
  }

  /** The tree after: its children as they became, if they changed. */
  function After(p: Node, outcome: Option<seq<Node>>): Node {
    if outcome.Some? then p.(children := outcome.value) else p
  }

  lemma Below(p: Node, k: nat)
    requires IsTree(p) && k < |p.children|
    ensures IsTree(p.children[k]) && p.dir.subdirectories == Dirs(p.children)
    ensures Holds(p) && StandAll(p.children[..k]) && StandAll(p.children[k + 1..])
  {
    ChildApart(p, k);
    StandAround(p.children, k);
  }

  lemma Replaced(ts: seq<Node>, k: nat, t: Node)
    requires k < |ts| && t.dir == ts[k].dir && StandAll(ts[..k]) && StandAll(ts[k + 1..]) && Stands(t)
    ensures StandAll(ts[k := t]) && Dirs(ts[k := t]) == Dirs(ts)
  {
    var after := ts[k := t];
    assert after[..k] == ts[..k] && after[k + 1..] == ts[k + 1..];
    StandAround(after, k);
  }

  lemma {:induction false} NodeAllocated(t: Node)
    ensures forall d :: d in Bag(t) ==> allocated(d)
    decreases t, 0
  {
    AllAllocated(t.children);
  }

  lemma {:induction false} AllAllocated(ts: seq<Node>)
    ensures forall d :: d in BagAll(ts) ==> allocated(d)
    decreases ts, 1
  {
    if ts != [] {
      NodeAllocated(ts[0]);
      AllAllocated(ts[1..]);
      forall d | d in BagAll(ts) ensures allocated(d) {
        assert d in Bag(ts[0]) || d in BagAll(ts[1..]);
      }
    }
  }

  lemma SiblingsApart(t: Node, k: nat)
    requires Once(Bag(t)) && k < |t.children|
    ensures t.dir !in Bag(t.children[k])
    ensures forall d :: d in BagAll(t.children[..k]) ==> allocated(d) && d !in Bag(t.children[k])
    ensures forall d :: d in BagAll(t.children[k + 1..]) ==> allocated(d) && d !in Bag(t.children[k])
  {
    ChildApart(t, k);
    AllAllocated(t.children[..k]);
    AllAllocated(t.children[k + 1..]);
  }

  class Directory {
    /** The empty text where the program has null: the root. */
    var directoryName: string
    var subdirectories: seq<Directory>
    const command: Option<string>

    constructor (directoryName: string, command: Option<string>, subdirectories: seq<Directory>)
      ensures this.directoryName == directoryName && this.command == command && this.subdirectories == subdirectories
    {
      this.directoryName, this.command, this.subdirectories := directoryName, command, subdirectories;
    }

    /** Takes the k-th of a parent's children, an empty one, out of it. */
    method Leave(parent: Directory, ghost p: Node, ghost k: nat)
      requires IsTree(p) && p.dir == parent && k < |p.children| && p.children[k].dir == this && IsEmpty(p.children[k])
      modifies parent
      ensures Stands(p.(children := Without(p.children, k)))
    {
      ChildApart(p, k);
      DirsWithout(p, k);
      parent.subdirectories := Removed(parent.subdirectories, this);
      StandWithout(p.children, k);
    }

    /** Puts the one directory the k-th of a parent's children holds in its place, at the end. */
    method Lift(parent: Directory, ghost p: Node, ghost k: nat)
      requires IsTree(p) && p.dir == parent && k < |p.children| && p.children[k].dir == this
      requires HoldsOneDirectory(p.children[k])
      requires |subdirectories| == 1
      modifies parent
      ensures Stands(p.(children := Lifted(p.children, k)))
    {
      ChildApart(p, k);
      DirsLifted(p, k);
      StandLifted(p.children, k);
      parent.subdirectories := parent.subdirectories + [subdirectories[0]];
      parent.subdirectories := Removed(parent.subdirectories, this);
      StandLifted(p.children, k);
    }

    /**
     Compacts this directory, the k-th of its parent `p`, or -- without a parent -- the root `p` itself. It leaves or
     lifts at most one directory, and tells whether it did.
     */
    method Compact(parent: Directory?, ghost p: Node, ghost k: nat) returns (changed: bool)
      requires IsTree(p)
      requires if parent == null then p.dir == this
        else p.dir == parent && k < |p.children| && p.children[k].dir == this
      modifies Bag(p)
      ensures changed <==> Outcome(p, parent == null, k).Some?
      ensures Stands(After(p, Outcome(p, parent == null, k)))
      decreases p, if parent == null then 2 else 0
    {
      if parent == null {
        changed := CompactSubdirectories(p);
        return;
      }
      Below(p, k);
      ghost var t := p.children[k];
      assert Holds(t) && StandAll(t.children);
      if |subdirectories| == 0 && command.None? {
        Leave(parent, p, k);
        changed := true;
      } else if |subdirectories| == 1 && subdirectories[0].command.None? {
        assert subdirectories[0] == t.children[0].dir;
        assert t.children[0].command.None? by { StandAround(t.children, 0); }
        Lift(parent, p, k);
        changed := true;
      } else {
        assert !HoldsOneDirectory(t) by {
          if |t.children| == 1 { StandAround(t.children, 0); }
        }
        assert Bag(t) <= Bag(p) by { ChildApart(p, k); }
        changed := CompactBelow(p, k);
        assert !changed ==> p.children[k := t] == p.children;
      }
    }

    /** Compacts the k-th child's own children. */
    method CompactBelow(ghost p: Node, ghost k: nat) returns (changed: bool)
      requires IsTree(p) && k < |p.children| && p.children[k].dir == this
      modifies Bag(p.children[k])
      ensures changed <==> CompactFrom(p.children[k].children, 0).Some?
      ensures Stands(p.(children := p.children[k := After(p.children[k], CompactFrom(p.children[k].children, 0))]))
      decreases p.children[k], 2
    {
      ghost var t, before, behind := p.children[k], p.children[..k], p.children[k + 1..];
      Below(p, k);
      SiblingsApart(p, k);
      assert StandAll(before) && StandAll(behind) && Holds(p);
      changed := CompactSubdirectories(t);
      assert StandAll(before) && StandAll(behind) && Holds(p);
      ghost var below := After(t, CompactFrom(t.children, 0));
      assert StandAll(p.children[k := below])
        && Dirs(p.children[k := below]) == Dirs(p.children) by { Replaced(p.children, k, below); }
    }

    /** Compacts the first of this directory's children that can be. */
    method CompactSubdirectories(ghost t: Node) returns (changed: bool)
      requires IsTree(t) && t.dir == this
      modifies Bag(t)
      ensures changed <==> CompactFrom(t.children, 0).Some?
      ensures Stands(After(t, CompactFrom(t.children, 0)))
      decreases t, 1
    {
      var i := 0;
      while i < |subdirectories|
        invariant IsTree(t) && i <= |t.children| && subdirectories == Dirs(t.children)
        invariant CompactFrom(t.children, 0) == CompactFrom(t.children, i)
      {
        changed := subdirectories[i].Compact(this, t, i);
        if changed { return; }
        assert IsTree(t);
        assert Holds(t);
        i := i + 1;
      }
      changed := false;
    }

    /** Cuts every name down to what its parents' names do not say. */
    method Shorten(parentDirectoryName: string, ghost t: Node)
      requires IsTree(t) && t.dir == this && Cut(parentDirectoryName) <= |t.name| && NamedAll(t.children, t.name)
      modifies Bag(t)
      ensures Stands(Shortened(t, parentDirectoryName))
      decreases t, 2
    {
      var i := 0;
      assert t.children[0..] == t.children;
      while i < |subdirectories|
        invariant i <= |t.children| && ShortenedTo(t, i)
      {
        assert Bag(t.children[i]) <= Bag(t) by { ChildApart(t, i); }
        ShortenSubdirectory(t, i);
        i := i + 1;
      }
      assert t.children[..i] == t.children;
      ChildrenApart(t, parentDirectoryName);
      directoryName := directoryName[Cut(parentDirectoryName)..];
    }

    /** One turn of Shorten's loop. */
    method ShortenSubdirectory(ghost t: Node, i: nat)
      requires Once(Bag(t)) && t.dir == this && NamedAll(t.children, t.name) && i < |t.children| && ShortenedTo(t, i)
      modifies Bag(t.children[i])
      ensures ShortenedTo(t, i + 1)
      decreases t, 1
    {
      ghost var others := OthersThan(t, i);
      assert Named(t.children[i], t.name);
      ShortenAmong(subdirectories[i], directoryName, t, t.children[i], others);
      ShortenedMore(t, i, others);
    }

    /** Shortens one subdirectory, and touches nothing of the others. */
    method ShortenAmong(subdirectory: Directory, name: string, ghost t: Node, ghost child: Node,
                        ghost others: seq<Node>)
      requires IsTree(child) && child.dir == subdirectory && Named(child, name) && child in t.children
      requires Holds(t) && t.dir !in Bag(child)
      requires StandAll(others) && BagAll(others) !! Bag(child) && forall d :: d in BagAll(others) ==> allocated(d)
      modifies Bag(child)
      ensures Stands(Shortened(child, name)) && StandAll(others) && Holds(t)
      decreases t, 0
    {
      subdirectory.Shorten(name, child);
    }
  }

  /** The children of `t` but the i-th: those before it shortened, those behind it as they were. */
  lemma OthersThan(t: Node, i: nat) returns (others: seq<Node>)
    requires Once(Bag(t)) && NamedAll(t.children, t.name) && i < |t.children| && ShortenedTo(t, i)
    ensures others == ShortenedAll(t.children[..i], t.name) + t.children[i + 1..]
    ensures IsTree(t.children[i]) && t.dir !in Bag(t.children[i])
    ensures StandAll(others) && BagAll(others) !! Bag(t.children[i]) && forall d :: d in BagAll(others) ==> allocated(d)
  {
    var done, rest := ShortenedAll(t.children[..i], t.name), t.children[i + 1..];
    others := done + rest;
    ChildApart(t, i);
    assert BagAll(others) !! Bag(t.children[i]) by {
      ShortenedApart(t.children[..i], t.name, Bag(t.children[i]));
      BagConcat(done, rest);
    }
    assert StandAll(others) && Stands(t.children[i]) by {
      StandAround(t.children[i..], 0);
      StandConcat(done, rest);
    }
    AllAllocated(others);
  }

  /** The children shortened so far share nothing with the one that is. */
  lemma ShortenedApart(ts: seq<Node>, parent: string, bag: multiset<Directory>)
    requires NamedAll(ts, parent) && BagAll(ts) !! bag
    ensures BagAll(ShortenedAll(ts, parent)) !! bag
  {
    ShortenedAllKeeps(ts, parent);
  }

  /** The first `i` children stand shortened, the others as they were. */
  ghost predicate ShortenedTo(t: Node, i: nat)
    requires i <= |t.children| && NamedAll(t.children, t.name)
    reads t.dir, BagAll(ShortenedAll(t.children[..i], t.name)), BagAll(t.children[i..])
  {
    Holds(t) && StandAll(ShortenedAll(t.children[..i], t.name)) && StandAll(t.children[i..])
  }

  lemma ShortenedMore(t: Node, i: nat, others: seq<Node>)
    requires i < |t.children| && NamedAll(t.children, t.name) && Named(t.children[i], t.name)
    requires others == ShortenedAll(t.children[..i], t.name) + t.children[i + 1..]
    requires StandAll(others) && Stands(Shortened(t.children[i], t.name))
    ensures StandAll(ShortenedAll(t.children[..i + 1], t.name)) && StandAll(t.children[i + 1..])
  {
    var done, next := ShortenedAll(t.children[..i], t.name), Shortened(t.children[i], t.name);
    StandConcat(done, t.children[i + 1..]);
    assert ShortenedAll(t.children[..i + 1], t.name) == done + [next];
    StandConcat(done, [next]);
    StandOne(next);
  }

  lemma ChildrenApart(t: Node, parent: string)
    requires Once(Bag(t)) && Cut(parent) <= |t.name| && NamedAll(t.children, t.name)
    ensures t.dir !in BagAll(ShortenedAll(t.children, t.name))
    ensures Bag(Shortened(t, parent)) == Bag(t) && Leaves(Shortened(t, parent)) == Leaves(t)
    ensures var after := Shortened(t, parent);
      after.children == ShortenedAll(t.children, t.name) && Dirs(after.children) == Dirs(t.children)
  {
    OncePart(Bag(t), multiset{t.dir}, BagAll(t.children));
    ShortenedAllKeeps(t.children, t.name);
    ShortenedBelow(t, parent);
  }

  /** A root and the directories under it: the program's tree as its constructor leaves it to Compact and Shorten. */
  ghost predicate IsRoot(t: Node)
    reads Bag(t)
  {
    IsTree(t) && t.name == "" && t.command.None? && NamedAll(t.children, "")
  }

  /** A whole number of steps of compacting leads from one tree to another. */
  ghost predicate Compacts(before: Node, after: Node) {
    && after == before.(children := after.children) && NamedAll(after.children, before.name)
    && LeavesAll(after.children) == LeavesAll(before.children) && BagAll(after.children) <= BagAll(before.children)
    && StayingAll(after.children) == StayingAll(before.children)
  }

  /** Compacts until nothing can be. */
  method CompactFully(root: Directory, ghost t: Node) returns (ghost compact: Node)
    requires IsRoot(t) && t.dir == root
    modifies Bag(t)
    ensures IsTree(compact) && Compacts(t, compact) && Normal(compact.children)
  {
    compact := t;
    var changed := true;
    while changed
      invariant IsTree(compact) && Compacts(t, compact) && Bag(compact) <= Bag(t)
      invariant !changed ==> Normal(compact.children)
      decreases |Bag(compact)|, changed
    {
      StepCompacts(t, compact);
      changed := root.Compact(null, compact, 0);
      compact := After(compact, CompactFrom(compact.children, 0));
    }
  }

  /**
   The constructor's last two steps: compacts until nothing can be, then shortens. Every command is kept; just those
   directories stay that hold a command themselves, or two directories with commands in them, so that none is empty or
   holds one directory and nothing else; and the names down to any command spell its full name.
   */
  method Arrange(root: Directory, ghost t: Node) returns (ghost arranged: Node)
    requires IsRoot(t) && t.dir == root
    modifies Bag(t)
    ensures arranged.dir == root && IsTree(arranged)
    ensures Leaves(arranged) == Leaves(t) && Bag(arranged) <= Bag(t)
    ensures BagAll(arranged.children) == StayingAll(t.children)
    ensures Normal(arranged.children) && SpellsAll(arranged.children)
  {
    ghost var compact := CompactFully(root, t);
    root.Shorten("", compact);
    arranged := Shortened(compact, "");
    ShortenedRight(compact);
    NormalAllStay(compact.children);
    SameBelow(arranged, compact);
  }

  lemma SameBelow(a: Node, b: Node)
    requires Bag(a) == Bag(b) && a.dir == b.dir
    ensures BagAll(a.children) == BagAll(b.children)
  {
    assert BagAll(a.children) == Bag(a) - multiset{a.dir};
    assert BagAll(b.children) == Bag(b) - multiset{b.dir};
  }

  lemma ShortenedRight(t: Node)
    requires t.name == "" && NamedAll(t.children, "") && Normal(t.children) && Once(Bag(t))
    ensures var after := Shortened(t, "");
      Bag(after) == Bag(t) && Leaves(after) == Leaves(t) && Normal(after.children) && SpellsAll(after.children)
  {
    ChildrenApart(t, "");
    ShortenedAllKeeps(t.children, "");
    forall i | 0 <= i < |t.children| ensures Spells(Shortened(t, "").children[i], "") {
      assert Named(t.children[i], "");
      ShortenedSpells(t.children[i], "");
    }
  }

  /** One more step of compacting: a smaller tree, or one with nothing left to compact. */
  lemma StepCompacts(start: Node, t: Node)
    requires Compacts(start, t) && Once(Bag(t)) && start.name == ""
    ensures var after := After(t, CompactFrom(t.children, 0));
      && Compacts(start, after) && Once(Bag(after)) && Bag(after) <= Bag(t)
      && if CompactFrom(t.children, 0).Some? then |Bag(after)| < |Bag(t)| else after == t && Normal(t.children)
  {
    StuckIsNormal(t.children, 0);
    if CompactFrom(t.children, 0).Some? {
      CompactFewer(t.children, 0, "");
      CompactStays(t.children, 0, "");
      var after := After(t, CompactFrom(t.children, 0));
      OncePart(Bag(t), Bag(after), multiset{});
    }
  }
}
