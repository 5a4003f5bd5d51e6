/**
 From NodeIds to message names: within the broker's limit on routing keys, one name for one node whatever order the
 nodes come in, and no suffixed name that is anybody's base name. Names of structure types get no suffix, and so
 coincide exactly where sanitizing makes them.
 */
module OpcUaNaming {
  import opened Names
  import opened MessageNames

  const MAX_FULL_NAME_LENGTH: nat := 255
  const MAX_NAMESPACE_LENGTH: nat := 160
  const COLLISION_SUFFIX_RESERVE: nat := 4
  const LONGEST_NAME_EXTRA: nat := 8
  const HASH_SUFFIX_LENGTH: nat := 9

  /** Eight hexadecimal digits. */
  type Hash = s: string | |s| == 8 && IsName(s) witness "00000000"

  // ------------------------------------------------------------------------------------------------------------
  // Fitting

  /** Shortens a text, replacing its tail with a hash of where it came from. */
  function Fit(text: string, maxLength: nat, hash: Hash): (fitted: string)
    requires HASH_SUFFIX_LENGTH <= maxLength
    ensures |fitted| <= maxLength && (|text| <= maxLength ==> fitted == text)
    ensures text[..if |text| <= maxLength then |text| else maxLength - HASH_SUFFIX_LENGTH] <= fitted
    ensures |text| > maxLength ==> |fitted| == maxLength && fitted[maxLength - 9..] == "_" + hash
  {
    if |text| <= maxLength then text else text[..maxLength - HASH_SUFFIX_LENGTH] + "_" + hash
  }

  /** Texts cut short come apart again by their hashes, however much they have in common. */
  lemma FitKeepsApart(a: string, b: string, maxLength: nat, hashA: Hash, hashB: Hash)
    requires HASH_SUFFIX_LENGTH <= maxLength && |a| > maxLength && |b| > maxLength && hashA != hashB
    ensures Fit(a, maxLength, hashA) != Fit(b, maxLength, hashB)
  {
    var kept := maxLength - HASH_SUFFIX_LENGTH + 1;
    assert Fit(a, maxLength, hashA)[kept..] == hashA && Fit(b, maxLength, hashB)[kept..] == hashB;
  }

  function Split(text: string): seq<string>
    decreases |text|
  {
    if text == "" then [""]
    else if text[0] == '.' then [""] + Split(text[1..])
    else var rest := Split(text[1..]); if rest == [] then [text] else [[text[0]] + rest[0]] + rest[1..]
  }

  function Join(segments: seq<string>): string {
    if segments == [] then "" else if |segments| == 1 then segments[0] else segments[0] + "." + Join(segments[1..])
  }

  function ToNamespace(exchangeName: string): string {
    var segments := Split(exchangeName);
    Join(seq(|segments|, i requires 0 <= i < |segments| => if segments[i] == "" then "_" else Sanitized(segments[i])))
  }

  lemma {:induction false} JoinSplit(text: string)
    ensures Split(text) != [] && Join(Split(text)) == text
    ensures forall k :: 0 <= k < |Split(text)| ==> '.' !in Split(text)[k]
  {
    if text != "" {
      JoinSplit(text[1..]);
      var rest := Split(text[1..]);
      if text[0] == '.' {
        assert Split(text)[1..] == rest;
      } else {
        assert Split(text)[1..] == rest[1..];
      }
    }
  }

  lemma {:induction false} SplitJoin(segments: seq<string>)
    requires segments != [] && forall k :: 0 <= k < |segments| ==> '.' !in segments[k]
    ensures Split(Join(segments)) == segments
    decreases |segments|, if segments == [] then 0 else |segments[0]|
  {
    var text := Join(segments);
    if segments[0] == "" {
      if |segments| > 1 {
        SplitJoin(segments[1..]);
        assert text[0] == '.' && text[1..] == Join(segments[1..]);
      }
    } else {
      var shorter := [segments[0][1..]] + segments[1..];
      assert forall c :: c in segments[0][1..] ==> c in segments[0];
      SplitJoin(shorter);
      assert text[0] == segments[0][0] && text[1..] == Join(shorter);
      assert Split(text) == [[text[0]] + shorter[0]] + shorter[1..];
      assert [text[0]] + segments[0][1..] == segments[0] && shorter[1..] == segments[1..];
    }
  }

  /** Segment by segment between the dots: sanitized, with an underscore for nothing. */
  lemma NamespaceText(exchangeName: string)
    ensures var given, made := Split(exchangeName), Split(ToNamespace(exchangeName));
      && Join(given) == exchangeName && Join(made) == ToNamespace(exchangeName) && |made| == |given|
      && forall k :: 0 <= k < |given| ==>
           && '.' !in given[k] && '.' !in made[k]
           && made[k] == if given[k] == "" then "_" else Sanitized(given[k])
  {
    var given := Split(exchangeName);
    var made := seq(|given|, i requires 0 <= i < |given| => if given[i] == "" then "_" else Sanitized(given[i]));
    JoinSplit(exchangeName);
    forall k | 0 <= k < |made| ensures '.' !in made[k] {
      assert forall i :: 0 <= i < |made[k]| ==> IsNameChar(made[k][i]);
    }
    SplitJoin(made);
  }

  /** What all full names begin with. */
  function MessageNamespace(exchangeName: string, hash: string -> Hash): (ns: string)
    ensures |ns| <= MAX_NAMESPACE_LENGTH
    ensures var whole := ToNamespace(exchangeName);
      if |whole| <= 160 then ns == whole else |ns| == 160 && ns[151..] == "_" + hash(whole)
  {
    Fit(ToNamespace(exchangeName), MAX_NAMESPACE_LENGTH, hash(ToNamespace(exchangeName)))
  }

  /** Room for the dot, the longer suffix, a collision suffix and the longest message of a node is set aside. */
  function MaxNameLength(ns: string): nat
    requires |ns| <= MAX_NAMESPACE_LENGTH
  {
    MAX_FULL_NAME_LENGTH - |ns| - 1 - |COMMAND_SUFFIX| - COLLISION_SUFFIX_RESERVE - LONGEST_NAME_EXTRA
  }

  /** The names of a node, before collisions are resolved; shortened or not, they start with `Get_`. */
  function ToMessageNames(exchangeName: string, baseText: string, hashSource: string,
                          hash: string -> Hash): (names: MessageNames)
    ensures names.Valid() && names.ns == MessageNamespace(exchangeName, hash)
    ensures baseText != "" ==> GET_PREFIX < names.name
    ensures if |names.ns| + |baseText| <= 230 then names.name == "Get_" + baseText
            else |names.ns| + |names.name| == 234 && names.name[|names.name| - 9..] == "_" + hash(hashSource)
    ensures |names.ns| + 1 + |names.name| + |COMMAND_SUFFIX| + COLLISION_SUFFIX_RESERVE
      + LONGEST_NAME_EXTRA <= MAX_FULL_NAME_LENGTH
  {
    var ns := MessageNamespace(exchangeName, hash);
    var maxNameLength := MaxNameLength(ns);
    var fitted := Fit(GET_PREFIX + baseText, maxNameLength, hash(hashSource));
    assert GET_PREFIX <= fitted by {
      var kept := (GET_PREFIX + baseText)[..if |GET_PREFIX + baseText| <= maxNameLength then |GET_PREFIX + baseText|
                                          else maxNameLength - HASH_SUFFIX_LENGTH];
      assert GET_PREFIX <= kept <= fitted;
    }
    MessageNames(ns, fitted)
  }

  /** Every character is one byte in UTF-8. */
  ghost predicate IsAscii(s: string) {
    forall i :: 0 <= i < |s| ==> s[i] < 128 as char
  }

  lemma {:induction false} JoinedIsAscii(segments: seq<string>)
    requires forall i :: 0 <= i < |segments| ==> IsAscii(segments[i])
    ensures IsAscii(Join(segments))
  {
    if |segments| > 1 {
      JoinedIsAscii(segments[1..]);
      assert forall i :: 0 <= i < |segments[1..]| ==> segments[1..][i] == segments[i + 1];
    }
  }

  lemma NamespaceIsAscii(exchangeName: string, hash: string -> Hash)
    ensures IsAscii(MessageNamespace(exchangeName, hash))
  {
    var segments := Split(exchangeName);
    JoinedIsAscii(seq(|segments|, i requires 0 <= i < |segments| =>
                      if segments[i] == "" then "_" else Sanitized(segments[i])));
  }

  lemma NamesAreAscii(exchangeName: string, baseText: string, hashSource: string, hash: string -> Hash)
    requires IsName(baseText)
    ensures var names := ToMessageNames(exchangeName, baseText, hashSource, hash);
      IsAscii(names.ns) && IsAscii(names.name)
  {
    NamespaceIsAscii(exchangeName, hash);
    var names := ToMessageNames(exchangeName, baseText, hashSource, hash);
    var fitted := Fit(GET_PREFIX + baseText, MaxNameLength(names.ns), hash(hashSource));
    assert names.name == fitted && IsName(fitted);
  }

  lemma SuffixedIsAscii(names: MessageNames, suffix: nat)
    requires names.Valid() && IsAscii(names.name)
    ensures var unique := MessageNames(names.ns, Suffixed(names.name, suffix));
      unique.Valid() && IsAscii(unique.name)
  {
    assert GET_PREFIX <= names.name < Suffixed(names.name, suffix);
  }

  /** So the limit on characters is one on bytes: nothing in a full name, suffixed or not, takes more than one. */
  lemma FullNamesAreAscii(exchangeName: string, baseText: string, hashSource: string, hash: string -> Hash, suffix: nat,
                          kind: Kind)
    requires IsName(baseText)
    ensures var names := ToMessageNames(exchangeName, baseText, hashSource, hash);
            var unique := MessageNames(names.ns, Suffixed(names.name, suffix));
            IsAscii(names.FullName(kind)) && GET_PREFIX <= unique.name && IsAscii(unique.FullName(kind))
  {
    var names := ToMessageNames(exchangeName, baseText, hashSource, hash);
    NamesAreAscii(exchangeName, baseText, hashSource, hash);
    SuffixedIsAscii(names, suffix);
    AsciiFullName(names, kind);
    AsciiFullName(MessageNames(names.ns, Suffixed(names.name, suffix)), kind);
  }

  lemma AsciiFullName(names: MessageNames, kind: Kind)
    requires names.Valid() && IsAscii(names.ns) && IsAscii(names.name)
    ensures IsAscii(names.FullName(kind))
  {
    assert IsAscii(names.Base());
    AffixesAreAscii(kind);
    TypeNameShape(names, kind);
    AsciiJoin(Prefix(kind), names.Base());
    AsciiJoin(Prefix(kind) + names.Base(), Suffix(kind));
    AsciiJoin(names.ns, ".");
    AsciiJoin(names.ns + ".", names.TypeName(kind));
  }

  lemma AffixesAreAscii(kind: Kind)
    ensures IsAscii(Prefix(kind)) && IsAscii(Suffix(kind))
  {}

  lemma AsciiJoin(a: string, b: string)
    requires IsAscii(a) && IsAscii(b)
    ensures IsAscii(a + b)
  {}

  /** Two nodes whose names are both too long to keep get different ones, if only their texts hash differently. */
  lemma ShortenedApart(exchangeName: string, a: string, sourceA: string, b: string, sourceB: string,
                       hash: string -> Hash)
    requires var longest := MaxNameLength(MessageNamespace(exchangeName, hash));
      |GET_PREFIX + a| > longest && |GET_PREFIX + b| > longest
    requires hash(sourceA) != hash(sourceB)
    ensures ToMessageNames(exchangeName, a, sourceA, hash) != ToMessageNames(exchangeName, b, sourceB, hash)
  {
    FitKeepsApart(GET_PREFIX + a, GET_PREFIX + b, MaxNameLength(MessageNamespace(exchangeName, hash)), hash(sourceA),
                  hash(sourceB));
  }

  /**
   Every message of a node, whether its name kept its base form or took a collision suffix up to 999, has a full name
   a routing key can hold.
   */
  lemma FullNamesFit(exchangeName: string, baseText: string, hashSource: string, hash: string -> Hash, suffix: nat,
                     kind: Kind)
    requires suffix < 1000
    ensures var names := ToMessageNames(exchangeName, baseText, hashSource, hash);
            var unique := MessageNames(names.ns, Suffixed(names.name, suffix));
            && |names.FullName(kind)| <= MAX_FULL_NAME_LENGTH
            && GET_PREFIX <= unique.name && |unique.FullName(kind)| <= MAX_FULL_NAME_LENGTH
  {
    var names := ToMessageNames(exchangeName, baseText, hashSource, hash);
    var unique := MessageNames(names.ns, Suffixed(names.name, suffix));
    DecimalLength(suffix);
    assert GET_PREFIX <= unique.name;
    FullNameLength(names, kind);
    FullNameLength(unique, kind);
  }

  /** The longest message of a node is that much longer than its Get command. */
  lemma FullNameLength(names: MessageNames, kind: Kind)
    requires names.Valid()
    ensures |names.FullName(kind)| <= |names.ns| + 1 + |names.name| + |COMMAND_SUFFIX| + LONGEST_NAME_EXTRA
  {
    TypeNameShape(names, kind);
    assert |names.name| == |GET_PREFIX| + |names.Base()|;
  }

  // ------------------------------------------------------------------------------------------------------------
  // Ordinal order of texts

  predicate Leq(a: string, b: string)
    decreases |a|
  {
    a == "" || (b != "" && (a[0] < b[0] || (a[0] == b[0] && Leq(a[1..], b[1..]))))
  }

  /** The texts first differ in their k-th character, which is the lesser one of `a`. */
  ghost predicate LessAt(a: string, b: string, k: nat) {
    k < |a| && k < |b| && a[..k] == b[..k] && a[k] < b[k]
  }

  lemma LessLater(a: string, b: string, k: nat)
    requires a != "" && b != "" && a[0] == b[0]
    ensures LessAt(a[1..], b[1..], k) <==> LessAt(a, b, k + 1)
  {
    if k < |a| - 1 && k < |b| - 1 {
      assert a[..k + 1] == [a[0]] + a[1..][..k] && b[..k + 1] == [b[0]] + b[1..][..k];
      assert a[..k + 1][1..] == a[1..][..k] && b[..k + 1][1..] == b[1..][..k];
    }
  }

  lemma PrefixLater(a: string, b: string)
    requires a != "" && b != "" && a[0] == b[0]
    ensures a <= b <==> a[1..] <= b[1..]
  {
    assert a == [a[0]] + a[1..] && b == [b[0]] + b[1..];
    if a <= b { assert b[..|a|][1..] == b[1..][..|a| - 1]; }
  }

  /**
   One text comes before another if it is the beginning of it, or has the lesser character where they first differ.
   */
  lemma {:induction false} LeqIsOrdinal(a: string, b: string)
    ensures Leq(a, b) <==> a <= b || exists k: nat :: LessAt(a, b, k)
    decreases |a|
  {
    if a != "" && b != "" {
      if a[0] == b[0] {
        LeqIsOrdinal(a[1..], b[1..]);
        PrefixLater(a, b);
        forall k: nat ensures LessAt(a[1..], b[1..], k) <==> LessAt(a, b, k + 1) { LessLater(a, b, k); }
        if k: nat :| LessAt(a, b, k) { assert k > 0 && LessAt(a[1..], b[1..], k - 1); }
      } else if a[0] < b[0] {
        assert LessAt(a, b, 0);
      } else {
        forall k: nat ensures !LessAt(a, b, k) {
          if 0 < k < |a| && k < |b| { assert a[..k][0] != b[..k][0]; }
        }
      }
    }
  }

  lemma {:induction false} LeqTotal(a: string, b: string)
    ensures Leq(a, b) || Leq(b, a)
    decreases |a|
  {
    if a != "" && b != "" { LeqTotal(a[1..], b[1..]); }
  }

  lemma {:induction false} LeqAntisymmetric(a: string, b: string)
    requires Leq(a, b) && Leq(b, a)
    ensures a == b
    decreases |a|
  {
    if a != "" && b != "" {
      LeqAntisymmetric(a[1..], b[1..]);
      assert a == [a[0]] + a[1..] && b == [b[0]] + b[1..];
    }
  }

  lemma {:induction false} LeqTransitive(a: string, b: string, c: string)
    requires Leq(a, b) && Leq(b, c)
    ensures Leq(a, c)
    decreases |a|
  {
    if a != "" && a[0] == b[0] && b[0] == c[0] { LeqTransitive(a[1..], b[1..], c[1..]); }
  }

  // ------------------------------------------------------------------------------------------------------------
  // Requests for names, in text order

  type Key = nat

  /** A key, the text it is ordered by, and the name it would have if nothing collided. */
  datatype Request = Request(key: Key, text: string, base: string)

  ghost predicate Sorted(requests: seq<Request>) {
    forall i, j :: 0 <= i < j < |requests| ==> Leq(requests[i].text, requests[j].text)
  }

  /** Each request is made once, and has a key of its own. */
  ghost predicate KeysTellApart(requests: multiset<Request>) {
    && (forall r :: r in requests ==> requests[r] == 1)
    && (forall r, s :: r in requests && s in requests && r.key == s.key ==> r == s)
  }

  ghost predicate DistinctKeys(requests: seq<Request>) {
    forall i, j :: 0 <= i < j < |requests| ==> requests[i].key != requests[j].key
  }

  ghost predicate TextsTellApart(requests: multiset<Request>) {
    forall r, s :: r in requests && s in requests && r.text == s.text ==> r == s
  }

  lemma KeysAreDistinct(requests: seq<Request>)
    requires KeysTellApart(multiset(requests))
    ensures DistinctKeys(requests)
  {
    forall i, j | 0 <= i < j < |requests| ensures requests[i].key != requests[j].key {
      assert requests[i] in multiset(requests) && requests[j] in multiset(requests);
      assert requests == requests[..j] + requests[j..] && requests[i] in requests[..j] && requests[j] in requests[j..];
    }
  }

  /** Sorted, with the requests of one text kept in the order they came in. */
  method OrderByText(requests: seq<Request>) returns (sorted: seq<Request>)
    ensures Sorted(sorted) && multiset(sorted) == multiset(requests)
  {
    sorted := [];
    for i := 0 to |requests|
      invariant Sorted(sorted) && multiset(sorted) == multiset(requests[..i])
    {
      assert requests[..i + 1] == requests[..i] + [requests[i]];
      sorted := Insert(sorted, requests[i]);
    }
    assert requests[..|requests|] == requests;
  }

  method Insert(sorted: seq<Request>, request: Request) returns (longer: seq<Request>)
    requires Sorted(sorted)
    ensures Sorted(longer) && multiset(longer) == multiset(sorted) + multiset{request}
  {
    var i := |sorted|;
    while i > 0 && !Leq(sorted[i - 1].text, request.text)
      invariant 0 <= i <= |sorted|
      invariant forall j :: i <= j < |sorted| ==> Leq(request.text, sorted[j].text)
    {
      LeqTotal(sorted[i - 1].text, request.text);
      i := i - 1;
    }
    forall j | 0 <= j < i ensures Leq(sorted[j].text, request.text) {
      if j < i - 1 { LeqTransitive(sorted[j].text, sorted[i - 1].text, request.text); }
    }
    longer := sorted[..i] + [request] + sorted[i..];
    Inserted(sorted, i, request);
  }

  lemma Inserted(sorted: seq<Request>, i: nat, request: Request)
    requires Sorted(sorted) && i <= |sorted|
    requires forall j :: 0 <= j < i ==> Leq(sorted[j].text, request.text)
    requires forall j :: i <= j < |sorted| ==> Leq(request.text, sorted[j].text)
    ensures var longer := sorted[..i] + [request] + sorted[i..];
      Sorted(longer) && multiset(longer) == multiset(sorted) + multiset{request}
  {
    var longer := sorted[..i] + [request] + sorted[i..];
    assert sorted == sorted[..i] + sorted[i..];
    forall j, k | 0 <= j < k < |longer| ensures Leq(longer[j].text, longer[k].text) {
      assert j < i ==> longer[j] == sorted[j];
      assert k > i ==> longer[k] == sorted[k - 1];
      assert j > i ==> longer[j] == sorted[j - 1];
      assert k < i ==> longer[k] == sorted[k];
    }
  }

  lemma FirstUnique(a: seq<Request>, b: seq<Request>)
    requires Sorted(a) && Sorted(b) && multiset(a) == multiset(b) && TextsTellApart(multiset(a)) && a != [] && b != []
    ensures a[0] == b[0]
  {
    assert a[0] in multiset(b) && b[0] in multiset(a);
    var i :| 0 <= i < |b| && b[i] == a[0];
    var j :| 0 <= j < |a| && a[j] == b[0];
    if i > 0 && j > 0 {
      LeqAntisymmetric(a[0].text, b[0].text);
    }
  }

  lemma RestSame(a: seq<Request>, b: seq<Request>)
    requires a != [] && b != [] && a[0] == b[0] && multiset(a) == multiset(b)
    ensures multiset(a[1..]) == multiset(b[1..])
  {
    assert a == [a[0]] + a[1..] && b == [b[0]] + b[1..];
    assert multiset(a[1..]) == multiset(a) - multiset{a[0]};
    assert multiset(b[1..]) == multiset(b) - multiset{b[0]};
  }

  lemma SameLength(a: seq<Request>, b: seq<Request>)
    requires multiset(a) == multiset(b)
    ensures |a| == |b|
  {
    assert |a| == |multiset(a)| && |b| == |multiset(b)|;
  }

  lemma RestOrdered(a: seq<Request>)
    requires a != [] && Sorted(a) && TextsTellApart(multiset(a))
    ensures Sorted(a[1..]) && TextsTellApart(multiset(a[1..]))
  {
    assert forall r :: r in multiset(a[1..]) ==> r in a;
  }

  /** With distinct texts there is only one order. */
  lemma {:induction false} SortedUnique(a: seq<Request>, b: seq<Request>)
    requires Sorted(a) && Sorted(b) && multiset(a) == multiset(b) && TextsTellApart(multiset(a))
    ensures a == b
    decreases |a|
  {
    SameLength(a, b);
    if a != [] {
      assert a[0] == b[0] by { FirstUnique(a, b); }
      assert a[1..] == b[1..] by {
        RestSame(a, b);
        RestOrdered(a);
        RestOrdered(b);
        SortedUnique(a[1..], b[1..]);
      }
      assert a == [a[0]] + a[1..] && b == [b[0]] + b[1..];
    }
  }

  // ------------------------------------------------------------------------------------------------------------
  // Assigning unique names

  ghost function Bases(requests: seq<Request>): set<string> {
    set request | request in requests :: request.base
  }

  /** How far the assignment has come: the names nobody may take any more, and the names given out. */
  datatype Progress = Progress(reserved: set<string>, names: map<Key, string>)

  /** One more request: it keeps its base name if nobody holds it yet, and takes the first free suffix otherwise. */
  ghost predicate Assigns(before: Progress, request: Request, after: Progress) {
    if request.base in before.names.Values then
      exists suffix ::
        && IsFirstFree(request.base, before.reserved, suffix)
        && after == Progress(before.reserved + {Suffixed(request.base, suffix)},
                             before.names[request.key := Suffixed(request.base, suffix)])
    else after == Progress(before.reserved, before.names[request.key := request.base])
  }

  /** `steps` is the assignment of the requests in order. */
  ghost predicate IsAssignment(sorted: seq<Request>, steps: seq<Progress>) {
    && |steps| == |sorted| + 1
    && steps[0] == Progress(Bases(sorted), map[])
    && forall i :: 0 <= i < |sorted| ==> Assigns(steps[i], sorted[i], steps[i + 1])
  }

  lemma AssignsDeterministic(before: Progress, request: Request, a: Progress, b: Progress)
    requires Assigns(before, request, a) && Assigns(before, request, b)
    ensures a == b
  {
    if request.base in before.names.Values {
      var m :| IsFirstFree(request.base, before.reserved, m)
        && a == Progress(before.reserved + {Suffixed(request.base, m)},
                         before.names[request.key := Suffixed(request.base, m)]);
      var n :| IsFirstFree(request.base, before.reserved, n)
        && b == Progress(before.reserved + {Suffixed(request.base, n)},
                         before.names[request.key := Suffixed(request.base, n)]);
      assert m == n;
    }
  }

  lemma {:induction false} AssignmentUnique(sorted: seq<Request>, a: seq<Progress>, b: seq<Progress>, n: nat)
    requires IsAssignment(sorted, a) && IsAssignment(sorted, b) && n <= |sorted|
    ensures a[n] == b[n]
  {
    if n > 0 {
      AssignmentUnique(sorted, a, b, n - 1);
      AssignsDeterministic(a[n - 1], sorted[n - 1], a[n], b[n]);
    }
  }

  ghost predicate Injective(names: map<Key, string>) {
    forall j, k :: j in names && k in names && j != k ==> names[j] != names[k]
  }

  ghost predicate IsFirstOfBase(sorted: seq<Request>, i: nat)
    requires i < |sorted|
  {
    forall j :: 0 <= j < i ==> sorted[j].base != sorted[i].base
  }

  /** What has been assigned to the first `n` requests. */
  ghost predicate AssignedSoFar(sorted: seq<Request>, n: nat, progress: Progress)
    requires n <= |sorted|
  {
    && Bases(sorted) <= progress.reserved && progress.names.Values <= progress.reserved
    && Injective(progress.names) && NamedSoFar(sorted, n, progress.names)
  }

  /** The first `n` requests, and no others, have names, and each has its right one. */
  ghost predicate NamedSoFar(sorted: seq<Request>, n: nat, names: map<Key, string>)
    requires n <= |sorted|
  {
    && (forall key :: key in names ==> IsKeyOf(sorted, n, key))
    && (forall i {:trigger IsNamed(sorted, i, names)} :: 0 <= i < n ==> IsNamed(sorted, i, names))
  }

  /** A request has its right name. */
  ghost predicate IsNamed(sorted: seq<Request>, i: nat, names: map<Key, string>)
    requires i < |sorted|
  {
    sorted[i].key in names && RightName(sorted, i, names[sorted[i].key])
  }

  /** `key` is that of one of the first `n` requests. */
  ghost predicate IsKeyOf(sorted: seq<Request>, n: nat, key: Key)
    requires n <= |sorted|
  {
    exists i :: 0 <= i < n && sorted[i].key == key
  }

  /** The first of a base name keeps it; every other takes a suffixed name that is nobody's base name. */
  ghost predicate RightName(sorted: seq<Request>, i: nat, name: string)
    requires i < |sorted|
  {
    if IsFirstOfBase(sorted, i) then name == sorted[i].base
    else name !in Bases(sorted) && exists suffix :: suffix >= 2 && name == Suffixed(sorted[i].base, suffix)
  }

  lemma BaseInBases(sorted: seq<Request>, i: nat)
    requires i < |sorted|
    ensures sorted[i].base in Bases(sorted)
  {
    assert sorted[i] in sorted;
  }

  /** A base name is held by somebody exactly when an earlier request has it too. */
  lemma HeldIffEarlier(sorted: seq<Request>, n: nat, progress: Progress)
    requires n < |sorted| && AssignedSoFar(sorted, n, progress)
    ensures sorted[n].base in progress.names.Values <==> !IsFirstOfBase(sorted, n)
  {
    var base := sorted[n].base;
    BaseInBases(sorted, n);
    if base in progress.names.Values {
      var key :| key in progress.names && progress.names[key] == base;
      var i :| 0 <= i < n && sorted[i].key == key;
      assert IsNamed(sorted, i, progress.names);
      assert sorted[i].base == base;
    }
    if !IsFirstOfBase(sorted, n) {
      var j: nat :| j < n && sorted[j].base == base;
      var first := FirstOfBase(sorted, j);
      assert IsNamed(sorted, first, progress.names);
    }
  }

  lemma {:induction false} FirstOfBase(sorted: seq<Request>, j: nat) returns (first: nat)
    requires j < |sorted|
    ensures first <= j && sorted[first].base == sorted[j].base && IsFirstOfBase(sorted, first)
  {
    if IsFirstOfBase(sorted, j) { return j; }
    var earlier: nat :| earlier < j && sorted[earlier].base == sorted[j].base;
    first := FirstOfBase(sorted, earlier);
  }

  ghost predicate IsNextName(request: Request, before: Progress, name: string) {
    if request.base in before.names.Values then
      exists suffix :: IsFirstFree(request.base, before.reserved, suffix) && name == Suffixed(request.base, suffix)
    else name == request.base
  }

  /** The name the next request gets is right, and nobody has it: adding it never meets a duplicate. */
  lemma NextName(sorted: seq<Request>, n: nat, before: Progress, name: string)
    requires n < |sorted| && DistinctKeys(sorted) && AssignedSoFar(sorted, n, before)
    requires IsNextName(sorted[n], before, name)
    ensures RightName(sorted, n, name) && name !in before.names.Values && sorted[n].key !in before.names
  {
    HeldIffEarlier(sorted, n, before);
  }

  lemma InjectiveExtend(names: map<Key, string>, key: Key, name: string)
    requires Injective(names) && key !in names && name !in names.Values
    ensures Injective(names[key := name]) && names[key := name].Values <= names.Values + {name}
  {
    var longer := names[key := name];
    forall j, k | j in longer && k in longer && j != k ensures longer[j] != longer[k] {
      assert j != key ==> longer[j] in names.Values;
      assert k != key ==> longer[k] in names.Values;
    }
  }

  lemma NextAssigned(sorted: seq<Request>, n: nat, before: Progress, name: string)
    requires n < |sorted| && DistinctKeys(sorted) && AssignedSoFar(sorted, n, before)
    requires RightName(sorted, n, name) && name !in before.names.Values && sorted[n].key !in before.names
    ensures AssignedSoFar(sorted, n + 1, Progress(before.reserved + {name}, before.names[sorted[n].key := name]))
  {
    InjectiveExtend(before.names, sorted[n].key, name);
    NamedStep(sorted, n, before.names, name);
  }

  lemma KeysStep(sorted: seq<Request>, n: nat, names: map<Key, string>, longer: map<Key, string>)
    requires n < |sorted| && longer.Keys == names.Keys + {sorted[n].key}
    requires forall key :: key in names ==> IsKeyOf(sorted, n, key)
    ensures forall key :: key in longer ==> IsKeyOf(sorted, n + 1, key)
  {
    forall key | key in longer ensures IsKeyOf(sorted, n + 1, key) {
      assert key == sorted[n].key || IsKeyOf(sorted, n, key);
    }
  }

  lemma NamedStep(sorted: seq<Request>, n: nat, names: map<Key, string>, name: string)
    requires n < |sorted| && DistinctKeys(sorted) && NamedSoFar(sorted, n, names) && RightName(sorted, n, name)
    ensures NamedSoFar(sorted, n + 1, names[sorted[n].key := name])
  {
    var longer := names[sorted[n].key := name];
    KeysStep(sorted, n, names, longer);
    forall i | 0 <= i < n + 1 ensures IsNamed(sorted, i, longer) {
      assert i == n || (IsNamed(sorted, i, names) && sorted[i].key != sorted[n].key);
    }
  }

  /** `names` is what assigning the requests in text order gives. */
  ghost predicate IsAssignedFrom(requests: multiset<Request>, names: map<Key, string>) {
    exists sorted: seq<Request>, steps: seq<Progress> :: Sorted(sorted) && multiset(sorted) == requests
      && IsAssignment(sorted, steps) && names == steps[|sorted|].names
  }

  /** One request's name, given what is reserved and held. */
  method NameFor(base: string, reserved: set<string>, holders: set<string>) returns (name: string)
    ensures if base in holders then exists suffix ::
      IsFirstFree(base, reserved, suffix) && name == Suffixed(base, suffix) else name == base
    ensures base in holders && base + "_2" !in reserved ==> name == base + "_2"
  {
    name := base;
    assert Suffixed(base, 2) == base + "_2" by { assert Decimal(2) == "2"; }
    if base in holders {
      var suffix := FirstFreeSuffix(base, reserved);
      assert IsFirstFree(base, reserved, suffix);
      name := Suffixed(base, suffix);
    }
  }

  /** The names given out so far, with what the assignment keeps track of beside them. */
  ghost predicate Tracks(sorted: seq<Request>, i: nat, reserved: set<string>, holders: set<string>,
                         names: map<Key, string>, steps: seq<Progress>)
    requires i <= |sorted|
  {
    && AssignedSoFar(sorted, i, Progress(reserved, names)) && holders == names.Values
    && |steps| == i + 1 && steps[0] == Progress(Bases(sorted), map[]) && steps[i] == Progress(reserved, names)
    && forall j :: 0 <= j < i ==> Assigns(steps[j], sorted[j], steps[j + 1])
  }

  lemma TracksNext(sorted: seq<Request>, i: nat, reserved: set<string>, holders: set<string>, names: map<Key, string>,
                   steps: seq<Progress>, name: string, holders': set<string>)
    requires i < |sorted| && DistinctKeys(sorted) && Tracks(sorted, i, reserved, holders, names, steps)
    requires IsNextName(sorted[i], Progress(reserved, names), name) && holders' == names[sorted[i].key := name].Values
    ensures var after := Progress(reserved + {name}, names[sorted[i].key := name]);
      Tracks(sorted, i + 1, after.reserved, holders', after.names, steps + [after])
  {
    var before, after := Progress(reserved, names), Progress(reserved + {name}, names[sorted[i].key := name]);
    NextName(sorted, i, before, name);
    NextAssigned(sorted, i, before, name);
    assert Assigns(before, sorted[i], after) by {
      BaseInBases(sorted, i);
      assert sorted[i].base !in holders ==> after.reserved == reserved;
    }
    var longer := steps + [after];
    forall j | 0 <= j < i + 1 ensures Assigns(longer[j], sorted[j], longer[j + 1]) {
      if j < i { assert longer[j] == steps[j] && longer[j + 1] == steps[j + 1]; }
    }
  }

  method AssignNext(sorted: seq<Request>, i: nat, reserved: set<string>, holders: set<string>, names: map<Key, string>,
                    ghost steps: seq<Progress>)
    returns (reserved': set<string>, holders': set<string>, names': map<Key, string>, ghost steps': seq<Progress>)
    requires i < |sorted| && DistinctKeys(sorted) && Tracks(sorted, i, reserved, holders, names, steps)
    ensures Tracks(sorted, i + 1, reserved', holders', names', steps')
  {
    var name := NameFor(sorted[i].base, reserved, holders);
    NextName(sorted, i, Progress(reserved, names), name);
    holders' := AddHolder(holders, name, names, sorted[i].key);
    reserved' := reserved + {name};
    names' := names[sorted[i].key := name];
    steps' := steps + [Progress(reserved', names')];
    TracksNext(sorted, i, reserved, holders, names, steps, name, holders');
  }

  method AssignSorted(sorted: seq<Request>) returns (names: map<Key, string>, ghost steps: seq<Progress>)
    requires DistinctKeys(sorted)
    ensures IsAssignment(sorted, steps) && names == steps[|sorted|].names
    ensures Injective(names) && NamesRight(sorted, names)
  {
    var reserved := set request | request in sorted :: request.base;
    var holders: set<string> := {};
    names := map[];
    steps := [Progress(reserved, names)];
    for i := 0 to |sorted|
      invariant Tracks(sorted, i, reserved, holders, names, steps)
    {
      reserved, holders, names, steps := AssignNext(sorted, i, reserved, holders, names, steps);
    }
  }

  /**
   Gives every key a name of its own: in text order, the first of each base name keeps it, and every other takes the
   first suffixed name that is neither anybody's base name nor taken.
   */
  method AssignUnique(requests: seq<Request>) returns (names: map<Key, string>)
    requires KeysTellApart(multiset(requests))
    ensures IsAssignedFrom(multiset(requests), names)
    ensures Injective(names)
    ensures exists sorted :: Sorted(sorted) && multiset(sorted) == multiset(requests) && NamesRight(sorted, names)
  {
    var sorted := OrderByText(requests);
    KeysAreDistinct(sorted);
    ghost var steps;
    names, steps := AssignSorted(sorted);
  }

  function AddHolder(holders: set<string>, name: string, ghost names: map<Key, string>,
                     ghost key: Key): (after: set<string>)
    requires holders == names.Values && name !in holders && key !in names
    ensures after == names[key := name].Values
  {
    assert names[key := name].Values == names.Values + {name} by {
      forall n | n in names.Values + {name} ensures n in names[key := name].Values {
        if n == name {
          assert names[key := name][key] == n;
        } else {
          var k :| k in names && names[k] == n;
          assert names[key := name][k] == n;
        }
      }
    }
    holders + {name}
  }

  /** Every request has its right name, and nothing else has one. */
  ghost predicate NamesRight(sorted: seq<Request>, names: map<Key, string>) {
    NamedSoFar(sorted, |sorted|, names)
  }

  /** As long as texts are distinct, the names do not depend on the order the requests come in. */
  lemma AssignmentIgnoresOrder(requests: multiset<Request>, a: map<Key, string>, b: map<Key, string>)
    requires TextsTellApart(requests) && IsAssignedFrom(requests, a) && IsAssignedFrom(requests, b)
    ensures a == b
  {
    var sortedA: seq<Request>, stepsA: seq<Progress> :| Sorted(sortedA) && multiset(sortedA) == requests
      && IsAssignment(sortedA, stepsA) && a == stepsA[|sortedA|].names;
    var sortedB: seq<Request>, stepsB: seq<Progress> :| Sorted(sortedB) && multiset(sortedB) == requests
      && IsAssignment(sortedB, stepsB) && b == stepsB[|sortedB|].names;
    SortedUnique(sortedA, sortedB);
    AssignmentUnique(sortedA, stepsA, stepsB, |sortedA|);
  }
}
