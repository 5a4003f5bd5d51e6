/** Monitors as clients ask for them, and what became of asking. */
module Monitors {
  import opened Options

  type Sender = string
  type NodeText = string
  type ReplyTo = string
  type Interval = int
  type Time = int

  /** A sender and a node: what tells monitors apart. */
  datatype MonitorKey = MonitorKey(sender: Sender, node: NodeText)

  datatype MonitorParameters = MonitorParameters(publishingInterval: Interval, settings: nat)

  datatype MonitorDefinition = MonitorDefinition(key: MonitorKey, parameters: MonitorParameters, replyTo: ReplyTo,
                                                 suspendedSince: Option<Time>) {
    predicate IsSuspended() {
      suspendedSince.Some?
    }
  }

  datatype ApplyResult = Active | Failed | Pending

  function KeysOf(definitions: seq<MonitorDefinition>): set<MonitorKey> {
    set definition | definition in definitions :: definition.key
  }

  ghost predicate DistinctKeys(definitions: seq<MonitorDefinition>) {
    forall i, j :: 0 <= i < j < |definitions| ==> definitions[i].key != definitions[j].key
  }

  lemma KeysOfAppend(definitions: seq<MonitorDefinition>, d: MonitorDefinition)
    ensures KeysOf(definitions + [d]) == KeysOf(definitions) + {d.key}
    ensures DistinctKeys(definitions) && d.key !in KeysOf(definitions) ==> DistinctKeys(definitions + [d])
  {
    assert forall i :: 0 <= i < |definitions| ==> definitions[i] in definitions;
  }

  lemma KeysOfNext(definitions: seq<MonitorDefinition>, i: nat)
    requires DistinctKeys(definitions) && i < |definitions|
    ensures definitions[..i + 1] == definitions[..i] + [definitions[i]] && definitions[..i + 1][..i] == definitions[..i]
    ensures KeysOf(definitions[..i + 1]) == KeysOf(definitions[..i]) + {definitions[i].key}
    ensures definitions[i].key !in KeysOf(definitions[..i])
  {}

  /** Some definitions parted in two: those that belong to a group, and the others, each in the order they came in. */
  ghost predicate Parted(definitions: seq<MonitorDefinition>, belongs: MonitorDefinition -> bool,
                         group: seq<MonitorDefinition>, others: seq<MonitorDefinition>) {
    && DistinctKeys(group) && DistinctKeys(others) && |group| + |others| == |definitions|
    && KeysOf(group) + KeysOf(others) == KeysOf(definitions) && KeysOf(group) !! KeysOf(others)
    && (forall d :: d in group <==> d in definitions && belongs(d))
    && (forall d :: d in others <==> d in definitions && !belongs(d))
  }

  lemma PartedNext(definitions: seq<MonitorDefinition>, belongs: MonitorDefinition -> bool,
                   group: seq<MonitorDefinition>, others: seq<MonitorDefinition>, d: MonitorDefinition)
    requires Parted(definitions, belongs, group, others) && d.key !in KeysOf(definitions)
    ensures belongs(d) ==> Parted(definitions + [d], belongs, group + [d], others)
    ensures !belongs(d) ==> Parted(definitions + [d], belongs, group, others + [d])
  {
    KeysOfAppend(definitions, d);
    KeysOfAppend(group, d);
    KeysOfAppend(others, d);
  }

  /** One step of grouping: the definitions that belong together come out, and none is lost or listed twice. */
  method Partition(definitions: seq<MonitorDefinition>, belongs: MonitorDefinition -> bool)
    returns (group: seq<MonitorDefinition>, others: seq<MonitorDefinition>)
    requires DistinctKeys(definitions)
    ensures Parted(definitions, belongs, group, others)
  {
    group, others := [], [];
    for i := 0 to |definitions|
      invariant Parted(definitions[..i], belongs, group, others)
    {
      KeysOfNext(definitions, i);
      PartedNext(definitions[..i], belongs, group, others, definitions[i]);
      if belongs(definitions[i]) {
        group := group + [definitions[i]];
      } else {
        others := others + [definitions[i]];
      }
    }
    assert definitions[..|definitions|] == definitions;
  }
}
