/**
 Subscriptions and their items in one session. Whichever requests the server refuses, and wherever a request fails as a
 whole, the intervals with a subscription are exactly those of the monitors there are, no subscription is empty, and
 each monitor has been told what the server said of it.
 */
module OpcUaMonitorManager {
  import opened Options
  import opened Monitors
  import opened Sequences

  const LIFETIME_COUNT: nat := 100
  const SESSION_TIMEOUT_MILLISECONDS: nat := 60_000

  /** A double cast to an int: it loses its fraction, and stops at the ends of the range. */
  function AsInt32(d: real): int {
    if d >= 2147483647.0 then 2147483647
    else if d <= -2147483648.0 then -2147483648
    else if d >= 0.0 then d.Floor
    else -(-d).Floor
  }

  /** The number of publishing intervals a subscription survives without a publish request. */
  function LifetimeCountFor(publishingInterval: real): nat {
    var step := if AsInt32(publishingInterval) > 1 then AsInt32(publishingInterval) else 1;
    var rounds := (SESSION_TIMEOUT_MILLISECONDS + step - 1) / step;
    if rounds > LIFETIME_COUNT then rounds else LIFETIME_COUNT
  }

  lemma Scaled(a: nat, b: nat, step: nat)
    requires a <= b
    ensures a * step <= b * step
  {}

  /**
   Count times interval -- the interval being cast in the same way when it is asked for -- covers the session's timeout
   exactly from one millisecond on: of less nothing is left.
   */
  lemma LifetimeOutlastsSession(publishingInterval: real)
    ensures LifetimeCountFor(publishingInterval) * AsInt32(publishingInterval) >= SESSION_TIMEOUT_MILLISECONDS <==>
      publishingInterval >= 1.0
  {
    var interval := AsInt32(publishingInterval);
    if interval >= 1 {
      var total := SESSION_TIMEOUT_MILLISECONDS + interval - 1;
      var rounds := total / interval;
      assert rounds * interval + total % interval == total;
      Scaled(rounds, LifetimeCountFor(publishingInterval), interval);
    } else {
      NotPositive(LifetimeCountFor(publishingInterval), interval);
    }
  }

  /** And the count is no greater than that takes, nor less than a hundred. */
  lemma LifetimeIsLeast(publishingInterval: real)
    ensures var count, interval := LifetimeCountFor(publishingInterval), AsInt32(publishingInterval);
      count >= 100 && (count == 100 || (count - 1) * (if interval > 1 then interval else 1) < 60000)
  {
    var step := if AsInt32(publishingInterval) > 1 then AsInt32(publishingInterval) else 1;
    var total := SESSION_TIMEOUT_MILLISECONDS + step - 1;
    assert total / step * step + total % step == total;
    assert (total / step - 1) * step == total / step * step - step;
  }

  lemma NotPositive(a: nat, b: int)
    requires b <= 0
    ensures a * b <= 0
  {}

  class MonitoredItem {
    const key: MonitorKey

    constructor (key: MonitorKey)
      ensures this.key == key
    {
      this.key := key;
    }
  }

  class Subscription {
    const interval: Interval
    var items: set<MonitoredItem>

    constructor (interval: Interval)
      ensures this.interval == interval && items == {}
    {
      this.interval, items := interval, {};
    }
  }

  datatype Entry = Entry(item: MonitoredItem, subscription: Subscription, interval: Interval)

  /**
   What became of a request: it failed as a whole, on a session still connected or not, or some items were refused.
   */
  datatype Answer = Broken(connected: bool) | Done(refused: set<MonitorKey>)

  /** A request made to the server. Items are created and modified with their settings. */
  datatype Exchange =
    | CreateSubscription(interval: Interval, answer: Answer)
    | CreateItems(interval: Interval, asked: map<MonitorKey, nat>, answer: Answer)
    | ModifyItem(key: MonitorKey, settings: nat, answer: Answer)
    | SetMode(key: MonitorKey, answer: Answer)
    | DisableItem(key: MonitorKey, answer: Answer)
    | DeleteItem(key: MonitorKey)
    | DeleteSubscription(interval: Interval)

  /**
   What a monitor is told. Of a request that failed as a whole it is told Pending if the connection is gone too, and
   Failed if it is not.
   */
  function ResultOf(answer: Answer, key: MonitorKey): (r: ApplyResult)
    ensures r.Pending? <==> answer == Broken(false)
    ensures r.Failed? <==> answer == Broken(true) || (answer.Done? && key in answer.refused)
  {
    match answer
    case Broken(connected) => if connected then ApplyResult.Failed else Pending
    case Done(refused) => if key in refused then ApplyResult.Failed else Active
  }

  /** What a request says of a monitor: all that depends on the connection or on the item, as the answer has it. */
  predicate Says(answer: Answer, key: MonitorKey, result: ApplyResult) {
    match result
    case Pending => answer == Broken(false)
    case Failed => answer == Broken(true) || (answer.Done? && key in answer.refused)
    case Active => answer.Done? && key !in answer.refused
  }

  /** A request on which it depends what becomes of a monitor. */
  predicate Concerns(exchange: Exchange, definition: MonitorDefinition) {
    match exchange
    case CreateSubscription(interval, answer) => interval == definition.parameters.publishingInterval && answer.Broken?
    case CreateItems(interval, asked, _) =>
      && interval == definition.parameters.publishingInterval
      && definition.key in asked && asked[definition.key] == definition.parameters.settings
    case ModifyItem(key, settings, _) => key == definition.key && settings == definition.parameters.settings
    case SetMode(key, answer) => key == definition.key && answer.Broken?
    case _ => false
  }

  /** The k-th request is the last of those since `before` on which it depends what becomes of a monitor. */
  ghost predicate Decides(before: seq<Exchange>, after: seq<Exchange>, k: nat, definition: MonitorDefinition) {
    && |before| <= k < |after| && Concerns(after[k], definition)
    && forall j :: k < j < |after| ==> !Concerns(after[j], definition)
  }

  /**
   A monitor was told what the server said of it in the last request, since `before`, on which that depends; or, if its
   NodeId is not one, that it has failed.
   */
  ghost predicate Told(before: seq<Exchange>, after: seq<Exchange>, parses: NodeText -> bool,
                       definition: MonitorDefinition, result: ApplyResult)
  {
    if !parses(definition.key.node) then result.Failed?
    else exists k: nat :: Decides(before, after, k, definition) && Says(after[k].answer, definition.key, result)
  }

  /**
   Said in full. What a monitor is told is decided by the creation of its subscription, if that failed; or else by the
   request that created the items of its interval, with its settings; or, if it was there already, by the change of its
   settings, unless setting its mode failed after that. It is Pending exactly if that request broke on a session no
   longer connected, and Failed exactly if it broke on one that is, or refused this item.
   */
  lemma ToldMeans(before: seq<Exchange>, after: seq<Exchange>, parses: NodeText -> bool,
                  definition: MonitorDefinition, result: ApplyResult) returns (k: nat, answer: Answer)
    requires parses(definition.key.node) && Told(before, after, parses, definition, result)
    ensures |before| <= k < |after|
    ensures var key, interval := definition.key, definition.parameters.publishingInterval;
      || (after[k] == CreateSubscription(interval, answer) && answer.Broken?)
      || (exists asked: map<MonitorKey, nat> ::
           after[k] == CreateItems(interval, asked, answer) && key in asked
             && asked[key] == definition.parameters.settings)
      || (after[k] == ModifyItem(key, definition.parameters.settings, answer)
          && forall mode :: SetMode(key, mode) in after[k..] ==> mode.Done?)
      || (after[k] == SetMode(key, answer) && answer.Broken?)
    ensures result.Pending? <==> answer == Broken(false)
    ensures result.Failed? <==> answer == Broken(true) || (answer.Done? && definition.key in answer.refused)
  {
    k :| Decides(before, after, k, definition) && Says(after[k].answer, definition.key, result);
    answer := after[k].answer;
    match after[k] {
      case CreateItems(interval, asked, _) => assert after[k] == CreateItems(interval, asked, answer);
      case ModifyItem(key, _, _) =>
        forall mode | SetMode(key, mode) in after[k..] ensures mode.Done? {
          var j :| 0 <= j < |after[k..]| && after[k..][j] == SetMode(key, mode);
          assert j > 0 && !Concerns(after[k + j], definition);
        }
      case _ =>
    }
  }

  /**
   What changing an item takes: one request, and, when that went through and the item's monitoring mode is another than
   it should be, a second one for the mode. What it says of the item counts, or else the failure of either.
   */
  ghost predicate Modified(before: seq<Exchange>, after: seq<Exchange>, definition: MonitorDefinition,
                           result: ApplyResult)
  {
    var key := definition.key;
    || (exists answer: Answer ::
         after == before + [ModifyItem(key, definition.parameters.settings, answer)] && result == ResultOf(answer, key))
    || (exists answer: Answer, mode: Answer ::
          && answer.Done?
          && after == before + [ModifyItem(key, definition.parameters.settings, answer), SetMode(key, mode)]
          && result == ResultOf(if mode.Broken? then mode else answer, key))
  }

  lemma ModifiedTold(before: seq<Exchange>, after: seq<Exchange>, parses: NodeText -> bool,
                     definition: MonitorDefinition, result: ApplyResult)
    requires Modified(before, after, definition, result) && parses(definition.key.node)
    ensures before <= after && Told(before, after, parses, definition, result)
  {
    var n := |before|;
    assert after[n].ModifyItem?;
    var k := if |after| == n + 2 && after[n + 1].answer.Broken? then n + 1 else n;
    assert Decides(before, after, k, definition) && Says(after[k].answer, definition.key, result);
  }

  /** What was asked earlier does not matter, nor what is asked later if it depends on none of that. */
  lemma ToldStill(before: seq<Exchange>, start: seq<Exchange>, end: seq<Exchange>, after: seq<Exchange>,
                  parses: NodeText -> bool, definition: MonitorDefinition, result: ApplyResult)
    requires before <= start && end <= after && Told(start, end, parses, definition, result)
    requires forall j :: |end| <= j < |after| ==> !Concerns(after[j], definition)
    ensures Told(before, after, parses, definition, result)
  {
    if parses(definition.key.node) {
      var k: nat :| Decides(start, end, k, definition) && Says(end[k].answer, definition.key, result);
      assert after[k] == end[k];
      forall j | k < j < |after| ensures !Concerns(after[j], definition) {
        if j < |end| { assert after[j] == end[j]; }
      }
      assert Decides(before, after, k, definition) && Says(after[k].answer, definition.key, result);
    }
  }

  /** What is asked of the server for some definitions: those whose NodeId can be parsed, with their settings. */
  function AskedOf(definitions: seq<MonitorDefinition>, parses: NodeText -> bool): map<MonitorKey, nat> {
    if definitions == [] then map[]
    else
      var last := definitions[|definitions| - 1];
      var asked := AskedOf(definitions[..|definitions| - 1], parses);
      if parses(last.key.node) then asked[last.key := last.parameters.settings] else asked
  }

  lemma {:induction false} AskedOfIs(definitions: seq<MonitorDefinition>, parses: NodeText -> bool,
                                     d: MonitorDefinition)
    requires DistinctKeys(definitions) && d in definitions
    ensures var asked := AskedOf(definitions, parses);
      (d.key in asked <==> parses(d.key.node)) && (d.key in asked ==> asked[d.key] == d.parameters.settings)
  {
    var n := |definitions| - 1;
    var i :| 0 <= i < |definitions| && definitions[i] == d;
    if i < n {
      assert definitions[..n][i] == d && definitions[i].key != definitions[n].key;
      AskedOfIs(definitions[..n], parses, d);
    } else {
      AskedOfOthers(definitions[..n], parses, d.key);
    }
  }

  lemma {:induction false} AskedOfOthers(definitions: seq<MonitorDefinition>, parses: NodeText -> bool, key: MonitorKey)
    requires forall i :: 0 <= i < |definitions| ==> definitions[i].key != key
    ensures key !in AskedOf(definitions, parses)
  {
    if definitions != [] { AskedOfOthers(definitions[..|definitions| - 1], parses, key); }
  }

  /**
   The requests that creating monitored items takes: none without items; a subscription, if its interval has none
   yet; then, unless that failed, one request for all the items. The last of them gives the answer.
   */
  ghost predicate IsCreation(asking: seq<Exchange>, interval: Interval, exists_: bool, asked: map<MonitorKey, nat>) {
    if asked == map[] then asking == []
    else if exists_ then |asking| == 1 && IsCreateItems(asking[0], interval, asked)
    else
      && 1 <= |asking| <= 2 && asking[0].CreateSubscription? && asking[0].interval == interval
      && (|asking| == 1 <==> asking[0].answer.Broken?) && (|asking| == 2 ==> IsCreateItems(asking[1], interval, asked))
  }

  predicate IsCreateItems(exchange: Exchange, interval: Interval, asked: map<MonitorKey, nat>) {
    exchange.CreateItems? && exchange.interval == interval && exchange.asked == asked
  }

  /** What the requests of a creation say of a monitor. */
  ghost function Said(asking: seq<Exchange>, key: MonitorKey): ApplyResult
    requires asking != [] && (asking[|asking| - 1].CreateItems? || asking[|asking| - 1].CreateSubscription?)
  {
    ResultOf(asking[|asking| - 1].answer, key)
  }

  class Manager {
    /** Whether a NodeId's text can be parsed. */
    const parses: NodeText -> bool
    var subscriptions: map<Interval, Subscription>
    var entries: map<MonitorKey, Entry>
    /** Every request made to the server. */
    var log: seq<Exchange>

    constructor (parses: NodeText -> bool)
      ensures this.parses == parses && Valid() && entries == map[] && subscriptions == map[] && log == []
    {
      this.parses, subscriptions, entries, log := parses, map[], map[], [];
    }

    static method AnyAnswer() returns (answer: Answer) {
      answer := *;
    }

    /** Entries and subscriptions agree, but for `extra` items on one interval's subscription that have no entry. */
    ghost predicate Linked(interval: Interval, extra: set<MonitoredItem>)
      reads this`subscriptions, this`entries, subscriptions.Values
    {
      && (forall key {:trigger EntryOk(key)} :: key in entries ==> EntryOk(key))
      && (forall i :: i in subscriptions ==> subscriptions[i].interval == i)
      && (forall i, item {:trigger Backed(i, item)} :: i in subscriptions && item in subscriptions[i].items ==>
          Backed(i, item) || (i == interval && item in extra))
    }

    ghost predicate EntryOk(key: MonitorKey)
      reads this`subscriptions, this`entries, subscriptions.Values
      requires key in entries
    {
      var entry := entries[key];
      && entry.item.key == key && parses(key.node)
      && entry.interval in subscriptions && subscriptions[entry.interval] == entry.subscription
      && entry.item in subscriptions[entry.interval].items
    }

    ghost predicate Backed(interval: Interval, item: MonitoredItem)
      reads this`subscriptions, this`entries
    {
      item.key in entries && entries[item.key].item == item && entries[item.key].interval == interval
    }

    ghost predicate NoneEmpty(but: set<Interval>)
      reads this`subscriptions, this`entries, subscriptions.Values
    {
      forall i :: i in subscriptions && i !in but ==> subscriptions[i].items != {}
    }

    ghost predicate Valid()
      reads this`subscriptions, this`entries, subscriptions.Values
    {
      Linked(0, {}) && NoneEmpty({})
    }

    /**
     The intervals with a subscription are exactly those of some entry, and each subscription's items are exactly
     its entries' items.
     */
    lemma ValidMeans(interval: Interval)
      requires Valid()
      ensures interval in subscriptions <==> exists key :: key in entries && entries[key].interval == interval
      ensures interval in subscriptions ==>
                subscriptions[interval].items == set key | key in entries
                  && entries[key].interval == interval :: entries[key].item
    {
      forall key | key in entries && entries[key].interval == interval ensures interval in subscriptions {
        assert EntryOk(key);
      }
      if interval in subscriptions {
        var item :| item in subscriptions[interval].items;
        assert Backed(interval, item);
        forall key | key in entries && entries[key].interval == interval
          ensures entries[key].item in subscriptions[interval].items
        {
          assert EntryOk(key);
        }
        forall other | other in subscriptions[interval].items
          ensures exists key :: key in entries && entries[key].interval == interval && entries[key].item == other
        {
          assert Backed(interval, other);
        }
      }
    }

    /** Deletes the subscription of an interval no entry uses any more. */
    method DeleteIfEmpty(interval: Interval)
      requires Linked(interval, {}) && NoneEmpty({interval})
      modifies this`subscriptions, this`log
      ensures Valid() && subscriptions.Values <= old(subscriptions.Values)
      ensures interval !in old(subscriptions) ==> subscriptions == old(subscriptions)
      ensures log == old(log) + if interval in old(subscriptions) && interval !in subscriptions then
        [DeleteSubscription(interval)] else []
    {
      if interval in subscriptions && subscriptions[interval].items == {} {
        forall key | key in entries ensures entries[key].interval != interval {
          assert EntryOk(key);
        }
        subscriptions := subscriptions - {interval};
        log := log + [DeleteSubscription(interval)];
        forall key | key in entries ensures EntryOk(key) {
          assert old(EntryOk(key));
        }
        forall i, item | i in subscriptions && item in subscriptions[i].items ensures Backed(i, item) {
          assert old(Backed(i, item));
        }
      }
    }

    method RemoveEntry(key: MonitorKey)
      requires Valid() && key in entries
      modifies this, subscriptions.Values
      ensures Valid() && entries == old(entries) - {key}
      ensures subscriptions.Values <= old(subscriptions.Values)
      ensures var interval := old(entries)[key].interval;
        log == old(log) + [DeleteItem(key)] + if interval in subscriptions then [] else [DeleteSubscription(interval)]
    {
      var entry := entries[key];
      assert EntryOk(key);
      entries := entries - {key};
      entry.subscription.items := entry.subscription.items - {entry.item};
      log := log + [DeleteItem(key)];
      forall k | k in entries ensures EntryOk(k) {
        assert old(EntryOk(k));
      }
      forall i, item | i in subscriptions && item in subscriptions[i].items ensures Backed(i, item) {
        assert old(Backed(i, item));
      }
      DeleteIfEmpty(entry.interval);
    }

    /** The subscription of an interval, created on first use; the request creating it may fail. */
    method GetSubscription(interval: Interval) returns (subscription: Subscription?, answer: Answer)
      requires Valid()
      modifies this`subscriptions, this`log
      ensures Linked(interval, {}) && NoneEmpty({interval})
      ensures subscription == null <==> answer.Broken?
      ensures subscription == null ==> Valid() && subscriptions == old(subscriptions) && interval !in subscriptions
      ensures subscription != null ==>
        interval in subscriptions && subscriptions == old(subscriptions)[interval := subscription]
      ensures subscription != null ==> fresh(subscription) || subscription in old(subscriptions.Values)
      ensures log == old(log) + if interval in old(subscriptions) then [] else [CreateSubscription(interval, answer)]
    {
      if interval in subscriptions { return subscriptions[interval], Done({}); }
      var created := new Subscription(interval);
      answer := AnyAnswer();
      log := log + [CreateSubscription(interval, answer)];
      if answer.Broken? { return null, answer; }
      subscriptions := subscriptions[interval := created];
      forall k | k in entries ensures EntryOk(k) {
        assert old(EntryOk(k));
      }
      forall i, item | i in subscriptions && item in subscriptions[i].items ensures Backed(i, item) {
        assert old(Backed(i, item));
      }
      subscription := created;
    }

    /** A whole request fails: the items it was for come out again, and an unused subscription with them. */
    method GiveUp(interval: Interval, created: set<MonitoredItem>)
      requires Linked(interval, created) && NoneEmpty({interval})
      requires forall item :: item in created ==> !Backed(interval, item)
      modifies this`subscriptions, this`log, subscriptions.Values
      ensures Valid() && subscriptions.Values <= old(subscriptions.Values)
      ensures log == old(log) + if interval in old(subscriptions) && interval !in subscriptions then
        [DeleteSubscription(interval)] else []
    {
      if interval in subscriptions {
        var subscription := subscriptions[interval];
        subscription.items := subscription.items - created;
      }
      forall key | key in entries ensures EntryOk(key) {
        assert old(EntryOk(key));
        assert entries[key].item in created ==> old(Backed(entries[key].interval, entries[key].item));
      }
      forall i, item | i in subscriptions && item in subscriptions[i].items ensures Backed(i, item) {
        assert old(Backed(i, item)) || (i == interval && item in created);
      }
      DeleteIfEmpty(interval);
    }

    /** The server has dealt with one item of a request: kept it, as an entry, or refused it. */
    method Settle(interval: Interval, item: MonitoredItem, ghost rest: set<MonitoredItem>, subscription: Subscription,
                  kept: bool)
      requires Linked(interval, rest + {item}) && NoneEmpty({interval})
      requires interval in subscriptions && subscriptions[interval] == subscription && item in subscription.items
      requires item.key !in entries && item !in rest && (forall other :: other in rest ==> other.key != item.key)
      requires parses(item.key.node)
      modifies this`entries, subscription
      ensures Linked(interval, rest) && NoneEmpty({interval})
      ensures entries == if kept then old(entries)[item.key := Entry(item, subscription, interval)] else old(entries)
      ensures subscription.items >= old(subscription.items) - {item}
    {
      if kept {
        entries := entries[item.key := Entry(item, subscription, interval)];
      } else {
        subscription.items := subscription.items - {item};
      }
      forall key | key in entries ensures EntryOk(key) {
        assert key != item.key ==> old(EntryOk(key));
      }
      forall i, other | i in subscriptions && other in subscriptions[i].items
        ensures Backed(i, other) || (i == interval && other in rest)
      {
        assert old(Backed(i, other)) || (i == interval && other in rest + {item});
      }
    }

    /** No two items are of one monitor. */
    static ghost predicate ItemsDistinct(items: seq<MonitoredItem>) {
      forall i, j :: 0 <= i < j < |items| ==> items[i].key != items[j].key
    }

    static lemma ItemKeysAppend(items: seq<MonitoredItem>, item: MonitoredItem)
      requires ItemsDistinct(items) && item.key !in ItemKeys(items)
      ensures ItemKeys(items + [item]) == ItemKeys(items) + {item.key} && ItemsDistinct(items + [item])
    {
      assert forall j :: 0 <= j < |items| ==> items[j].key in ItemKeys(items);
    }

    /**
     Items have been made for the first `i` definitions, of those whose NodeId can be parsed; the others have failed.
     */
    ghost predicate MadeTo(definitions: seq<MonitorDefinition>, i: nat, keys: set<MonitorKey>,
                           results: map<MonitorKey, ApplyResult>)
    {
      && i <= |definitions|
      && (forall key :: key in results ==> results[key].Failed?)
      && keys == AskedOf(definitions[..i], parses).Keys
      && KeysOf(definitions[..i]) == results.Keys + keys && results.Keys !! keys
    }

    lemma MadeNext(definitions: seq<MonitorDefinition>, i: nat, keys: set<MonitorKey>,
                   results: map<MonitorKey, ApplyResult>)
      requires DistinctKeys(definitions) && i < |definitions| && MadeTo(definitions, i, keys, results)
      ensures var key := definitions[i].key;
        && key !in keys
        && if parses(key.node) then MadeTo(definitions, i + 1, keys + {key}, results)
           else MadeTo(definitions, i + 1, keys, results[key := ApplyResult.Failed])
    {
      KeysOfNext(definitions, i);
    }

    /** One item per definition whose NodeId can be parsed; the others have failed already. */
    method MakeItems(definitions: seq<MonitorDefinition>)
      returns (created: seq<MonitoredItem>, results: map<MonitorKey, ApplyResult>)
      requires DistinctKeys(definitions)
      ensures forall item :: item in created ==> fresh(item) && parses(item.key.node)
      ensures ItemsDistinct(created) && MadeTo(definitions, |definitions|, ItemKeys(created), results)
    {
      created, results := [], map[];
      ghost var keys: set<MonitorKey> := {};
      assert ItemKeys(created) == keys;
      for i := 0 to |definitions|
        invariant forall item :: item in created ==> fresh(item) && parses(item.key.node)
        invariant ItemsDistinct(created) && ItemKeys(created) == keys && MadeTo(definitions, i, keys, results)
      {
        var key := definitions[i].key;
        MadeNext(definitions, i, keys, results);
        if parses(key.node) {
          var item := new MonitoredItem(key);
          ItemKeysAppend(created, item);
          created, keys := created + [item], keys + {key};
        } else {
          results := results[key := ApplyResult.Failed];
        }
      }
    }

    static ghost function ItemKeys(items: seq<MonitoredItem>): set<MonitorKey> {
      set item | item in items :: item.key
    }

    static ghost function Items(items: seq<MonitoredItem>): set<MonitoredItem> {
      set item | item in items
    }

    /** Every key of a failed request gets the same result. */
    static method FailAll(results: map<MonitorKey, ApplyResult>, created: seq<MonitoredItem>, result: ApplyResult)
      returns (results': map<MonitorKey, ApplyResult>)
      requires results.Keys !! ItemKeys(created)
      ensures results'.Keys == results.Keys + ItemKeys(created)
      ensures forall key :: key in results' ==> results'[key] == if key in results then results[key] else result
    {
      results' := results;
      for i := 0 to |created|
        invariant results'.Keys == results.Keys + ItemKeys(created[..i])
        invariant forall key :: key in results' ==> results'[key] == if key in results then results[key] else result
      {
        assert created[i].key in ItemKeys(created);
        assert created[..i + 1] == created[..i] + [created[i]];
        assert ItemKeys(created[..i + 1]) == ItemKeys(created[..i]) + {created[i].key};
        results' := results'[created[i].key := result];
      }
      assert created[..|created|] == created;
    }

    /** What creating monitored items leaves: the kept ones have entries, and no other entry has changed. */
    static ghost predicate CreatedFrom(before: map<MonitorKey, Entry>, after: map<MonitorKey, Entry>,
                                       interval: Interval, keys: set<MonitorKey>,
                                       results: map<MonitorKey, ApplyResult>)
    {
      && results.Keys == keys
      && (forall key :: key in after <==> key in before || (key in results && results[key].Active?))
      && (forall key :: key in before ==> key in after && after[key] == before[key])
      && (forall key :: key in results && results[key].Active? ==> after[key].interval == interval)
    }

    twostate predicate Created(interval: Interval, keys: set<MonitorKey>, results: map<MonitorKey, ApplyResult>)
      reads this`entries
    {
      CreatedFrom(old(entries), entries, interval, keys, results)
    }

    static lemma CreatedNext(before: map<MonitorKey, Entry>, middle: map<MonitorKey, Entry>, interval: Interval,
                             keys: set<MonitorKey>, results: map<MonitorKey, ApplyResult>,
                             key: MonitorKey, entry: Entry, result: ApplyResult)
      requires CreatedFrom(before, middle, interval, keys, results) && key !in keys && key !in middle
      requires entry.interval == interval
      ensures CreatedFrom(before, if result.Active? then middle[key := entry] else middle, interval, keys + {key},
                          results[key := result])
    {}

    /** Every item has what the server answered; what had failed before has failed. */
    static ghost predicate ResultsAs(results: map<MonitorKey, ApplyResult>, failed: map<MonitorKey, ApplyResult>,
                                     answer: Answer)
    {
      forall key :: key in results ==> results[key] == if key in failed then failed[key] else ResultOf(answer, key)
    }

    static lemma NextItem(created: seq<MonitoredItem>, i: nat)
      requires i < |created| && ItemsDistinct(created)
      ensures Items(created[i..]) == Items(created[i + 1..]) + {created[i]}
      ensures ItemKeys(created[..i + 1]) == ItemKeys(created[..i]) + {created[i].key}
      ensures created[i].key !in ItemKeys(created[..i])
      ensures created[i].key in ItemKeys(created)
      ensures forall item :: item in created[i + 1..] ==>
        item in created[i..] && item != created[i] && item.key != created[i].key
    {
      assert created[i..] == [created[i]] + created[i + 1..];
      assert created[..i + 1] == created[..i] + [created[i]];
    }

    /** Of the items a request went through for, `rest` are still to be settled. */
    ghost predicate Settling(interval: Interval, rest: seq<MonitoredItem>, subscription: Subscription)
      reads this`subscriptions, this`entries, subscriptions.Values, subscription
    {
      && Linked(interval, Items(rest)) && NoneEmpty({interval})
      && interval in subscriptions && subscriptions[interval] == subscription && Items(rest) <= subscription.items
      && forall item :: item in rest ==> item.key !in entries && parses(item.key.node)
    }

    /** After a request that went through, an item is kept or, if the server refused it, dropped again. */
    method SettleNext(interval: Interval, created: seq<MonitoredItem>, i: nat, subscription: Subscription,
                      answer: Answer) returns (result: ApplyResult)
      requires i < |created| && Settling(interval, created[i..], subscription) && answer.Done?
      requires ItemsDistinct(created)
      modifies this`entries, subscription
      ensures Settling(interval, created[i + 1..], subscription)
      ensures result == ResultOf(answer, created[i].key)
      ensures entries == if result.Active? then
        old(entries)[created[i].key := Entry(created[i], subscription, interval)] else old(entries)
    {
      var item := created[i];
      NextItem(created, i);
      var kept := item.key !in answer.refused;
      Settle(interval, item, Items(created[i + 1..]), subscription, kept);
      result := if kept then Active else ApplyResult.Failed;
    }

    method SettleAll(interval: Interval, created: seq<MonitoredItem>, subscription: Subscription,
                     failed: map<MonitorKey, ApplyResult>, answer: Answer)
      returns (results: map<MonitorKey, ApplyResult>)
      requires Settling(interval, created, subscription) && answer.Done?
      requires ItemsDistinct(created)
      requires failed.Keys !! ItemKeys(created) && forall key :: key in failed ==> failed[key].Failed?
      requires failed.Keys !! entries.Keys
      modifies this`entries, subscription
      ensures Linked(interval, {}) && NoneEmpty({interval})
      ensures Created(interval, failed.Keys + ItemKeys(created), results)
      ensures ResultsAs(results, failed, answer)
    {
      results := failed;
      for i := 0 to |created|
        invariant Settling(interval, created[i..], subscription)
        invariant Created(interval, failed.Keys + ItemKeys(created[..i]), results)
        invariant ResultsAs(results, failed, answer)
      {
        NextItem(created, i);
        assert created[i] in created[i..];
        ghost var middle := entries;
        var result := SettleNext(interval, created, i, subscription, answer);
        CreatedNext(old(entries), middle, interval, failed.Keys + ItemKeys(created[..i]), results, created[i].key,
                    Entry(created[i], subscription, interval), result);
        results := results[created[i].key := result];
      }
      assert created[|created|..] == [] && created[..|created|] == created;
    }

    /**
     What creating monitors promises of the requests: those it takes, and then the subscription's deletion if nothing
     is in it; and every monitor whose NodeId can be parsed is told what they said.
     */
    ghost predicate Answered(before: seq<Exchange>, after: seq<Exchange>, interval: Interval, exists_: bool,
                             definitions: seq<MonitorDefinition>, results: map<MonitorKey, ApplyResult>,
                             asking: seq<Exchange>)
    {
      var asked := AskedOf(definitions, parses);
      && IsCreation(asking, interval, exists_, asked)
      && (after == before + asking || after == before + asking + [DeleteSubscription(interval)])
      && forall key :: key in results ==> results[key] == if key in asked then Said(asking, key) else ApplyResult.Failed
    }

    /**
     All of one interval's new monitors in at most one request for items. Every definition gets exactly one result, as
     the server answered, and has an entry exactly when it is Active.
     */
    method Create(interval: Interval, definitions: seq<MonitorDefinition>)
      returns (results: map<MonitorKey, ApplyResult>, ghost asking: seq<Exchange>)
      requires Valid() && DistinctKeys(definitions) && KeysOf(definitions) !! entries.Keys
      modifies this, subscriptions.Values
      ensures Valid() && Created(interval, KeysOf(definitions), results)
      ensures Answered(old(log), log, interval, interval in old(subscriptions), definitions, results, asking)
      ensures forall s :: s in subscriptions.Values ==> fresh(s) || s in old(subscriptions.Values)
    {
      var created, failed;
      created, failed := MakeItems(definitions);
      assert definitions[..|definitions|] == definitions;
      results, asking := failed, [];
      if created == [] {
        assert ItemKeys(created) == {};
        return;
      }
      assert created[0].key in ItemKeys(created);
      results, asking := CreateAll(interval, created, failed, AskedOf(definitions, parses));
    }

    /** Nothing can be asked for without a subscription. */
    method GiveUpEarly(interval: Interval, failed: map<MonitorKey, ApplyResult>, created: seq<MonitoredItem>,
                       given: Answer) returns (results: map<MonitorKey, ApplyResult>)
      requires Valid() && interval !in subscriptions && given.Broken?
      requires failed.Keys !! ItemKeys(created) && failed.Keys !! entries.Keys
      requires forall key :: key in failed ==> failed[key].Failed?
      modifies this`subscriptions, this`log
      ensures Valid() && Created(interval, failed.Keys + ItemKeys(created), results)
      ensures subscriptions == old(subscriptions) && log == old(log)
      ensures ResultsAs(results, failed, given)
    {
      results := FailAll(failed, created, if given.connected then ApplyResult.Failed else Pending);
      assert Linked(interval, {}) && NoneEmpty({interval});
      DeleteIfEmpty(interval);
    }

    /** The requests themselves, when there is something to create. */
    method CreateAll(interval: Interval, created: seq<MonitoredItem>, failed: map<MonitorKey, ApplyResult>,
                     asked: map<MonitorKey, nat>)
      returns (results: map<MonitorKey, ApplyResult>, ghost asking: seq<Exchange>)
      requires Valid() && ItemKeys(created) == asked.Keys && asked != map[] && ItemsDistinct(created)
      requires forall item :: item in created ==> parses(item.key.node)
      requires asked.Keys !! entries.Keys && failed.Keys !! entries.Keys
      requires failed.Keys !! asked.Keys && forall key :: key in failed ==> failed[key].Failed?
      modifies this, subscriptions.Values
      ensures Valid() && Created(interval, failed.Keys + asked.Keys, results)
      ensures IsCreation(asking, interval, interval in old(subscriptions), asked)
      ensures log == old(log) + asking || log == old(log) + asking + [DeleteSubscription(interval)]
      ensures ResultsAs(results, failed, asking[|asking| - 1].answer)
      ensures forall s :: s in subscriptions.Values ==> fresh(s) || s in old(subscriptions.Values)
    {
      var subscription, given := GetSubscription(interval);
      asking := if interval in old(subscriptions) then [] else [CreateSubscription(interval, given)];
      if subscription == null {
        results := GiveUpEarly(interval, failed, created, given);
      } else {
        var answer;
        results, answer := Ask(interval, subscription, created, failed, asked);
        Joined(old(log), asking, [CreateItems(interval, asked, answer)]);
        asking := asking + [CreateItems(interval, asked, answer)];
      }
    }

    /** The one request for all the items, and what becomes of them. */
    method Ask(interval: Interval, subscription: Subscription, created: seq<MonitoredItem>,
               failed: map<MonitorKey, ApplyResult>, asked: map<MonitorKey, nat>)
      returns (results: map<MonitorKey, ApplyResult>, answer: Answer)
      requires Linked(interval, {}) && NoneEmpty({interval})
      requires interval in subscriptions && subscriptions[interval] == subscription
      requires ItemKeys(created) == asked.Keys && asked.Keys !! entries.Keys && ItemsDistinct(created)
      requires forall item :: item in created ==> parses(item.key.node)
      requires failed.Keys !! asked.Keys && failed.Keys !! entries.Keys
      requires forall key :: key in failed ==> failed[key].Failed?
      modifies this, subscription, subscriptions.Values
      ensures Valid() && subscriptions.Values <= old(subscriptions.Values)
      ensures Created(interval, failed.Keys + asked.Keys, results)
      ensures ResultsAs(results, failed, answer)
      ensures log == old(log) + [CreateItems(interval, asked, answer)] + if interval in subscriptions then []
        else [DeleteSubscription(interval)]
    {
      assert forall item :: item in created ==> item.key in ItemKeys(created);
      AddItems(interval, subscription, created);
      answer := AnyAnswer();
      log := log + [CreateItems(interval, asked, answer)];
      if answer.Broken? {
        results := FailAsked(interval, created, failed, asked, answer);
      } else {
        results := SettleAll(interval, created, subscription, failed, answer);
        DeleteIfEmpty(interval);
      }
    }

    /** The request failed: everything asked for has, and comes out again. */
    method FailAsked(interval: Interval, created: seq<MonitoredItem>, failed: map<MonitorKey, ApplyResult>,
                     ghost asked: map<MonitorKey, nat>, answer: Answer)
      returns (results: map<MonitorKey, ApplyResult>)
      requires Linked(interval, Items(created)) && NoneEmpty({interval}) && answer.Broken?
      requires ItemKeys(created) == asked.Keys && asked.Keys !! entries.Keys
      requires failed.Keys !! asked.Keys && failed.Keys !! entries.Keys
      requires forall key :: key in failed ==> failed[key].Failed?
      modifies this`subscriptions, this`log, subscriptions.Values
      ensures Valid() && subscriptions.Values <= old(subscriptions.Values)
      ensures Created(interval, failed.Keys + asked.Keys, results)
      ensures ResultsAs(results, failed, answer)
      ensures log == old(log) + if interval in old(subscriptions) && interval !in subscriptions then
        [DeleteSubscription(interval)] else []
    {
      results := FailAll(failed, created, if answer.connected then ApplyResult.Failed else Pending);
      assert forall item :: item in created ==> item.key in ItemKeys(created);
      GiveUp(interval, set item | item in created);
    }

    method AddItems(interval: Interval, subscription: Subscription, created: seq<MonitoredItem>)
      requires Linked(interval, {}) && NoneEmpty({interval})
      requires interval in subscriptions && subscriptions[interval] == subscription
      modifies subscription
      ensures Linked(interval, Items(created)) && NoneEmpty({interval})
      ensures subscription.items == old(subscription.items) + Items(created)
    {
      subscription.items := subscription.items + set item | item in created;
      forall key | key in entries ensures EntryOk(key) {
        assert old(EntryOk(key));
      }
      forall i, item | i in subscriptions && item in subscriptions[i].items
        ensures Backed(i, item) || (i == interval && item in Items(created))
      {
        assert old(item in subscriptions[i].items) ==> old(Backed(i, item));
      }
    }

    /** Changes an item in place; whatever the server says, it stays where it is. */
    method Modify(definition: MonitorDefinition) returns (result: ApplyResult)
      requires Valid() && definition.key in entries
      modifies this`log
      ensures Valid()
      ensures Modified(old(log), log, definition, result)
    {
      var key := definition.key;
      var answer := AnyAnswer();
      log := log + [ModifyItem(key, definition.parameters.settings, answer)];
      result := ResultOf(answer, key);
      var otherMode: bool := *;
      if answer.Done? && otherMode {
        var mode := AnyAnswer();
        log := log + [SetMode(key, mode)];
        if mode.Broken? { result := ResultOf(mode, key); }
        assert log == old(log) + [ModifyItem(key, definition.parameters.settings, answer), SetMode(key, mode)];
      }
    }

    /**
     A monitor that is there under the same interval is modified where it is; any other is created, after it has been
     taken out if it was there. The result is what the server said, and afterwards the monitor is in the session under
     its interval exactly when it is Active, or was modified.
     */
    method Apply(definition: MonitorDefinition) returns (result: ApplyResult)
      requires Valid()
      modifies this, subscriptions.Values
      ensures Valid()
      ensures entries - {definition.key} == old(entries) - {definition.key}
      ensures entries.Keys <= old(entries.Keys) + {definition.key}
      ensures if old(HasInPlace(definition)) then entries == old(entries) else definition.key in entries <==>
        result.Active?
      ensures result.Active? ==>
        definition.key in entries && entries[definition.key].interval == definition.parameters.publishingInterval
      ensures old(log) <= log && Told(old(log), log, parses, definition, result)
      ensures forall s :: s in subscriptions.Values ==> fresh(s) || s in old(subscriptions.Values)
    {
      if HasInPlace(definition) {
        assert EntryOk(definition.key);
        result := Modify(definition);
        ModifiedTold(old(log), log, parses, definition, result);
      } else {
        result := Move(definition);
        SameBut(old(entries), entries, definition.key);
      }
    }

    static lemma SameBut(before: map<MonitorKey, Entry>, after: map<MonitorKey, Entry>, key: MonitorKey)
      requires after - {key} == before - {key}
      ensures after.Keys <= before.Keys + {key}
    {
      forall k | k in after && k != key ensures k in before { assert k in after - {key}; }
    }

    predicate HasInPlace(definition: MonitorDefinition)
      reads this`entries
    {
      definition.key in entries && entries[definition.key].interval == definition.parameters.publishingInterval
    }

    /** Creates the monitor, taking it out first where it was. */
    method Move(definition: MonitorDefinition) returns (result: ApplyResult)
      requires Valid()
      modifies this, subscriptions.Values
      ensures Valid() && (definition.key in entries <==> result.Active?)
      ensures result.Active? ==> entries[definition.key].interval == definition.parameters.publishingInterval
      ensures entries - {definition.key} == old(entries) - {definition.key}
      ensures old(log) <= log && Told(old(log), log, parses, definition, result)
      ensures forall s :: s in subscriptions.Values ==> fresh(s) || s in old(subscriptions.Values)
    {
      if definition.key in entries { RemoveEntry(definition.key); }
      ghost var before := log;
      result := CreateOne(definition);
      ToldStill(old(log), before, log, log, parses, definition, result);
    }

    /** A creation of one. */
    method CreateOne(definition: MonitorDefinition) returns (result: ApplyResult)
      requires Valid() && definition.key !in entries
      modifies this, subscriptions.Values
      ensures Valid() && (definition.key in entries <==> result.Active?)
      ensures result.Active? ==> entries[definition.key].interval == definition.parameters.publishingInterval
      ensures entries - {definition.key} == old(entries)
      ensures old(log) <= log && Told(old(log), log, parses, definition, result)
      ensures forall s :: s in subscriptions.Values ==> fresh(s) || s in old(subscriptions.Values)
    {
      var key := definition.key;
      assert KeysOf([definition]) == {key};
      var results := CreateGroup(definition.parameters.publishingInterval, [definition]);
      assert definition in [definition];
      result := results[key];
    }

    /** Requests for one interval only. */
    static ghost predicate AllOf(interval: Interval, asked: seq<Exchange>) {
      forall k :: 0 <= k < |asked| ==>
        && (asked[k].CreateSubscription? || asked[k].CreateItems? || asked[k].DeleteSubscription?)
        && asked[k].interval == interval
    }

    /** Everyone a creation was for has been told the truth. */
    lemma AllTold(before: seq<Exchange>, after: seq<Exchange>, interval: Interval, exists_: bool,
                  definitions: seq<MonitorDefinition>, results: map<MonitorKey, ApplyResult>, asking: seq<Exchange>)
      requires DistinctKeys(definitions) && results.Keys == KeysOf(definitions)
      requires forall d :: d in definitions ==> d.parameters.publishingInterval == interval
      requires Answered(before, after, interval, exists_, definitions, results, asking)
      ensures before <= after && AllOf(interval, after[|before|..])
      ensures forall d :: d in definitions ==> Told(before, after, parses, d, results[d.key])
    {
      forall d | d in definitions ensures Told(before, after, parses, d, results[d.key]) {
        AskedOfIs(definitions, parses, d);
        assert d.key in results;
        if parses(d.key.node) {
          var k := |before| + |asking| - 1;
          assert after[k] == asking[|asking| - 1];
          assert Decides(before, after, k, d) && Says(after[k].answer, d.key, results[d.key]);
        }
      }
    }

    method Remove(key: MonitorKey)
      requires Valid()
      modifies this, subscriptions.Values
      ensures Valid() && entries == old(entries) - {key}
      ensures subscriptions.Values <= old(subscriptions.Values)
      ensures old(log) <= log && (key in old(entries) <==> log != old(log))
      ensures (key in old(entries) ==> log[|old(log)|] == DeleteItem(key))
    {
      if key in entries { RemoveEntry(key); }
    }

    /** Stops a monitored item reporting, but keeps it; the request may fail. */
    method Disable(key: MonitorKey) returns (ok: bool)
      requires Valid()
      modifies this`log
      ensures Valid()
      ensures key !in entries ==> log == old(log) && ok
      ensures key in entries ==> exists answer :: log == old(log) + [DisableItem(key, answer)] && ok == answer.Done?
    {
      if key !in entries { return true; }
      var answer := AnyAnswer();
      log := log + [DisableItem(key, answer)];
      ok := answer.Done?;
    }

    /** Asks once for the deletion of every subscription, and forgets them and all entries, whatever the answers. */
    method Dispose()
      modifies this`subscriptions, this`entries, this`log
      ensures Valid() && entries == map[] && subscriptions == map[]
      ensures exists asked :: log == old(log) + asked && DeletesAll(old(subscriptions.Keys), asked)
    {
      var asked := DeleteAll(subscriptions.Keys);
      log := log + asked;
      subscriptions, entries := map[], map[];
    }

    /** A request to delete the subscription of each interval, once, in some order. */
    static ghost predicate DeletesAll(intervals: set<Interval>, asked: seq<Exchange>) {
      |asked| == |intervals| && forall interval :: interval in intervals ==> DeleteSubscription(interval) in asked
    }

    static lemma SomeInterval(intervals: set<Interval>)
      requires intervals != {}
      ensures exists interval :: interval in intervals
    {
      assert (forall interval: Interval :: interval !in intervals) ==> intervals == {};
    }

    static method DeleteAll(intervals: set<Interval>) returns (asked: seq<Exchange>)
      ensures DeletesAll(intervals, asked)
    {
      asked := [];
      var left := intervals;
      while left != {}
        invariant left <= intervals && DeletesAll(intervals - left, asked) && |asked| + |left| == |intervals|
        decreases |left|
      {
        SomeInterval(left);
        var interval :| interval in left;
        asked, left := asked + [DeleteSubscription(interval)], left - {interval};
        assert |intervals - left| == |intervals| - |left|;
      }
      assert intervals - left == intervals;
    }

    method RemoveAll(definitions: seq<MonitorDefinition>)
      requires Valid()
      modifies this, subscriptions.Values
      ensures Valid() && entries.Keys == old(entries.Keys) - KeysOf(definitions)
      ensures subscriptions.Values <= old(subscriptions.Values)
      ensures old(log) <= log
    {
      for i := 0 to |definitions|
        invariant Valid() && entries.Keys == old(entries.Keys) - KeysOf(definitions[..i])
        invariant subscriptions.Values <= old(subscriptions.Values)
        invariant old(log) <= log
      {
        ghost var before := entries.Keys;
        Remove(definitions[i].key);
        assert entries.Keys == before - {definitions[i].key};
        assert definitions[..i + 1] == definitions[..i] + [definitions[i]];
        assert KeysOf(definitions[..i + 1]) == KeysOf(definitions[..i]) + {definitions[i].key};
      }
      assert definitions[..|definitions|] == definitions;
    }

    /** Everyone of `definitions` who has a result was told what the server said. */
    ghost predicate AllResultsTold(before: seq<Exchange>, after: seq<Exchange>, definitions: seq<MonitorDefinition>,
                                   results: map<MonitorKey, ApplyResult>)
    {
      forall d :: d in definitions && d.key in results ==> Told(before, after, parses, d, results[d.key])
    }

    lemma MoreTold(interval: Interval, before: seq<Exchange>, middle: seq<Exchange>, after: seq<Exchange>,
                   definitions: seq<MonitorDefinition>, group: seq<MonitorDefinition>,
                   results: map<MonitorKey, ApplyResult>, more: map<MonitorKey, ApplyResult>)
      requires DistinctKeys(definitions) && (forall d :: d in group ==> d in definitions) && more.Keys == KeysOf(group)
      requires before <= middle <= after && AllResultsTold(before, middle, definitions, results)
      requires AllOf(interval, after[|middle|..])
      requires forall d :: d in definitions && d.key in results ==> d.parameters.publishingInterval != interval
      requires forall d :: d in group ==> Told(middle, after, parses, d, more[d.key])
      ensures AllResultsTold(before, after, definitions, results + more)
    {
      forall d | d in definitions && d.key in results + more
        ensures Told(before, after, parses, d, (results + more)[d.key])
      {
        if d.key in more {
          var e :| e in group && e.key == d.key;
          SameKey(definitions, d, e);
          ToldStill(before, middle, after, after, parses, d, more[d.key]);
        } else {
          forall j | |middle| <= j < |after| ensures !Concerns(after[j], d) {
            assert after[j] == after[|middle|..][j - |middle|];
          }
          ToldStill(before, before, middle, after, parses, d, results[d.key]);
        }
      }
    }

    static lemma SameKey(definitions: seq<MonitorDefinition>, d: MonitorDefinition, e: MonitorDefinition)
      requires DistinctKeys(definitions) && d in definitions && e in definitions && d.key == e.key
      ensures d == e
    {
      var i :| 0 <= i < |definitions| && definitions[i] == d;
      var j :| 0 <= j < |definitions| && definitions[j] == e;
      assert i == j;
    }

    /** Whoever has a result is of another interval than those still to come. */
    static ghost predicate OtherIntervals(definitions: seq<MonitorDefinition>, done: set<MonitorKey>,
                                          rest: seq<MonitorDefinition>)
    {
      forall d, e :: d in definitions && d.key in done && e in rest ==>
        d.parameters.publishingInterval != e.parameters.publishingInterval
    }

    static lemma GroupsApart(definitions: seq<MonitorDefinition>, rest: seq<MonitorDefinition>,
                             group: seq<MonitorDefinition>, others: seq<MonitorDefinition>, done: set<MonitorKey>,
                             interval: Interval)
      requires DistinctKeys(definitions) && OtherIntervals(definitions, done, rest)
      requires (forall d :: d in rest ==> d in definitions) && (forall d :: d in others ==> d in rest)
      requires (forall d :: d in group ==> d in rest && d.parameters.publishingInterval == interval)
      requires (forall d :: d in others ==> d.parameters.publishingInterval != interval)
      ensures OtherIntervals(definitions, done + KeysOf(group), others)
    {
      forall d, e | d in definitions && d.key in done + KeysOf(group) && e in others
        ensures d.parameters.publishingInterval != e.parameters.publishingInterval
      {
        if d.key !in done {
          var g :| g in group && g.key == d.key;
          SameKey(definitions, d, g);
        }
      }
    }

    /** A rebuild part-way: `rest` is still to come, and of the others each has its result and, if Active, its entry. */
    ghost predicate Rebuilding(start: seq<Exchange>, kept: set<MonitorKey>, definitions: seq<MonitorDefinition>,
                               rest: seq<MonitorDefinition>, results: map<MonitorKey, ApplyResult>)
      reads this, subscriptions.Values
    {
      && Valid() && DistinctKeys(rest) && (forall d :: d in rest ==> d in definitions)
      && results.Keys + KeysOf(rest) == KeysOf(definitions) && results.Keys !! KeysOf(rest)
      && (forall key :: key in entries <==> key in kept || (key in results && results[key].Active?))
      && start <= log && AllResultsTold(start, log, definitions, results)
      && OtherIntervals(definitions, results.Keys, rest)
    }

    static lemma GroupDone(all: set<MonitorKey>, rest: set<MonitorKey>, group: set<MonitorKey>, others: set<MonitorKey>,
                           results: map<MonitorKey, ApplyResult>, created: map<MonitorKey, ApplyResult>)
      requires results.Keys + rest == all && results.Keys !! rest && created.Keys == group
      requires group + others == rest && group !! others
      ensures (results + created).Keys + others == all && (results + created).Keys !! others
      ensures forall key :: key in results ==> key in results + created && (results + created)[key] == results[key]
    {}

    /** The next interval of a rebuild. */
    method CreateNext(ghost start: seq<Exchange>, ghost kept: set<MonitorKey>,
                      ghost definitions: seq<MonitorDefinition>,
                      rest: seq<MonitorDefinition>, results: map<MonitorKey, ApplyResult>)
      returns (others: seq<MonitorDefinition>, results': map<MonitorKey, ApplyResult>)
      requires DistinctKeys(definitions) && rest != [] && Rebuilding(start, kept, definitions, rest, results)
      requires kept !! KeysOf(definitions)
      modifies this, subscriptions.Values
      ensures Rebuilding(start, kept, definitions, others, results') && |others| < |rest|
      ensures forall s :: s in subscriptions.Values ==> fresh(s) || s in old(subscriptions.Values)
    {
      var interval := rest[0].parameters.publishingInterval;
      var group;
      group, others := Partition(rest, (d: MonitorDefinition) => d.parameters.publishingInterval == interval);
      assert rest[0] in group;
      assert KeysOf(group) !! entries.Keys;
      var created := CreateGroup(interval, group);
      MoreTold(interval, start, old(log), log, definitions, group, results, created);
      GroupsApart(definitions, rest, group, others, results.Keys, interval);
      GroupDone(KeysOf(definitions), KeysOf(rest), KeysOf(group), KeysOf(others), results, created);
      results' := results + created;
    }

    /**
     All the monitors of a rebuild, interval by interval: exactly one result each, as the server said, and an entry
     exactly for those that are Active.
     */
    method ApplyAll(definitions: seq<MonitorDefinition>) returns (results: map<MonitorKey, ApplyResult>)
      requires Valid() && DistinctKeys(definitions)
      modifies this, subscriptions.Values
      ensures Valid() && results.Keys == KeysOf(definitions)
      ensures forall s :: s in subscriptions.Values ==> fresh(s) || s in old(subscriptions.Values)
      ensures forall key :: key in entries <==>
        (key in old(entries) && key !in results) || (key in results && results[key].Active?)
      ensures old(log) <= log && AllResultsTold(old(log), log, definitions, results)
    {
      RemoveAll(definitions);
      ghost var kept := entries.Keys;
      results := map[];
      var rest := definitions;
      while rest != []
        invariant Rebuilding(old(log), kept, definitions, rest, results)
        invariant forall s :: s in subscriptions.Values ==> fresh(s) || s in old(subscriptions.Values)
        decreases |rest|
      {
        rest, results := CreateNext(old(log), kept, definitions, rest, results);
      }
    }

    /** One group of a rebuild. */
    method CreateGroup(interval: Interval, group: seq<MonitorDefinition>)
      returns (results: map<MonitorKey, ApplyResult>)
      requires Valid() && DistinctKeys(group) && KeysOf(group) !! entries.Keys
      requires forall d :: d in group ==> d.parameters.publishingInterval == interval
      modifies this, subscriptions.Values
      ensures Valid() && Created(interval, KeysOf(group), results)
      ensures old(log) <= log && AllOf(interval, log[|old(log)|..])
      ensures forall d :: d in group ==> d.key in results && Told(old(log), log, parses, d, results[d.key])
      ensures forall s :: s in subscriptions.Values ==> fresh(s) || s in old(subscriptions.Values)
    {
      ghost var asking;
      results, asking := Create(interval, group);
      AllTold(old(log), log, interval, interval in old(subscriptions), group, results, asking);
    }
  }
}
