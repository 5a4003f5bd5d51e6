/**
 The monitors there are, and what each change makes of them. A change is made whether or not it can be stored; what it
 stores is always the whole registry, so one save that succeeds makes up for all that failed before it.
 */
module MonitorRegistry {
  import opened Options
  import opened Monitors
  import opened MonitorStore

  type Registered = map<MonitorKey, MonitorDefinition>

  /** Suspended for longer than `expiry`; a live monitor never expires. */
  predicate IsExpired(definition: MonitorDefinition, expiry: Option<Time>, now: Time) {
    definition.IsSuspended() && expiry.Some? && definition.suspendedSince.value < now - expiry.value
  }

  /** Suspended since `now`, or since whenever it was before. */
  function Suspended(definition: MonitorDefinition, now: Time): MonitorDefinition {
    if definition.IsSuspended() then definition else definition.(suspendedSince := Some(now))
  }

  /** The monitors of a stored list that this bridge may answer. */
  function Admitted(saved: Registered, allows: ReplyTo -> bool): Registered {
    map key | key in saved && allows(saved[key].replyTo) :: saved[key]
  }

  /** What a reload gives back of what was saved. */
  function Reloaded(saved: Registered, allows: ReplyTo -> bool, expiry: Option<Time>, now: Time): Registered {
    map key | key in saved && allows(saved[key].replyTo) && !IsExpired(saved[key], expiry, now) :: saved[key]
  }

  /** What is left differs from what was saved exactly when something was dropped or has expired. */
  lemma ReloadedIs(definitions: seq<MonitorDefinition>, saved: Registered, allows: ReplyTo -> bool,
                   expiry: Option<Time>, now: Time, admitted: Registered, expired: set<MonitorKey>)
    requires Keyed(saved) && Lists(definitions, saved) && admitted == Admitted(saved, allows)
    requires forall key :: key in expired <==> key in admitted && IsExpired(admitted[key], expiry, now)
    ensures admitted - expired == Reloaded(saved, allows, expiry, now)
    ensures Reloaded(saved, allows, expiry, now) != saved <==> expired != {} || HasForeign(definitions, allows)
  {
    var left := Reloaded(saved, allows, expiry, now);
    if key :| key in expired { assert key in saved && key !in left; }
    if HasForeign(definitions, allows) {
      var i :| 0 <= i < |definitions| && !allows(definitions[i].replyTo);
      assert definitions[i].key in saved && definitions[i].key !in left;
    }
    if expired == {} && !HasForeign(definitions, allows) {
      forall key | key in saved ensures key in left && left[key] == saved[key] { KeyListed(definitions, saved, key); }
    }
  }

  lemma KeyListed(definitions: seq<MonitorDefinition>, saved: Registered, key: MonitorKey)
    requires Lists(definitions, saved) && key in saved
    ensures exists i :: 0 <= i < |definitions| && definitions[i] == saved[key]
  {
    assert key in KeysOf(definitions);
    var definition :| definition in definitions && definition.key == key;
    var i :| 0 <= i < |definitions| && definitions[i] == definition;
  }

  /** Some monitor of a stored list may not be answered here. */
  ghost predicate HasForeign(definitions: seq<MonitorDefinition>, allows: ReplyTo -> bool) {
    exists i :: 0 <= i < |definitions| && !allows(definitions[i].replyTo)
  }

  method Admit(definitions: seq<MonitorDefinition>, allows: ReplyTo -> bool)
    returns (monitors: Registered, dropped: bool)
    ensures Keyed(monitors)
    ensures definitions == [] ==> monitors == map[]
    ensures dropped <==> HasForeign(definitions, allows)
    ensures forall saved: Registered :: Keyed(saved) && Lists(definitions, saved) ==>
      monitors == Admitted(saved, allows)
  {
    monitors, dropped := map[], false;
    for i := 0 to |definitions|
      invariant Keyed(monitors) && (i == 0 ==> monitors == map[])
      invariant AdmittedUpTo(definitions, allows, i, monitors)
      invariant dropped <==> exists j :: 0 <= j < i && !allows(definitions[j].replyTo)
    {
      if allows(definitions[i].replyTo) {
        monitors := monitors[definitions[i].key := definitions[i]];
      } else {
        dropped := true;
      }
    }
    forall saved: Registered | Keyed(saved) && Lists(definitions, saved) ensures monitors == Admitted(saved, allows) {
      AdmittedAll(definitions, allows, monitors, saved);
    }
  }

  ghost predicate AdmittedUpTo(definitions: seq<MonitorDefinition>, allows: ReplyTo -> bool, i: nat,
                               monitors: Registered)
  {
    && i <= |definitions|
    && (forall key :: key in monitors ==> exists j ::
         0 <= j < i && monitors[key] == definitions[j] && allows(definitions[j].replyTo))
    && (DistinctKeys(definitions) ==> forall j :: 0 <= j < i && allows(definitions[j].replyTo) ==>
          definitions[j].key in monitors && monitors[definitions[j].key] == definitions[j])
  }

  lemma AdmittedAll(definitions: seq<MonitorDefinition>, allows: ReplyTo -> bool, monitors: Registered,
                    saved: Registered)
    requires Keyed(monitors) && Keyed(saved) && Lists(definitions, saved)
    requires AdmittedUpTo(definitions, allows, |definitions|, monitors)
    ensures monitors == Admitted(saved, allows)
  {
    var expected := Admitted(saved, allows);
    forall key | key in monitors ensures key in expected && expected[key] == monitors[key] {
      var j :| 0 <= j < |definitions| && monitors[key] == definitions[j] && allows(definitions[j].replyTo);
      assert definitions[j].key == key;
    }
    forall key | key in expected ensures key in monitors {
      assert key in KeysOf(definitions);
      var definition :| definition in definitions && definition.key == key;
      var j :| 0 <= j < |definitions| && definitions[j] == definition;
    }
  }

  ghost predicate Holds(store: Store, monitors: Registered)
    reads store
  {
    store.file.Some? && store.file.value.Saved? && Lists(store.file.value.monitors, monitors)
  }

  // ------------------------------------------------------------------------------------------------------------
  // What changes the registry

  datatype Change =
    | Put(definition: MonitorDefinition)
    | Drop(key: MonitorKey)
    | Silence(key: MonitorKey, now: Time)
    | Expire(now: Time)

  function Unexpired(monitors: Registered, expiry: Option<Time>, now: Time): Registered {
    map key | key in monitors && !IsExpired(monitors[key], expiry, now) :: monitors[key]
  }

  /** The registry after a change. */
  function Changed(monitors: Registered, change: Change, expiry: Option<Time>): Registered {
    match change
    case Put(definition) => monitors[definition.key := definition.(suspendedSince := None)]
    case Drop(key) => monitors - {key}
    case Silence(key, now) => if key in monitors then monitors[key := Suspended(monitors[key], now)] else monitors
    case Expire(now) => Unexpired(monitors, expiry, now)
  }

  /** Whether a change is written to the store: a Put always, any other when it changes something. */
  predicate Saves(monitors: Registered, change: Change, expiry: Option<Time>) {
    change.Put? || Changed(monitors, change, expiry) != monitors
  }

  class Registry {
    const store: Store
    const expiry: Option<Time>
    var monitors: Registered
    /** What became of the save the latest change made, if it made one. */
    var outcome: Option<SaveOutcome>

    constructor (store: Store, expiry: Option<Time>)
      ensures this.store == store && this.expiry == expiry && monitors == map[] && outcome == None
    {
      this.store, this.expiry, monitors, outcome := store, expiry, map[], None;
    }

    ghost predicate Valid()
      reads this, store
    {
      store.Valid() && Keyed(monitors)
    }

    /** The latest change saved, or had nothing to save; without trouble on the disk, what it saved is in the file. */
    twostate predicate SaveMade(saves: bool)
      reads this, store
    {
      && (outcome.Some? <==> saves) && old(store.fates) <= store.fates
      && SavedAs(outcome, old(store.file), old(store.committed), store.file, store.committed, monitors)
      && (saves && NoTrouble(old(store.fates), store.fates) ==> outcome == Some(Written))
    }

    /** Takes over what the store held, but for what may not be answered here and what has expired. */
    method Start(definitions: seq<MonitorDefinition>, allows: ReplyTo -> bool, now: Time)
      requires Valid()
      modifies this`monitors, this`outcome, store
      ensures Valid() && SaveMade(outcome.Some?)
      ensures definitions == [] ==> monitors == map[] && outcome == None
      ensures forall saved: Registered :: Keyed(saved) && Lists(definitions, saved) ==>
        monitors == Reloaded(saved, allows, expiry, now) && (outcome.Some? <==> monitors != saved)
    {
      var dropped;
      monitors, dropped := Admit(definitions, allows);
      ghost var admitted := monitors;
      var expired := RemoveExpired(now);
      if expired == {} && dropped { Save(); }
      forall saved: Registered | Keyed(saved) && Lists(definitions, saved)
        ensures monitors == Reloaded(saved, allows, expiry, now) && (outcome.Some? <==> monitors != saved)
      {
        ReloadedIs(definitions, saved, allows, expiry, now, admitted, expired);
      }
    }

    /**
     A registry of what the store holds, less whatever may not be answered here or has expired; that is saved again
     exactly if it is less. There is no registry when the disk will not give the file.
     */
    static method Load(store: Store, allows: ReplyTo -> bool, expiry: Option<Time>, now: Time)
      returns (registry: Registry?)
      requires store.Valid()
      modifies store
      ensures registry == null ==>
        store.Valid() && store.file == old(store.file) && store.committed == old(store.committed)
          && !NoTrouble(old(store.fates), store.fates)
      ensures registry != null ==>
        fresh(registry) && registry.Valid() && registry.store == store && registry.expiry == expiry
      ensures registry != null ==> forall saved: Registered :: Keyed(saved) && old(Holds(store, saved)) ==>
        registry.monitors == Reloaded(saved, allows, expiry, now)
          && (registry.outcome.Some? <==> registry.monitors != saved)
      ensures registry != null && (old(store.file).None? || old(store.file).value.Unreadable?) ==>
        registry.monitors == map[] && registry.outcome == None
      ensures registry != null ==>
        SavedAs(registry.outcome, FileRead(old(store.file)), old(store.committed), store.file, store.committed,
                registry.monitors)
      ensures registry != null && registry.outcome.Some? && NoTrouble(old(store.fates), store.fates) ==>
        registry.outcome == Some(Written)
      ensures old(store.fates) <= store.fates
    {
      var definitions := store.Load();
      if definitions.None? { return null; }
      registry := new Registry(store, expiry);
      registry.Start(definitions.value, allows, now);
    }

    method Save()
      requires Valid()
      modifies this`outcome, store
      ensures Valid() && SaveMade(true)
    {
      var definitions := Values();
      var made := store.Save(definitions);
      outcome := Some(made);
    }

    method Values() returns (definitions: seq<MonitorDefinition>)
      requires Keyed(monitors)
      ensures Lists(definitions, monitors)
    {
      definitions := [];
      var left := monitors.Keys;
      while left != {}
        invariant left <= monitors.Keys && left !! KeysOf(definitions) && left + KeysOf(definitions) == monitors.Keys
        invariant DistinctKeys(definitions)
        invariant forall i :: 0 <= i < |definitions| ==>
          definitions[i].key in monitors && monitors[definitions[i].key] == definitions[i]
        decreases left
      {
        var key :| key in left;
        assert forall i :: 0 <= i < |definitions| ==> definitions[i].key in KeysOf(definitions);
        assert KeysOf(definitions + [monitors[key]]) == KeysOf(definitions) + {key};
        definitions := definitions + [monitors[key]];
        left := left - {key};
      }
    }

    /** A Put: the monitor is live whatever was there before, and what was there is handed back. */
    method Upsert(definition: MonitorDefinition) returns (previous: Option<MonitorDefinition>)
      requires Valid()
      modifies this`monitors, this`outcome, store
      ensures Valid() && monitors == Changed(old(monitors), Put(definition), expiry) && SaveMade(true)
      ensures previous == if definition.key in old(monitors) then Some(old(monitors)[definition.key]) else None
    {
      previous := if definition.key in monitors then Some(monitors[definition.key]) else None;
      monitors := monitors[definition.key := definition.(suspendedSince := None)];
      Save();
    }

    method Remove(key: MonitorKey) returns (removed: bool)
      requires Valid()
      modifies this`monitors, this`outcome, store
      ensures Valid() && monitors == Changed(old(monitors), Drop(key), expiry) && removed == (key in old(monitors))
      ensures SaveMade(Saves(old(monitors), Drop(key), expiry))
    {
      outcome := None;
      if key !in monitors { return false; }
      monitors := monitors - {key};
      Save();
      removed := true;
    }

    method Suspend(key: MonitorKey, now: Time)
      requires Valid()
      modifies this`monitors, this`outcome, store
      ensures Valid() && monitors == Changed(old(monitors), Silence(key, now), expiry)
      ensures SaveMade(Saves(old(monitors), Silence(key, now), expiry))
    {
      outcome := None;
      if key !in monitors || monitors[key].IsSuspended() { return; }
      assert monitors[key] != Suspended(monitors[key], now);
      monitors := monitors[key := monitors[key].(suspendedSince := Some(now))];
      Save();
    }

    /** An Expire: exactly the monitors whose suspension is too long ago are gone, and their keys handed back. */
    method RemoveExpired(now: Time) returns (expired: set<MonitorKey>)
      requires Valid()
      modifies this`monitors, this`outcome, store
      ensures Valid() && monitors == old(monitors) - expired == Changed(old(monitors), Expire(now), expiry)
      ensures forall key :: key in expired <==> key in old(monitors) && IsExpired(old(monitors)[key], expiry, now)
      ensures SaveMade(Saves(old(monitors), Expire(now), expiry))
    {
      outcome, expired := None, {};
      if expiry.None? { return; }
      expired := set key | key in monitors && IsExpired(monitors[key], expiry, now);
      if expired == {} { return; }
      assert exists key :: key in expired;
      monitors := monitors - expired;
      Save();
    }

    method Apply(change: Change)
      requires Valid()
      modifies this`monitors, this`outcome, store
      ensures Valid() && monitors == Changed(old(monitors), change, expiry)
      ensures SaveMade(Saves(old(monitors), change, expiry))
    {
      match change {
        case Put(definition) => var _ := Upsert(definition);
        case Drop(key) => var _ := Remove(key);
        case Silence(key, now) => Suspend(key, now);
        case Expire(now) => var _ := RemoveExpired(now);
      }
    }
  }

  /** A save gave the file the registry, or left it as it was; only one that died may have done either. */
  ghost predicate SavedAs(outcome: Option<SaveOutcome>, file: Option<Content>, committed: seq<seq<MonitorDefinition>>,
                          file': Option<Content>, committed': seq<seq<MonitorDefinition>>, monitors: Registered) {
    if committed' == committed then file' == file && outcome != Some(Written)
    else
      && |committed'| == |committed| + 1 && outcome.Some? && outcome != Some(NotWritten)
      && file' == Some(Saved(committed'[|committed|])) && Lists(committed'[|committed|], monitors)
  }

  /** What reading a file leaves of it. */
  function FileRead(file: Option<Content>): Option<Content> {
    if file == Some(Unreadable) then None else file
  }

  // ------------------------------------------------------------------------------------------------------------
  // How long a suspended monitor stays

  /**
   A live monitor that is suspended at `since`, and again later if so, is still there at an expiry check up to `expiry`
   after `since`, and gone at any later one; without an expiry it stays, and a live one always does.
   */
  lemma StaysUntilExpired(monitors: Registered, key: MonitorKey, since: Time, again: Time, now: Time,
                          expiry: Option<Time>)
    requires key in monitors && !monitors[key].IsSuspended()
    ensures key in Changed(monitors, Expire(now), expiry)
    ensures var suspended := Changed(monitors, Silence(key, since), expiry);
      && key in suspended && suspended[key].IsSuspended()
      && (key in Changed(suspended, Expire(now), expiry) <==> expiry.None? || now - since <= expiry.value)
      && (key in Changed(Changed(suspended, Silence(key, again), expiry), Expire(now), expiry) <==>
            expiry.None? || now - since <= expiry.value)
  {
    var suspended := Changed(monitors, Silence(key, since), expiry);
    assert suspended[key].suspendedSince == Some(since);
    assert Changed(suspended, Silence(key, again), expiry)[key] == suspended[key];
  }

  /** And the key of its sender and node, asked for again, is live from then on, whatever it was before. */
  lemma ReclaimedIsLive(monitors: Registered, definition: MonitorDefinition, now: Time, expiry: Option<Time>)
    ensures var reclaimed := Changed(Changed(monitors, Put(definition), expiry), Expire(now), expiry);
      definition.key in reclaimed && !reclaimed[definition.key].IsSuspended()
        && reclaimed[definition.key].parameters == definition.parameters
        && reclaimed[definition.key].replyTo == definition.replyTo
  {}

  /** A reload gives back just those monitors that may be answered here and have not been suspended for too long. */
  lemma ReloadKeeps(saved: Registered, allows: ReplyTo -> bool, expiry: Option<Time>, now: Time, key: MonitorKey)
    ensures var reloaded := Reloaded(saved, allows, expiry, now);
      && (key in reloaded <==>
            key in saved && allows(saved[key].replyTo)
              && match (saved[key].suspendedSince, expiry)
                 case (Some(since), Some(longest)) => now - since <= longest
                 case _ => true)
      && (key in reloaded ==> reloaded[key] == saved[key])
  {}
}
