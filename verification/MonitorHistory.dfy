/**
 The monitors file over many lives of the bridge. Each life loads the file, changes the registry, and ends wherever the
 process dies: between two changes, or inside a save. Whatever the disk does, the file holds the registry as some save
 wrote it; the next save that meets no trouble brings it up to date; and the next life starts from it.
 */
module MonitorHistory {
  import opened Options
  import opened Monitors
  import opened MonitorStore
  import opened MonitorRegistry

  /** What one life of the bridge sets out to do. */
  datatype Plan = Plan(allows: ReplyTo -> bool, expiry: Option<Time>, start: Time, changes: seq<Change>)

  /**
   One change, what became of its save if it made one, whether the file was given the registry, and how the disk fared.
   */
  datatype Step = Step(change: Change, before: Registered, after: Registered, outcome: Option<SaveOutcome>,
                       committed: bool, fates: seq<Fate>)

  /** A life that never started, or one that loaded something, perhaps saving it again, and went on for some steps. */
  datatype Life =
    | NotStarted(fates: seq<Fate>)
    | Lived(loaded: Registered, outcome: Option<SaveOutcome>, committed: bool, fates: seq<Fate>, steps: seq<Step>)

  ghost predicate AllFine(fates: seq<Fate>) {
    NoTrouble([], fates)
  }

  /** What a reader of the file would find; nothing, when there is none or it makes no sense. */
  ghost predicate FileHolds(store: Store, held: Option<Registered>)
    reads store
  {
    match held
    case None => store.file.None? || store.file.value.Unreadable?
    case Some(monitors) => Keyed(monitors) && Holds(store, monitors)
  }

  /** What the file holds after some steps: the registry of the last step that gave it one. */
  ghost function AfterSteps(held: Option<Registered>, steps: seq<Step>): Option<Registered> {
    if steps == [] then held
    else
      var last := steps[|steps| - 1];
      if last.committed then Some(last.after) else AfterSteps(held, steps[..|steps| - 1])
  }

  ghost function AfterLife(held: Option<Registered>, life: Life): Option<Registered> {
    match life
    case NotStarted(_) => held
    case Lived(loaded, _, committed, _, steps) => AfterSteps(if committed then Some(loaded) else held, steps)
  }

  ghost function AfterLives(held: Option<Registered>, lives: seq<Life>): Option<Registered> {
    if lives == [] then held else AfterLife(AfterLives(held, lives[..|lives| - 1]), lives[|lives| - 1])
  }

  /** The registry after some steps. */
  ghost function RegistryAfter(loaded: Registered, steps: seq<Step>): Registered {
    if steps == [] then loaded else steps[|steps| - 1].after
  }

  /** A save reaches the file unless something goes wrong, and only dying leaves open whether it did. */
  ghost predicate SaveRight(outcome: Option<SaveOutcome>, committed: bool, fates: seq<Fate>) {
    && (committed ==> outcome.Some? && outcome != Some(NotWritten)) && (outcome == Some(Written) ==> committed)
    && (outcome.Some? && AllFine(fates) ==> outcome == Some(Written))
  }

  ghost predicate StepRight(step: Step, expiry: Option<Time>) {
    && step.after == Changed(step.before, step.change, expiry)
    && (step.outcome.Some? <==> Saves(step.before, step.change, expiry))
    && SaveRight(step.outcome, step.committed, step.fates)
  }

  /** Each step starts from the registry the one before left, and none follows one the process died in. */
  ghost predicate StepsRight(loaded: Registered, steps: seq<Step>, changes: seq<Change>, expiry: Option<Time>) {
    && |steps| <= |changes|
    && forall i {:trigger steps[i]} :: 0 <= i < |steps| ==>
         && StepRight(steps[i], expiry) && steps[i].change == changes[i]
         && steps[i].before == RegistryAfter(loaded, steps[..i])
         && (i < |steps| - 1 ==> steps[i].outcome != Some(Died))
  }

  /** What a life starts from: what the file holds, but for what may not be answered here and what has expired. */
  function Loaded(held: Option<Registered>, plan: Plan): Registered {
    if held.Some? then Reloaded(held.value, plan.allows, plan.expiry, plan.start) else map[]
  }

  ghost predicate LifeRight(held: Option<Registered>, plan: Plan, life: Life) {
    match life
    case NotStarted(fates) => !AllFine(fates)
    case Lived(loaded, outcome, committed, fates, steps) =>
      && loaded == Loaded(held, plan)
      && (outcome.Some? <==> held.Some? && loaded != held.value) && SaveRight(outcome, committed, fates)
      && StepsRight(loaded, steps, plan.changes, plan.expiry) && (outcome == Some(Died) ==> steps == [])
      && (|steps| < |plan.changes| ==> HasDied(life))
  }

  ghost predicate HasDied(life: Life)
    requires life.Lived?
  {
    if life.steps == [] then life.outcome == Some(Died) else life.steps[|life.steps| - 1].outcome == Some(Died)
  }

  // ------------------------------------------------------------------------------------------------------------
  // What histories leave in the file

  /** The file holds what it held at first, or the registry some step had, the last that gave the file one. */
  lemma {:induction false} FileIsLastCommitted(held: Option<Registered>, steps: seq<Step>)
    ensures || (AfterSteps(held, steps) == held && forall i :: 0 <= i < |steps| ==> !steps[i].committed)
            || exists k :: 0 <= k < |steps| && IsLastCommitted(steps, k)
                && AfterSteps(held, steps) == Some(steps[k].after)
  {
    if steps != [] && !steps[|steps| - 1].committed {
      var fewer := steps[..|steps| - 1];
      FileIsLastCommitted(held, fewer);
      if k :| 0 <= k < |fewer| && IsLastCommitted(fewer, k) && AfterSteps(held, fewer) == Some(fewer[k].after) {
        assert steps[k] == fewer[k] && IsLastCommitted(steps, k);
      }
    } else if steps != [] {
      assert IsLastCommitted(steps, |steps| - 1);
    }
  }

  ghost predicate IsLastCommitted(steps: seq<Step>, k: nat)
    requires k < |steps|
  {
    steps[k].committed && forall i :: k < i < |steps| ==> !steps[i].committed
  }

  /** A save that meets no trouble brings the file up to date with the registry, whatever failed before it. */
  lemma UntroubledSaveCatchesUp(held: Option<Registered>, loaded: Registered, steps: seq<Step>, changes: seq<Change>,
                                expiry: Option<Time>)
    requires StepsRight(loaded, steps, changes, expiry) && steps != []
    requires var last := steps[|steps| - 1]; last.outcome.Some? && AllFine(last.fates)
    ensures AfterSteps(held, steps) == Some(RegistryAfter(loaded, steps))
  {
    assert StepRight(steps[|steps| - 1], expiry);
  }

  /** No file at all stands for an empty registry. */
  ghost predicate Reflects(held: Option<Registered>, monitors: Registered) {
    held == Some(monitors) || (held == None && monitors == map[])
  }

  /** As long as nothing goes wrong the file reflects the registry, after every step. */
  lemma {:induction false} UntroubledIsInStep(held: Option<Registered>, loaded: Registered, steps: seq<Step>,
                                              changes: seq<Change>, expiry: Option<Time>)
    requires StepsRight(loaded, steps, changes, expiry) && Reflects(held, loaded)
    requires forall i :: 0 <= i < |steps| ==> AllFine(steps[i].fates)
    ensures Reflects(AfterSteps(held, steps), RegistryAfter(loaded, steps))
  {
    if steps != [] {
      var n := |steps| - 1;
      StepsBefore(loaded, steps, changes, expiry);
      UntroubledIsInStep(held, loaded, steps[..n], changes, expiry);
      assert StepRight(steps[n], expiry) && steps[n].before == RegistryAfter(loaded, steps[..n]);
    }
  }

  lemma StepsBefore(loaded: Registered, steps: seq<Step>, changes: seq<Change>, expiry: Option<Time>)
    requires StepsRight(loaded, steps, changes, expiry) && steps != []
    ensures StepsRight(loaded, steps[..|steps| - 1], changes, expiry)
  {
    var fewer := steps[..|steps| - 1];
    forall i | 0 <= i < |fewer|
      ensures StepRight(fewer[i], expiry) && fewer[i].change == changes[i]
      ensures fewer[i].before == RegistryAfter(loaded, fewer[..i])
      ensures fewer[i].outcome != Some(Died)
    {
      assert fewer[i] == steps[i] && fewer[..i] == steps[..i];
    }
  }

  lemma StepAfter(loaded: Registered, steps: seq<Step>, changes: seq<Change>, expiry: Option<Time>, step: Step)
    requires StepsRight(loaded, steps, changes, expiry) && |steps| < |changes|
    requires (steps == [] || steps[|steps| - 1].outcome != Some(Died))
    requires StepRight(step, expiry) && step.change == changes[|steps|] && step.before == RegistryAfter(loaded, steps)
    ensures StepsRight(loaded, steps + [step], changes, expiry)
  {
    var more := steps + [step];
    forall i | 0 <= i < |more|
      ensures StepRight(more[i], expiry) && more[i].change == changes[i]
      ensures more[i].before == RegistryAfter(loaded, more[..i])
      ensures i < |more| - 1 ==> more[i].outcome != Some(Died)
    {
      assert more[..i] == steps[..i];
      if i < |steps| { assert more[i] == steps[i]; } else { assert steps[..i] == steps; }
    }
  }

  /** A life in which nothing goes wrong leaves the file reflecting its registry. */
  lemma UntroubledLife(held: Option<Registered>, plan: Plan, life: Life)
    requires life.Lived? && LifeRight(held, plan, life) && AllFine(life.fates)
    requires forall i :: 0 <= i < |life.steps| ==> AllFine(life.steps[i].fates)
    ensures Reflects(AfterLife(held, life), RegistryAfter(life.loaded, life.steps))
  {
    UntroubledIsInStep(if life.committed then Some(life.loaded) else held, life.loaded, life.steps, plan.changes,
                       plan.expiry);
  }

  /** What reflects a registry gives it back to the next life, less what may not be answered and what has expired. */
  lemma ReloadGivesBack(held: Option<Registered>, monitors: Registered, plan: Plan)
    requires Reflects(held, monitors)
    ensures Loaded(held, plan) == Reloaded(monitors, plan.allows, plan.expiry, plan.start)
  {}

  // ------------------------------------------------------------------------------------------------------------
  // Living

  method Take(registry: Registry, change: Change, ghost held: Option<Registered>) returns (ghost step: Step)
    requires registry.Valid() && FileHolds(registry.store, held)
    modifies registry, registry.store
    ensures registry.Valid()
    ensures StepRight(step, registry.expiry) && step.change == change && step.before == old(registry.monitors)
    ensures step.after == registry.monitors
    ensures step.outcome == registry.outcome
    ensures FileHolds(registry.store, if step.committed then Some(registry.monitors) else held)
  {
    ghost var fates := registry.store.fates;
    ghost var committed := registry.store.committed;
    registry.Apply(change);
    step := Step(change, old(registry.monitors), registry.monitors, registry.outcome, registry.store.committed
                 != committed, registry.store.fates[|fates|..]);
  }

  /** Changes the registry until the plan is done or the process dies. */
  method GoOn(registry: Registry, plan: Plan, ghost held: Option<Registered>) returns (ghost steps: seq<Step>)
    requires registry.Valid() && registry.expiry == plan.expiry && FileHolds(registry.store, held)
    requires registry.outcome != Some(Died)
    modifies registry, registry.store
    ensures registry.Valid() && StepsRight(old(registry.monitors), steps, plan.changes, plan.expiry)
    ensures registry.monitors == RegistryAfter(old(registry.monitors), steps)
    ensures |steps| < |plan.changes| ==> steps != [] && steps[|steps| - 1].outcome == Some(Died)
    ensures FileHolds(registry.store, AfterSteps(held, steps))
  {
    steps := [];
    var i := 0;
    while i < |plan.changes| && registry.outcome != Some(Died)
      invariant i == |steps| <= |plan.changes| && registry.Valid() && registry.expiry == plan.expiry
      invariant StepsRight(old(registry.monitors), steps, plan.changes, plan.expiry)
      invariant registry.monitors == RegistryAfter(old(registry.monitors), steps)
      invariant registry.outcome == Some(Died) ==> steps != []
      invariant steps != [] ==> registry.outcome == steps[|steps| - 1].outcome
      invariant FileHolds(registry.store, AfterSteps(held, steps))
    {
      ghost var step := Take(registry, plan.changes[i], AfterSteps(held, steps));
      StepAfter(old(registry.monitors), steps, plan.changes, plan.expiry, step);
      assert (steps + [step])[..|steps|] == steps;
      steps, i := steps + [step], i + 1;
    }
  }

  /** One life, from loading the file to its end. */
  method Live(store: Store, plan: Plan, ghost held: Option<Registered>) returns (ghost life: Life)
    requires store.Valid() && FileHolds(store, held)
    modifies store
    ensures store.Valid() && LifeRight(held, plan, life) && FileHolds(store, AfterLife(held, life))
  {
    ghost var fates, committed := store.fates, store.committed;
    var registry := Registry.Load(store, plan.allows, plan.expiry, plan.start);
    if registry == null {
      life := NotStarted(store.fates[|fates|..]);
      return;
    }
    ghost var loaded, outcome, again, meanwhile :=
      registry.monitors, registry.outcome, store.committed != committed, store.fates[|fates|..];
    ghost var now := if again then Some(loaded) else held;
    ghost var steps := [];
    if registry.outcome != Some(Died) {
      steps := GoOn(registry, plan, now);
    }
    life := Lived(loaded, outcome, again, meanwhile, steps);
  }

  /**
   Any number of lives, one after the other. Each starts from what the lives before it left in the file, less what may
   not be answered and what has expired; and the file always holds what the last save to reach it wrote.
   */
  method LiveOn(store: Store, plans: seq<Plan>, ghost held: Option<Registered>) returns (ghost lives: seq<Life>)
    requires store.Valid() && FileHolds(store, held)
    modifies store
    ensures store.Valid() && |lives| == |plans|
    ensures forall i :: 0 <= i < |lives| ==> LifeRight(AfterLives(held, lives[..i]), plans[i], lives[i])
    ensures FileHolds(store, AfterLives(held, lives))
  {
    lives := [];
    for i := 0 to |plans|
      invariant store.Valid() && |lives| == i && FileHolds(store, AfterLives(held, lives))
      invariant forall j :: 0 <= j < i ==> LifeRight(AfterLives(held, lives[..j]), plans[j], lives[j])
    {
      ghost var life := Live(store, plans[i], AfterLives(held, lives));
      ghost var more := lives + [life];
      assert more[..i] == lives && forall j :: 0 <= j < i ==> more[..j] == lives[..j];
      lives := more;
    }
  }
}
