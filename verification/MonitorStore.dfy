/**
 The monitors file. A save writes a temporary file and renames it over the old one, so whatever fails, and wherever
 the process dies, the file holds either what it held before or what was being saved.
 */
module MonitorStore {
  import opened Options
  import opened Monitors

  /** A file is readable, holding what was saved, or it is not. */
  datatype Content = Saved(monitors: seq<MonitorDefinition>) | Unreadable

  datatype SaveOutcome = Written | NotWritten | Died

  /** What becomes of one step on the disk: it is taken, it fails, or the process dies there. */
  datatype Fate = Fine | Fails | Dies

  /** Every step since `before` was taken. */
  ghost predicate NoTrouble(before: seq<Fate>, after: seq<Fate>) {
    before <= after && forall i :: |before| <= i < |after| ==> after[i].Fine?
  }

  /** `monitors`, in some order. */
  ghost predicate Lists(definitions: seq<MonitorDefinition>, monitors: map<MonitorKey, MonitorDefinition>) {
    && DistinctKeys(definitions) && KeysOf(definitions) == monitors.Keys
    && forall i :: 0 <= i < |definitions| ==>
        definitions[i].key in monitors && monitors[definitions[i].key] == definitions[i]
  }

  ghost predicate Keyed(monitors: map<MonitorKey, MonitorDefinition>) {
    forall key :: key in monitors ==> monitors[key].key == key
  }

  lemma ListsUnique(definitions: seq<MonitorDefinition>, a: map<MonitorKey, MonitorDefinition>,
                    b: map<MonitorKey, MonitorDefinition>)
    requires Lists(definitions, a) && Lists(definitions, b)
    ensures a == b
  {
    forall key | key in a ensures key in b && a[key] == b[key] {
      assert key in KeysOf(definitions);
      var definition :| definition in definitions && definition.key == key;
    }
  }

  class Store {
    var file: Option<Content>
    var temp: Option<Content>
    /** How every step on the disk went. */
    var fates: seq<Fate>
    /** Every content the file has been given by a save, oldest first. */
    ghost var committed: seq<seq<MonitorDefinition>>
    ghost const initial: Option<Content>

    constructor (file: Option<Content>, temp: Option<Content>)
      ensures this.file == file && fates == [] && committed == [] && initial == file && Valid()
    {
      this.file, this.temp, fates, committed, initial := file, temp, [], [], file;
    }

    /** The file is what the last completed save wrote, or what was there before any, unless it was set aside. */
    ghost predicate Valid()
      reads this
    {
      file.None? || (if committed == [] then file == initial else file == Some(Saved(committed[|committed| - 1])))
    }

    method Step() returns (fate: Fate)
      modifies this`fates
      ensures fates == old(fates) + [fate] && fates[|old(fates)|] == fate
    {
      fate := *;
      fates := fates + [fate];
    }

    /** Writes the temporary file, and renames it over the old one. */
    method Replace(monitors: seq<MonitorDefinition>) returns (outcome: SaveOutcome)
      requires Valid()
      modifies this
      ensures Valid()
      ensures file == old(file) || file == Some(Saved(monitors))
      ensures outcome.Written? ==> file == Some(Saved(monitors)) && temp == None
      ensures outcome.NotWritten? ==> file == old(file)
      ensures if file == old(file) && committed == old(committed) then !outcome.Written?
        else file == Some(Saved(monitors)) && committed == old(committed) + [monitors] && !outcome.NotWritten?
      ensures old(fates) < fates && (outcome.Died? <==> fates[|fates| - 1].Dies?)
      ensures outcome.Written? || !fates[|fates| - 1].Fine?
    {
      var fate := Step();
      if fate.Fine? {
        // partly written until the write is over
        temp := Some(Unreadable);
        fate := Step();
        if fate.Fine? {
          temp := Some(Saved(monitors));
          fate := Step();
          if fate.Fine? {
            file, temp := temp, None;
            committed := committed + [monitors];
            fate := Step();
            return if fate.Dies? then Died else Written;
          }
        }
      }
      outcome := if fate.Dies? then Died else NotWritten;
    }

    /**
     Replaces the whole file; every step may fail, and the process may die before or after any of them. Nothing but
     that keeps what is saved out of the file.
     */
    method Save(monitors: seq<MonitorDefinition>) returns (outcome: SaveOutcome)
      requires Valid()
      modifies this
      ensures Valid()
      ensures file == old(file) || file == Some(Saved(monitors))
      ensures outcome.Written? ==> file == Some(Saved(monitors)) && temp == None
      ensures outcome.NotWritten? ==> file == old(file)
      ensures if file == old(file) && committed == old(committed) then !outcome.Written?
        else file == Some(Saved(monitors)) && committed == old(committed) + [monitors] && !outcome.NotWritten?
      ensures old(fates) < fates && (outcome.Died? <==> fates[|fates| - 1].Dies?)
      ensures NoTrouble(old(fates), fates) ==> outcome.Written?
    {
      outcome := Replace(monitors);
      if outcome.NotWritten? {
        ghost var failed := |fates| - 1;
        var fate := Step();
        assert !fates[failed].Fine?;
        if fate.Dies? { return Died; }
        if fate.Fine? { temp := None; }
      }
    }

    /**
     What the file holds. One that does not make sense is moved aside, never overwritten; when the disk will not give
     it, or will not move it, the bridge does not start, and the file stays as it is.
     */
    method Load() returns (loaded: Option<seq<MonitorDefinition>>)
      requires Valid()
      modifies this`file, this`fates
      ensures Valid() && old(fates) <= fates
      ensures loaded.None? ==> file == old(file) && !NoTrouble(old(fates), fates)
      ensures loaded.Some? ==>
        && (old(file) == Some(Saved(loaded.value))
            || (loaded.value == [] && (old(file).None? || old(file) == Some(Unreadable))))
        && file == if old(file) == Some(Unreadable) then None else old(file)
    {
      if file.None? { return Some([]); }
      var fate := Step();
      if !fate.Fine? { return None; }
      match file.value {
        case Saved(saved) => loaded := Some(saved);
        case Unreadable =>
          fate := Step();
          if !fate.Fine? { return None; }
          file := None;
          loaded := Some([]);
      }
    }
  }
}
