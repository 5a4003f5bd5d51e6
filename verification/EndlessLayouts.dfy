/**
 Structures that contain themselves as a scalar, however deep. Reading one would never end, and there is none to read:
 no value can be encoded as one. Every set of layouts parts into these and those that have a rank.
 */
module EndlessLayouts {
  import opened Options
  import opened StructureLayouts
  import opened StructureCodec

  lemma {:induction false} EncodedFieldGiven(cx: Context, layouts: Layouts, value: Json, id: LayoutId, k: nat, j: nat)
    requires Closed(layouts) && id in layouts && value.Obj? && k <= j < |layouts[id].fields|
    requires EncodeFieldsFrom(cx, layouts, value, id, k).Ok?
    ensures var field := layouts[id].fields[j]; var given := Given(value, field.name);
            if given.Null? then EncodeNull(field).Ok? else EncodeGiven(cx, layouts, given, field).Ok?
    decreases j - k
  {
    if k < j { EncodedFieldGiven(cx, layouts, value, id, k + 1, j); }
  }

  /** No JSON value can be encoded as a structure that contains itself as a scalar, however deep. */
  lemma {:induction false} EndlessHasNoValues(cx: Context, layouts: Layouts, ids: set<LayoutId>, value: Json,
                                              id: LayoutId)
    requires Closed(layouts) && Endless(layouts, ids) && id in ids
    ensures EncodeStructure(cx, layouts, value, id).Refused?
    decreases value
  {
    if EncodeStructure(cx, layouts, value, id).Ok? {
      assert NestsSome(layouts[id], ids);
      var k :| 0 <= k < |layouts[id].fields| && NestsInto(layouts[id].fields[k], ids);
      var field := layouts[id].fields[k];
      EncodedFieldGiven(cx, layouts, value, id, 0, k);
      assert field.name in value.props;
      EndlessHasNoValues(cx, layouts, ids, value.props[field.name], field.structure.value);
    }
  }

  /** They have no rank, in any ranking; */
  lemma EndlessHasNoRank(layouts: Layouts, ids: set<LayoutId>, rank: map<LayoutId, nat>, top: nat, id: LayoutId)
    requires Endless(layouts, ids) && Ranked(layouts, rank, top) && id in ids
    ensures id !in rank
  {
    if id in rank { Descend(layouts, ids, rank, top, id); }
  }

  lemma {:induction false} Descend(layouts: Layouts, ids: set<LayoutId>, rank: map<LayoutId, nat>, top: nat,
                                   id: LayoutId)
    requires Endless(layouts, ids) && Ranked(layouts, rank, top) && id in ids && id in rank
    ensures false
    decreases rank[id]
  {
    assert NestsSome(layouts[id], ids);
    var k :| 0 <= k < |layouts[id].fields| && NestsInto(layouts[id].fields[k], ids);
    Descend(layouts, ids, rank, top, layouts[id].fields[k].structure.value);
  }

  /** and whatever the layouts, there is a ranking, no higher than their number, in which exactly they have none. */
  lemma RankExists(layouts: Layouts)
    requires Closed(layouts)
    ensures exists rank: map<LayoutId, nat>, top: nat :: Ranked(layouts, rank, top) && top <= |layouts|
  {
    var rank, top := RankRemaining(layouts, layouts.Keys, map[], 0);
  }

  ghost predicate RankedSoFar(layouts: Layouts, left: set<LayoutId>, rank: map<LayoutId, nat>, top: nat) {
    && left <= layouts.Keys && rank.Keys == layouts.Keys - left && top + |left| == |layouts|
    && (forall id :: id in rank ==> rank[id] < top)
    && forall id, k :: id in rank && 0 <= k < |layouts[id].fields| ==>
         var field := layouts[id].fields[k];
         field.structure.Some? && !field.isArray ==>
           field.structure.value in rank && rank[field.structure.value] < rank[id]
  }

  /** Ranks next a structure that nests no unranked one, until all that are left nest without end. */
  lemma {:induction false} RankRemaining(layouts: Layouts, left: set<LayoutId>, rank: map<LayoutId, nat>, top: nat)
    returns (rank': map<LayoutId, nat>, top': nat)
    requires Closed(layouts) && RankedSoFar(layouts, left, rank, top)
    ensures Ranked(layouts, rank', top') && top' <= |layouts|
    decreases left
  {
    if Endless(layouts, left) {
      assert layouts.Keys - rank.Keys == left;
      return rank, top;
    }
    var id :| id in left && !NestsSome(layouts[id], left);
    forall k | 0 <= k < |layouts[id].fields| && layouts[id].fields[k].structure.Some? && !layouts[id].fields[k].isArray
      ensures layouts[id].fields[k].structure.value in rank
    {
      assert !NestsInto(layouts[id].fields[k], left);
    }
    rank', top' := RankRemaining(layouts, left - {id}, rank[id := top], top + 1);
  }

  /** What is encoded has a rank. */
  lemma EncodedIsRanked(cx: Context, sc: Schema, value: Json, id: LayoutId)
    requires sc.Valid() && id in sc.layouts && EncodeStructure(cx, sc.layouts, value, id).Ok?
    ensures id in sc.rank
  {
    if id !in sc.rank { EndlessHasNoValues(cx, sc.layouts, sc.layouts.Keys - sc.rank.Keys, value, id); }
  }
}
