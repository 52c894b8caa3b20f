/** The three counters a mine shows are never kept incrementally: each is the
    number of distinct reward ids among the tiles that pass a filter. */
module Counters {
  import opened MineTypes

  /** Ids of every reward present in the grid (`itemsBuried`). */
  function BuriedIds(g: seq<Tile>): set<int> {
    set i | 0 <= i < |g| && g[i].reward.Some? :: g[i].reward.value.id
  }

  /** Ids with at least one collected tile (`itemsFound`). */
  function FoundIds(g: seq<Tile>): set<int> {
    set i | 0 <= i < |g| && g[i].reward.Some? && g[i].reward.value.rewarded :: g[i].reward.value.id
  }

  /** Ids with at least one tile at depth 0 (`itemsPartiallyFound`): one exposed
      tile is enough, the rest of the footprint may still be buried. */
  function PartiallyFoundIds(g: seq<Tile>): set<int> {
    set i | 0 <= i < |g| && g[i].reward.Some? && Exposed(g[i]) :: g[i].reward.value.id
  }

  function ItemsBuried(g: seq<Tile>): nat { |BuriedIds(g)| }
  function ItemsFound(g: seq<Tile>): nat { |FoundIds(g)| }
  function ItemsPartiallyFound(g: seq<Tile>): nat { |PartiallyFoundIds(g)| }

  /** The counter definitions, stated pointwise: an id is counted exactly when
      some tile with that id passes the counter's filter. */
  lemma CountedIds(g: seq<Tile>, id: int)
    ensures id in BuriedIds(g) <==>
              exists i :: 0 <= i < |g| && g[i].reward.Some? && g[i].reward.value.id == id
    ensures id in FoundIds(g) <==>
              exists i :: 0 <= i < |g| && g[i].reward.Some? && g[i].reward.value.id == id && g[i].reward.value.rewarded
    ensures id in PartiallyFoundIds(g) <==>
              exists i :: 0 <= i < |g| && g[i].reward.Some? && g[i].reward.value.id == id && Exposed(g[i])
  {
  }

  lemma SubsetCardinality(a: set<int>, b: set<int>)
    requires a <= b
    ensures |a| <= |b|
    ensures |a| == |b| ==> a == b
  {
    assert b == a + (b - a);
    assert |b| == |a| + |b - a|;
    if |a| == |b| {
      assert |b - a| == 0;
    }
  }

  /** Neither found nor partially found rewards can outnumber the buried ones. */
  lemma CountersBounded(g: seq<Tile>)
    ensures ItemsFound(g) <= ItemsBuried(g)
    ensures ItemsPartiallyFound(g) <= ItemsBuried(g)
  {
    SubsetCardinality(FoundIds(g), BuriedIds(g));
    SubsetCardinality(PartiallyFoundIds(g), BuriedIds(g));
  }

  /** When as many rewards are found as are buried, every buried reward has a
      collected tile: the completion test cannot fire early. */
  lemma AllFoundWhenCountsMatch(g: seq<Tile>)
    requires ItemsFound(g) == ItemsBuried(g)
    ensures FoundIds(g) == BuriedIds(g)
    ensures forall i :: 0 <= i < |g| && g[i].reward.Some? ==> g[i].reward.value.id in FoundIds(g)
  {
    SubsetCardinality(FoundIds(g), BuriedIds(g));
    assert forall i :: 0 <= i < |g| && g[i].reward.Some? ==> g[i].reward.value.id in BuriedIds(g);
  }

  /** Changing one tile's depth leaves the buried and found counters alone, and
      leaves the partially found counter alone as long as that tile is exposed
      neither before nor after. */
  lemma {:induction false} DepthChangeKeepsCounters(g: seq<Tile>, k: nat, depth: int)
    requires k < |g|
    requires !Exposed(g[k]) && depth != 0
    ensures BuriedIds(g[k := g[k].(layerDepth := depth)]) == BuriedIds(g)
    ensures FoundIds(g[k := g[k].(layerDepth := depth)]) == FoundIds(g)
    ensures PartiallyFoundIds(g[k := g[k].(layerDepth := depth)]) == PartiallyFoundIds(g)
  {
    var h := g[k := g[k].(layerDepth := depth)];
    assert forall i :: 0 <= i < |g| ==> h[i].reward == g[i].reward && (Exposed(h[i]) <==> Exposed(g[i]));
    forall id ensures id in BuriedIds(h) <==> id in BuriedIds(g) {
      CountedIds(h, id);
      CountedIds(g, id);
    }
    forall id ensures id in FoundIds(h) <==> id in FoundIds(g) {
      CountedIds(h, id);
      CountedIds(g, id);
    }
    forall id ensures id in PartiallyFoundIds(h) <==> id in PartiallyFoundIds(g) {
      CountedIds(h, id);
      CountedIds(g, id);
    }
  }

  /** Changing a tile's depth never changes the buried or found counters. */
  lemma {:induction false} DepthChangeKeepsBuriedAndFound(g: seq<Tile>, k: nat, depth: int)
    requires k < |g|
    ensures BuriedIds(g[k := g[k].(layerDepth := depth)]) == BuriedIds(g)
    ensures FoundIds(g[k := g[k].(layerDepth := depth)]) == FoundIds(g)
  {
    var h := g[k := g[k].(layerDepth := depth)];
    assert forall i :: 0 <= i < |g| ==> h[i].reward == g[i].reward;
    forall id ensures id in BuriedIds(h) <==> id in BuriedIds(g) {
      CountedIds(h, id);
      CountedIds(g, id);
    }
    forall id ensures id in FoundIds(h) <==> id in FoundIds(g) {
      CountedIds(h, id);
      CountedIds(g, id);
    }
  }

  /** A survey hint changes no counter. */
  lemma {:induction false} SurveyKeepsCounters(g: seq<Tile>, k: nat, range: int)
    requires k < |g|
    ensures BuriedIds(g[k := g[k].(survey := range)]) == BuriedIds(g)
    ensures FoundIds(g[k := g[k].(survey := range)]) == FoundIds(g)
    ensures PartiallyFoundIds(g[k := g[k].(survey := range)]) == PartiallyFoundIds(g)
  {
    var h := g[k := g[k].(survey := range)];
    assert forall i :: 0 <= i < |g| ==> h[i].reward == g[i].reward && h[i].layerDepth == g[i].layerDepth;
    forall id ensures id in BuriedIds(h) <==> id in BuriedIds(g) {
      CountedIds(h, id);
      CountedIds(g, id);
    }
    forall id ensures id in FoundIds(h) <==> id in FoundIds(g) {
      CountedIds(h, id);
      CountedIds(g, id);
    }
    forall id ensures id in PartiallyFoundIds(h) <==> id in PartiallyFoundIds(g) {
      CountedIds(h, id);
      CountedIds(g, id);
    }
  }
}
