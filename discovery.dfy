/** What collecting a reward means on the grid: when it is allowed, what it
    changes, and what it does to the counters. */
module Discovery {
  import opened MineTypes
  import opened Counters

  /** The tile belongs to the reward group `id`. */
  predicate InGroup(t: Tile, id: int) {
    t.reward.Some? && t.reward.value.id == id
  }

  /** Every tile of reward group `id` is at depth exactly 0. */
  predicate GroupExposed(g: seq<Tile>, id: int) {
    forall i :: 0 <= i < |g| && InGroup(g[i], id) ==> Exposed(g[i])
  }

  /** The reward on tile `k` may be collected: there is one, the tile is not
      deeper than 0, it is not collected yet, and its whole footprint is
      exposed. */
  predicate Collectable(g: seq<Tile>, k: nat)
    requires k < |g|
  {
    && g[k].reward.Some?
    && !(g[k].layerDepth > 0)
    && !g[k].reward.value.rewarded
    && GroupExposed(g, g[k].reward.value.id)
  }

  /** The tiles of group `id` with `rewarded` set; every other tile as it was. */
  function MarkRewarded(g: seq<Tile>, id: int): (r: seq<Tile>)
    ensures |r| == |g|
    ensures forall i :: 0 <= i < |g| && !InGroup(g[i], id) ==> r[i] == g[i]
    ensures forall i :: 0 <= i < |g| && InGroup(g[i], id) ==>
              r[i] == g[i].(reward := Some(g[i].reward.value.(rewarded := true)))
  {
    seq(|g|, i requires 0 <= i < |g| =>
      if InGroup(g[i], id) then g[i].(reward := Some(g[i].reward.value.(rewarded := true))) else g[i])
  }

  /** All copies of a reward agree on whether it has been collected. */
  predicate GroupsAgree(g: seq<Tile>) {
    forall i, j ::
      0 <= i < |g| && 0 <= j < |g| && g[j].reward.Some? && InGroup(g[i], g[j].reward.value.id) ==>
        g[i].reward.value.rewarded == g[j].reward.value.rewarded
  }

  /** Once a reward has been collected, collecting it again from any of its
      tiles is refused. */
  lemma SecondCollectFails(g: seq<Tile>, k: nat, j: nat)
    requires k < |g| && j < |g| && Collectable(g, k)
    requires InGroup(g[j], g[k].reward.value.id)
    ensures !Collectable(MarkRewarded(g, g[k].reward.value.id), j)
  {
  }

  /** Collecting keeps the copies of every reward in agreement. */
  lemma MarkKeepsGroupsAgree(g: seq<Tile>, id: int)
    requires GroupsAgree(g)
    ensures GroupsAgree(MarkRewarded(g, id))
  {
  }

  /** Collecting changes neither the buried nor the partially found counter. */
  lemma {:induction false} MarkKeepsBuriedAndPartial(g: seq<Tile>, id: int)
    ensures BuriedIds(MarkRewarded(g, id)) == BuriedIds(g)
    ensures PartiallyFoundIds(MarkRewarded(g, id)) == PartiallyFoundIds(g)
  {
    var h := MarkRewarded(g, id);
    forall t ensures t in BuriedIds(h) <==> t in BuriedIds(g) {
      CountedIds(h, t);
      CountedIds(g, t);
      if t in BuriedIds(g) {
        var i :| 0 <= i < |g| && g[i].reward.Some? && g[i].reward.value.id == t;
        assert h[i].reward.Some? && h[i].reward.value.id == t;
      }
    }
    forall t ensures t in PartiallyFoundIds(h) <==> t in PartiallyFoundIds(g) {
      CountedIds(h, t);
      CountedIds(g, t);
      if t in PartiallyFoundIds(g) {
        var i :| 0 <= i < |g| && g[i].reward.Some? && g[i].reward.value.id == t && Exposed(g[i]);
        assert h[i].reward.Some? && h[i].reward.value.id == t && Exposed(h[i]);
      }
    }
  }

  /** Collecting reward `id` from tile `k` adds exactly `id` to the found ids. */
  lemma {:induction false} MarkAddsFoundId(g: seq<Tile>, k: nat)
    requires k < |g| && g[k].reward.Some?
    ensures FoundIds(MarkRewarded(g, g[k].reward.value.id)) == FoundIds(g) + {g[k].reward.value.id}
  {
    var id := g[k].reward.value.id;
    var h := MarkRewarded(g, id);
    forall t ensures t in FoundIds(h) <==> t in FoundIds(g) + {id} {
      CountedIds(h, t);
      CountedIds(g, t);
      if t == id {
        assert h[k].reward.Some? && h[k].reward.value.id == t && h[k].reward.value.rewarded;
      } else if t in FoundIds(g) {
        var i :| 0 <= i < |g| && g[i].reward.Some? && g[i].reward.value.id == t && g[i].reward.value.rewarded;
        assert h[i] == g[i];
      }
    }
  }

  /** When the copies of every reward agree, a successful collection raises
      the found counter by exactly one. */
  lemma {:induction false} CollectCountsOnce(g: seq<Tile>, k: nat)
    requires k < |g| && GroupsAgree(g) && Collectable(g, k)
    ensures ItemsFound(MarkRewarded(g, g[k].reward.value.id)) == ItemsFound(g) + 1
  {
    var id := g[k].reward.value.id;
    MarkAddsFoundId(g, k);
    CountedIds(g, id);
    assert id !in FoundIds(g);
  }
}
