/** Groups of tipsets that share an epoch and parents. */
module TipsetGroups {

  import opened Common

  /** The block headers of a tipset, beyond what the syncer looks at. */
  type Blocks(==, !new)

  /** A tipset key names its tipset by content. */
  datatype TipsetKeys = Genesis | KeysOf(tipset: Tipset)

  datatype Tipset = Tipset(blocks: Blocks, epoch: int, parents: TipsetKeys, weight: int)

  datatype RangeKey = RangeKey(epoch: int, parents: TipsetKeys)

  function RangeOf(t: Tipset): RangeKey { RangeKey(t.epoch, t.parents) }

  datatype TipsetGroup = TipsetGroup(tipsets: seq<Tipset>, range: RangeKey)

  ghost function ToSet(ts: seq<Tipset>): set<Tipset> {
    set t | t in ts
  }

  ghost predicate Distinct(ts: seq<Tipset>) {
    forall i, j | 0 <= i < j < |ts| :: ts[i] != ts[j]
  }

  ghost predicate GroupInv(g: TipsetGroup) {
    g.tipsets != [] && Distinct(g.tipsets) && forall t | t in g.tipsets :: RangeOf(t) == g.range
  }

  ghost function Members(g: TipsetGroup): set<Tipset> {
    ToSet(g.tipsets)
  }

  /** The largest weight in a nonempty set. */
  ghost predicate Heaviest(w: int, s: set<Tipset>) {
    (exists t :: t in s && t.weight == w) && forall t | t in s :: t.weight <= w
  }

  lemma HeaviestUnion(a: int, s: set<Tipset>, b: int, t: set<Tipset>)
    requires Heaviest(a, s) && Heaviest(b, t)
    ensures Heaviest(if a < b then b else a, s + t)
  {
    var x :| x in s && x.weight == a;
    var y :| y in t && y.weight == b;
    assert x in s + t && y in s + t;
  }

  lemma HeaviestUnique(a: int, b: int, s: set<Tipset>)
    requires Heaviest(a, s) && Heaviest(b, s)
    ensures a == b
  {
  }

  function NewGroup(t: Tipset): (g: TipsetGroup)
    ensures GroupInv(g) && Members(g) == {t} && g.range == RangeKey(t.epoch, t.parents)
  {
    TipsetGroup([t], RangeOf(t))
  }

  /** try_add_tipset; the flag says whether the tipset was added. */
  method TryAddTipset(g: TipsetGroup, t: Tipset) returns (r: TipsetGroup, added: bool)
    requires GroupInv(g)
    ensures GroupInv(r) && r.range == g.range
    ensures Members(r) == Members(g) + (if t.epoch == g.range.epoch && t.parents == g.range.parents then {t} else {})
    ensures added <==> t.epoch == g.range.epoch && t.parents == g.range.parents && t !in Members(g)
  {
    if g.range != RangeOf(t) {
      return g, false;
    }
    if t in g.tipsets {
      return g, false;
    }
    r, added := g.(tipsets := g.tipsets + [t]), true;
  }

  method Merge(g: TipsetGroup, other: TipsetGroup) returns (r: TipsetGroup)
    requires GroupInv(g) && GroupInv(other) && g.range == other.range
    ensures GroupInv(r) && r.range == g.range && Members(r) == Members(g) + Members(other)
  {
    r := g;
    for i := 0 to |other.tipsets|
      invariant GroupInv(r) && r.range == g.range
      invariant Members(r) == Members(g) + ToSet(other.tipsets[..i])
    {
      assert RangeOf(other.tipsets[i]) == g.range;
      var added;
      r, added := TryAddTipset(r, other.tipsets[i]);
      TakeSnoc(other.tipsets, i);
      assert ToSet(other.tipsets[..i + 1]) == ToSet(other.tipsets[..i]) + {other.tipsets[i]};
    }
    assert other.tipsets[..|other.tipsets|] == other.tipsets;
  }

  /** The position `max_by_key` settles on: the last of the heaviest. */
  ghost predicate LastHeaviestAt(ts: seq<Tipset>, k: nat) {
    && k < |ts| && (forall j | 0 <= j < |ts| :: ts[j].weight <= ts[k].weight)
    && (forall j | k < j < |ts| :: ts[j].weight < ts[k].weight)
  }

  ghost function HeaviestAt(ts: seq<Tipset>): (k: nat)
    requires ts != []
    ensures LastHeaviestAt(ts, k)
  {
    var n := |ts| - 1;
    if n == 0 then 0
    else
      var k := HeaviestAt(ts[..n]);
      assert ts[..n][k] == ts[k];
      if ts[n].weight >= ts[k].weight then n else k
  }

  /** The tipset that `max_by_key` settles on. */
  ghost function LastHeaviest(ts: seq<Tipset>): Tipset
    requires ts != []
  {
    ts[HeaviestAt(ts)]
  }

  lemma LastHeaviestIs(ts: seq<Tipset>, k: nat)
    requires LastHeaviestAt(ts, k)
    ensures LastHeaviest(ts) == ts[k]
  {
    var l := HeaviestAt(ts);
    assert l == k;
  }

  lemma LastHeaviestIsHeaviest(ts: seq<Tipset>)
    requires ts != []
    ensures LastHeaviest(ts) in ts && Heaviest(LastHeaviest(ts).weight, ToSet(ts))
  {
    assert LastHeaviest(ts) in ToSet(ts);
  }

  method HeaviestIndex(ts: seq<Tipset>) returns (k: nat)
    requires ts != []
    ensures k < |ts| && ts[k] == LastHeaviest(ts)
  {
    k := 0;
    for i := 1 to |ts|
      invariant k < i <= |ts|
      invariant forall j | 0 <= j < i :: ts[j].weight <= ts[k].weight
      invariant forall j | k < j < i :: ts[j].weight < ts[k].weight
    {
      if ts[i].weight >= ts[k].weight {
        k := i;
      }
    }
    LastHeaviestIs(ts, k);
  }

  method HeaviestWeight(g: TipsetGroup) returns (w: int)
    requires GroupInv(g)
    ensures Heaviest(w, Members(g))
  {
    var k := HeaviestIndex(g.tipsets);
    LastHeaviestIsHeaviest(g.tipsets);
    w := g.tipsets[k].weight;
  }

  /** take_heaviest_tipset: the last of the heaviest leaves, the last tipset takes its place. */
  method TakeHeaviest(g: TipsetGroup) returns (t: Tipset, rest: seq<Tipset>)
    requires GroupInv(g)
    ensures t == LastHeaviest(g.tipsets)
    ensures t in Members(g) && Heaviest(t.weight, Members(g))
    ensures Distinct(rest) && ToSet(rest) == Members(g) - {t}
  {
    var ts := g.tipsets;
    var k := HeaviestIndex(ts);
    LastHeaviestIsHeaviest(ts);
    var n := |ts| - 1;
    t := ts[k];
    rest := ts[k := ts[n]][..n];
    SwapRemoved(ts, k);
  }

  lemma SwapRemoved(ts: seq<Tipset>, k: nat)
    requires k < |ts| && Distinct(ts)
    ensures var rest := ts[k := ts[|ts| - 1]][..|ts| - 1]; Distinct(rest) && ToSet(rest) == ToSet(ts) - {ts[k]}
  {
    var n := |ts| - 1;
    var rest := ts[k := ts[n]][..n];
    forall x | x in ts && x != ts[k]
      ensures x in rest
    {
      var i :| 0 <= i < |ts| && ts[i] == x;
      assert rest[if i == n then k else i] == x;
    }
  }

  // ---- the tipsets read off the stream in one poll ----

  ghost function InRange(ts: seq<Tipset>, k: RangeKey): set<Tipset> {
    set t | t in ts && t.epoch == k.epoch && t.parents == k.parents
  }

  /** One group for each epoch and parents that arrived, holding exactly what arrived for them. */
  ghost predicate Grouped(groups: map<RangeKey, TipsetGroup>, ts: seq<Tipset>) {
    && (forall k | k in groups :: GroupInv(groups[k]) && groups[k].range == k && Members(groups[k]) == InRange(ts, k))
    && (forall t | t in ts :: RangeOf(t) in groups)
  }

  method GroupArrivals(ts: seq<Tipset>) returns (groups: map<RangeKey, TipsetGroup>)
    ensures Grouped(groups, ts)
  {
    groups := map[];
    for i := 0 to |ts|
      invariant Grouped(groups, ts[..i])
    {
      var t := ts[i];
      var key := RangeOf(t);
      ghost var before := groups;
      if key !in groups {
        groups := groups[key := NewGroup(t)];
      } else {
        var g, added := TryAddTipset(groups[key], t);
        groups := groups[key := g];
      }
      TakeSnoc(ts, i);
      GroupedStep(before, groups, ts[..i], t);
    }
    assert ts[..|ts|] == ts;
  }

  lemma GroupedStep(before: map<RangeKey, TipsetGroup>, after: map<RangeKey, TipsetGroup>, ts: seq<Tipset>, t: Tipset)
    requires Grouped(before, ts) && RangeOf(t) in after && after == before[RangeOf(t) := after[RangeOf(t)]]
    requires GroupInv(after[RangeOf(t)]) && after[RangeOf(t)].range == RangeOf(t)
    requires Members(after[RangeOf(t)]) == (if RangeOf(t) in before then Members(before[RangeOf(t)]) else {}) + {t}
    ensures Grouped(after, ts + [t])
  {
    var key := RangeOf(t);
    forall k | k in after
      ensures Members(after[k]) == InRange(ts + [t], k)
    {
      assert k != key ==> InRange(ts + [t], k) == InRange(ts, k);
      assert k == key ==> InRange(ts + [t], k) == InRange(ts, k) + {t};
    }
  }

  /** A heaviest group; which one, if several are, depends on the order of a hash map. */
  method HeaviestGroup(groups: map<RangeKey, TipsetGroup>) returns (g: TipsetGroup, w: int)
    requires groups != map[] && forall k | k in groups :: GroupInv(groups[k]) && groups[k].range == k
    ensures g.range in groups && g == groups[g.range] && Heaviest(w, Members(g))
    ensures forall k, t | k in groups && t in Members(groups[k]) :: t.weight <= w
  {
    var left := groups.Keys;
    var first :| first in left;
    left := left - {first};
    g := groups[first];
    w := HeaviestWeight(g);
    while left != {}
      invariant left <= groups.Keys && g.range in groups && g == groups[g.range] && Heaviest(w, Members(g))
      invariant forall k, t | k in groups && k !in left && t in Members(groups[k]) :: t.weight <= w
      decreases |left|
    {
      var k :| k in left;
      left := left - {k};
      var v := HeaviestWeight(groups[k]);
      if v >= w {
        g, w := groups[k], v;
      }
    }
  }
}
