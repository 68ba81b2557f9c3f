/** Loading everything that can be reached from a root through DAG-CBOR links, each block once. */
module LinkWalk {

  import opened Common
  import opened IpldModel

  /** The blocks that load and decode. */
  type Store = map<Cid, Ipld>

  /** `Failed`: a block is missing or does not decode. */
  datatype Result = Ok | Failed

  ghost function Wanted(links: seq<Cid>): set<Cid> {
    set c | c in links && c.codec == DAG_CBOR
  }

  ghost function Kids(v: Ipld): set<Cid> {
    Wanted(Links(v))
  }

  /** A path over links that avoids what was walked before; only its last block may be missing. */
  ghost predicate WhitePath(store: Store, walked: set<Cid>, p: seq<Cid>) {
    && p != [] && (forall i | 0 <= i < |p| :: p[i] !in walked)
    && (forall i | 0 <= i < |p| - 1 :: p[i] in store && p[i + 1] in Kids(store[p[i]]))
  }

  ghost predicate PathFrom(store: Store, walked: set<Cid>, from: set<Cid>, p: seq<Cid>, c: Cid) {
    WhitePath(store, walked, p) && p[0] in from && p[|p| - 1] == c
  }

  ghost predicate Reached(store: Store, walked: set<Cid>, from: set<Cid>, c: Cid) {
    exists p :: PathFrom(store, walked, from, p, c)
  }

  /** The walk from `from` took `before` to `after`: closed under links, and nothing but white paths. */
  ghost predicate WalkedTo(store: Store, from: set<Cid>, before: set<Cid>, after: set<Cid>) {
    && before <= after && from <= after
    && forall c | c in after && c !in before ::
         && c in store && c.codec == DAG_CBOR && Kids(store[c]) <= after
         && Reached(store, before, from, c)
  }

  /** A missing block lies on a white path. */
  ghost predicate Stuck(store: Store, from: set<Cid>, before: set<Cid>) {
    exists c :: c !in store && Reached(store, before, from, c)
  }

  // ---- paths ----

  lemma ReachedMore(store: Store, small: set<Cid>, large: set<Cid>, from: set<Cid>, more: set<Cid>, c: Cid)
    requires small <= large && from <= more && Reached(store, large, from, c)
    ensures Reached(store, small, more, c)
  {
    var p :| PathFrom(store, large, from, p, c);
    assert PathFrom(store, small, more, p, c);
  }

  lemma ReachedThrough(store: Store, walked: set<Cid>, k: Cid, c: Cid)
    requires k !in walked && k in store && Reached(store, walked + {k}, Kids(store[k]), c)
    ensures Reached(store, walked, {k}, c)
  {
    var p :| PathFrom(store, walked + {k}, Kids(store[k]), p, c);
    var q := [k] + p;
    forall i | 0 <= i < |q| - 1
      ensures q[i] in store && q[i + 1] in Kids(store[q[i]])
    {
      if i > 0 {
        assert q[i] == p[i - 1] && q[i + 1] == p[i - 1 + 1];
      }
    }
    assert PathFrom(store, walked, {k}, q, c);
  }

  lemma ReachedAtOnce(store: Store, walked: set<Cid>, k: Cid)
    requires k !in walked
    ensures Reached(store, walked, {k}, k)
  {
    assert PathFrom(store, walked, {k}, [k], k);
  }

  // ---- composing walks ----

  lemma WalkedThen(store: Store, a: set<Cid>, b: set<Cid>, before: set<Cid>, mid: set<Cid>, after: set<Cid>)
    requires WalkedTo(store, a, before, mid) && WalkedTo(store, b, mid, after)
    ensures WalkedTo(store, a + b, before, after)
  {
    forall c | c in after && c !in before
      ensures c in store && c.codec == DAG_CBOR && Kids(store[c]) <= after && Reached(store, before, a + b, c)
    {
      if c in mid {
        ReachedMore(store, before, before, a, a + b, c);
      } else {
        ReachedMore(store, before, mid, b, a + b, c);
      }
    }
  }

  lemma StuckThen(store: Store, a: set<Cid>, b: set<Cid>, before: set<Cid>, mid: set<Cid>)
    requires before <= mid && Stuck(store, b, mid)
    ensures Stuck(store, a + b, before)
  {
    var c :| c !in store && Reached(store, mid, b, c);
    ReachedMore(store, before, mid, b, a + b, c);
  }

  lemma WalkedLink(store: Store, k: Cid, before: set<Cid>, after: set<Cid>)
    requires k !in before && k in store && k.codec == DAG_CBOR
    requires WalkedTo(store, Kids(store[k]), before + {k}, after)
    ensures WalkedTo(store, {k}, before, after)
  {
    forall c | c in after && c !in before
      ensures c in store && c.codec == DAG_CBOR && Kids(store[c]) <= after && Reached(store, before, {k}, c)
    {
      if c == k {
        ReachedAtOnce(store, before, k);
      } else {
        ReachedThrough(store, before, k, c);
      }
    }
  }

  lemma StuckLink(store: Store, k: Cid, before: set<Cid>)
    requires k !in before && (k in store ==> Stuck(store, Kids(store[k]), before + {k}))
    ensures Stuck(store, {k}, before)
  {
    if k in store {
      var c :| c !in store && Reached(store, before + {k}, Kids(store[k]), c);
      ReachedThrough(store, before, k, c);
    } else {
      ReachedAtOnce(store, before, k);
    }
  }

  /** A finished walk holds exactly what was walked before and the ends of white paths. */
  lemma WalkedExactly(store: Store, from: set<Cid>, before: set<Cid>, after: set<Cid>, c: Cid)
    requires WalkedTo(store, from, before, after)
    ensures c in after <==> c in before || Reached(store, before, from, c)
  {
    if c !in before && Reached(store, before, from, c) {
      var p :| PathFrom(store, before, from, p, c);
      PathStaysIn(store, from, before, after, p);
    }
  }

  lemma {:induction false} PathStaysIn(store: Store, from: set<Cid>, before: set<Cid>, after: set<Cid>, p: seq<Cid>)
    requires WalkedTo(store, from, before, after) && WhitePath(store, before, p) && p[0] in from
    ensures p[|p| - 1] in after
  {
    if |p| <= 1 {
    } else {
      var n := |p| - 2;
      var init := p[..n + 1];
      forall i | 0 <= i < |init| - 1
        ensures init[i] in store && init[i + 1] in Kids(store[init[i]])
      {
        assert init[i] == p[i] && init[i + 1] == p[i + 1];
      }
      PathStaysIn(store, from, before, after, init);
      assert p[n] in after && p[n + 1] in Kids(store[p[n]]);
    }
  }

  // ---- the loads ----

  /** The loads of a walk: every newly walked block, once each. */
  ghost predicate LoadedOnce(was: seq<Cid>, now: seq<Cid>, before: set<Cid>, after: set<Cid>) {
    multiset(now) == multiset(was) + multiset(after - before)
  }

  lemma LoadedThen(a: seq<Cid>, b: seq<Cid>, c: seq<Cid>, before: set<Cid>, mid: set<Cid>, after: set<Cid>)
    requires before <= mid <= after && LoadedOnce(a, b, before, mid) && LoadedOnce(b, c, mid, after)
    ensures LoadedOnce(a, c, before, after)
  {
    assert multiset(after - before) == multiset(mid - before) + multiset(after - mid);
  }

  lemma LinksSoFar(vs: seq<Ipld>, i: nat)
    requires i < |vs|
    ensures Wanted(LinksInList(vs[..i + 1])) == Wanted(LinksInList(vs[..i])) + Kids(vs[i])
  {
    ListConcat(vs[..i], [vs[i]]);
    assert [vs[i]][1..] == [];
    TakeSnoc(vs, i);
  }

  lemma EntriesSoFar(es: seq<Entry>, i: nat)
    requires i < |es|
    ensures Wanted(LinksInMap(es[..i + 1])) == Wanted(LinksInMap(es[..i])) + Kids(es[i].value)
  {
    MapConcat(es[..i], [es[i]]);
    assert [es[i]][1..] == [];
    TakeSnoc(es, i);
  }

  class Walk {
    /** What load_block finds. */
    const store: Store
    var walked: set<Cid>
    /** The identifiers load_block was called with. */
    var loads: seq<Cid>

    constructor (store: Store, walked: set<Cid>)
      ensures this.store == store && this.walked == walked && loads == []
    {
      this.store, this.walked, loads := store, walked, [];
    }

    ghost predicate Grown(from: set<Cid>, before: set<Cid>, was: seq<Cid>, r: Result)
      reads this
    {
      && before <= walked
      && (r.Ok? ==> WalkedTo(store, from, before, walked) && LoadedOnce(was, loads, before, walked))
      && (r.Failed? ==> Stuck(store, from, before))
    }

    /** traverse_ipld_links. */
    method TraverseLinks(v: Ipld) returns (r: Result)
      modifies this
      ensures Grown(Kids(v), old(walked), old(loads), r)
      decreases store.Keys - walked, v, 2
    {
      match v
      case Map(entries) => r := TraverseMap(entries);
      case List(items) => r := TraverseList(items);
      case Link(cid) => r := TraverseLink(cid);
      case _ => r := Ok;
    }

    method TraverseList(items: seq<Ipld>) returns (r: Result)
      modifies this
      ensures Grown(Wanted(LinksInList(items)), old(walked), old(loads), r)
      decreases store.Keys - walked, items
    {
      ghost var before, was := walked, loads;
      r := Ok;
      for i := 0 to |items|
        invariant r.Ok? && Grown(Wanted(LinksInList(items[..i])), before, was, r)
      {
        ghost var mid, had := walked, loads;
        r := TraverseLinks(items[i]);
        LinksSoFar(items, i);
        Join(Wanted(LinksInList(items[..i])), Kids(items[i]), before, was, mid, had, r);
        if r.Failed? {
          StuckMore(store, items, i, before);
          return;
        }
      }
      assert items[..|items|] == items;
    }

    method TraverseMap(entries: seq<Entry>) returns (r: Result)
      modifies this
      ensures Grown(Wanted(LinksInMap(entries)), old(walked), old(loads), r)
      decreases store.Keys - walked, entries
    {
      ghost var before, was := walked, loads;
      r := Ok;
      for i := 0 to |entries|
        invariant r.Ok? && Grown(Wanted(LinksInMap(entries[..i])), before, was, r)
      {
        ghost var mid, had := walked, loads;
        r := TraverseLinks(entries[i].value);
        EntriesSoFar(entries, i);
        Join(Wanted(LinksInMap(entries[..i])), Kids(entries[i].value), before, was, mid, had, r);
        if r.Failed? {
          StuckMoreEntries(store, entries, i, before);
          return;
        }
      }
      assert entries[..|entries|] == entries;
    }

    method TraverseLink(cid: Cid) returns (r: Result)
      modifies this
      ensures Grown(Kids(Link(cid)), old(walked), old(loads), r)
      decreases store.Keys - walked, Link(cid), 1
    {
      if cid.codec != DAG_CBOR {
        return Ok;
      }
      assert Kids(Link(cid)) == {cid};
      if cid in walked {
        return Ok;
      }
      walked := walked + {cid};
      r := LoadAndTraverse(cid, old(walked), old(loads));
    }

    /** Loads a block that was just marked, and follows its links. */
    method LoadAndTraverse(cid: Cid, ghost before: set<Cid>, ghost was: seq<Cid>) returns (r: Result)
      requires cid.codec == DAG_CBOR && cid !in before && walked == before + {cid} && loads == was
      modifies this
      ensures Grown({cid}, before, was, r)
      decreases store.Keys - before, Link(cid), 0
    {
      if cid !in store {
        StuckLink(store, cid, before);
        return Failed;
      }
      loads := loads + [cid];
      ghost var had := loads;
      r := TraverseLinks(store[cid]);
      if r.Ok? {
        WalkedLink(store, cid, before, walked);
        LoadedThen(was, had, loads, before, before + {cid}, walked);
      } else {
        StuckLink(store, cid, before);
      }
    }

    /** Two walks after one another. */
    lemma Join(a: set<Cid>, b: set<Cid>, before: set<Cid>, was: seq<Cid>, mid: set<Cid>, had: seq<Cid>, r: Result)
      requires WalkedTo(store, a, before, mid) && LoadedOnce(was, had, before, mid)
      requires Grown(b, mid, had, r)
      ensures Grown(a + b, before, was, r)
    {
      if r.Ok? {
        WalkedThen(store, a, b, before, mid, walked);
        LoadedThen(was, had, loads, before, mid, walked);
      } else {
        StuckThen(store, a, b, before, mid);
      }
    }

    /**
     recurse_links. When it ends well, what is walked is exactly what was walked before, the root, and
     whatever a path of unwalked DAG-CBOR links leads to from it, each loaded once.
     It fails if and only if one of those blocks is missing. Cycles do no harm.
     */
    method RecurseLinks(root: Cid) returns (r: Result)
      modifies this
      ensures r.Failed? <==> root.codec == DAG_CBOR && root !in old(walked) && Stuck(store, {root}, old(walked))
      ensures r.Ok? && (root.codec != DAG_CBOR || root in old(walked)) ==>
                walked == old(walked) + {root} && loads == old(loads)
      ensures r.Ok? && root.codec == DAG_CBOR && root !in old(walked) ==>
                && LoadedOnce(old(loads), loads, old(walked), walked)
                && forall c :: c in walked <==> c in old(walked) || Reached(store, old(walked), {root}, c)
    {
      if root in walked {
        return Ok;
      }
      walked := walked + {root};
      if root.codec != DAG_CBOR {
        return Ok;
      }
      r := LoadAndTraverse(root, old(walked), old(loads));
      if r.Ok? {
        forall c
          ensures c in walked <==> c in old(walked) || Reached(store, old(walked), {root}, c)
        {
          WalkedExactly(store, {root}, old(walked), walked, c);
        }
        assert !Stuck(store, {root}, old(walked));
      }
    }
  }

  lemma StuckFrom(store: Store, from: set<Cid>, more: set<Cid>, before: set<Cid>)
    requires from <= more && Stuck(store, from, before)
    ensures Stuck(store, more, before)
  {
    var c :| c !in store && Reached(store, before, from, c);
    ReachedMore(store, before, before, from, more, c);
  }

  lemma StuckMore(store: Store, vs: seq<Ipld>, i: nat, before: set<Cid>)
    requires i < |vs| && Stuck(store, Wanted(LinksInList(vs[..i + 1])), before)
    ensures Stuck(store, Wanted(LinksInList(vs)), before)
  {
    ListConcat(vs[..i + 1], vs[i + 1..]);
    assert vs == vs[..i + 1] + vs[i + 1..];
    StuckFrom(store, Wanted(LinksInList(vs[..i + 1])), Wanted(LinksInList(vs)), before);
  }

  lemma {:induction false} ListConcat(a: seq<Ipld>, b: seq<Ipld>)
    ensures LinksInList(a + b) == LinksInList(a) + LinksInList(b)
  {
    if a == [] {
      assert a + b == b;
    } else {
      ListConcat(a[1..], b);
      assert (a + b)[1..] == a[1..] + b;
      ConcatAssoc(Links(a[0]), LinksInList(a[1..]), LinksInList(b));
    }
  }

  lemma StuckMoreEntries(store: Store, es: seq<Entry>, i: nat, before: set<Cid>)
    requires i < |es| && Stuck(store, Wanted(LinksInMap(es[..i + 1])), before)
    ensures Stuck(store, Wanted(LinksInMap(es)), before)
  {
    MapConcat(es[..i + 1], es[i + 1..]);
    assert es == es[..i + 1] + es[i + 1..];
    StuckFrom(store, Wanted(LinksInMap(es[..i + 1])), Wanted(LinksInMap(es)), before);
  }

  lemma {:induction false} MapConcat(a: seq<Entry>, b: seq<Entry>)
    ensures LinksInMap(a + b) == LinksInMap(a) + LinksInMap(b)
  {
    if a == [] {
      assert a + b == b;
    } else {
      MapConcat(a[1..], b);
      assert (a + b)[1..] == a[1..] + b;
      ConcatAssoc(Links(a[0].value), LinksInMap(a[1..]), LinksInMap(b));
    }
  }
}
