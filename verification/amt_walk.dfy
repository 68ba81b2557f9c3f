/** Whole-node walks of the AMT: flush, listing, and iteration that only reads. */
module AmtWalk {
  import opened Common
  import opened Callbacks
  import opened AmtIndex
  import opened AmtCodec
  import opened AmtModel
  import opened AmtNode

  // ---- flush ----

  /** The loop of Node::serialize that refuses modified links. */
  method CidsOf(n: Node) returns (r: Result<seq<Option<Cid>>>)
    requires n.LinkNode?
    ensures r.Ok? <==> Clean(n)
    ensures r.Ok? ==> r.value == Erase(n).links
    ensures !r.Ok? ==> r == Err(Cached)
  {
    var cids := [];
    for i := 0 to |n.links|
      invariant |cids| == i && forall k | 0 <= k < i :: cids[k] == Erase(n).links[k] && !IsDirty(n.links[k])
    {
      assert Erase(n).links[i] == EraseLink(n.links[i]);
      match n.links[i] {
        case None => cids := cids + [None];
        case Some(CidLink(c, _)) => cids := cids + [Some(c)];
        case Some(Dirty(_)) =>
          assert IsDirty(n.links[i]);
          return Err(Cached);
      }
    }
    r := Ok(cids);
  }

  /** Node::serialize: a node without modified links is encoded, any other is refused. */
  method Serialize(n: Node) returns (r: Result<Collapsed>)
    ensures r.Ok? <==> Clean(n)
    ensures r.Ok? ==> Encodes(r.value, Erase(n))
    ensures !r.Ok? ==> r == Err(Cached)
  {
    match n
    case LeafNode(vals) =>
      var bmap, items := PackSlots(vals);
      r := Ok(Collapsed(bmap, [], items));
    case LinkNode(links) =>
      var cids := CidsOf(n);
      if cids.Err? {
        return Err(cids.error);
      }
      var bmap, items := PackSlots(cids.value);
      r := Ok(Collapsed(bmap, items, []));
  }

  lemma {:induction false} ResolvableGrows(s: Store, s': Store, f: Flat)
    requires s.Keys <= s'.Keys && Resolvable(s, f)
    ensures Resolvable(s', f)
    decreases f
  {
    if !f.Links? {
    } else {
      forall i | 0 <= i < |f.links| && f.links[i].Some?
        ensures f.links[i].value in s' && Resolvable(s', f.links[i].value.node)
      {
        ResolvableGrows(s, s', f.links[i].value.node);
      }
    }
  }

  lemma {:induction false} NodeResolvableGrows(s: Store, s': Store, n: Node)
    requires s.Keys <= s'.Keys && NodeResolvable(s, n)
    ensures NodeResolvable(s', n)
    decreases n
  {
    if !n.LinkNode? {
    } else {
      forall i | 0 <= i < |n.links|
        ensures LinkResolvable(s', n.links[i])
      {
        match n.links[i]
        case None =>
        case Some(CidLink(c, _)) => ResolvableGrows(s, s', c.node);
        case Some(Dirty(m)) => NodeResolvableGrows(s, s', m);
      }
    }
  }

  /** Node::flush: no modified link is left, and serialisation is never refused. */
  method Flush(s: Store, n: Node) returns (s': Store, n': Node)
    requires Coherent(n)
    ensures Erase(n') == Erase(n) && Clean(n') && Coherent(n')
    ensures s.Keys <= s'.Keys
    ensures NodeResolvable(s, n) ==> NodeResolvable(s', n')
    decreases n, 0
  {
    s', n' := s, n;
    if n.LinkNode? {
      for i := 0 to |n.links|
        invariant n'.LinkNode? && |n'.links| == |n.links| && Erase(n') == Erase(n) && Coherent(n')
        invariant forall k | 0 <= k < i :: !IsDirty(n'.links[k])
        invariant forall k | i <= k < |n.links| :: n'.links[k] == n.links[k]
        invariant s.Keys <= s'.Keys
        invariant NodeResolvable(s, n) ==> NodeResolvable(s', n')
      {
        if IsDirty(n.links[i]) {
          ghost var before, sBefore := n', s';
          var l;
          s', l := FlushLink(s', n.links[i].value.node);
          n' := LinkNode(n'.links[i := Some(l)]);
          LinkReplaced(s', before, n', i, Some(l));
          if NodeResolvable(sBefore, before) {
            NodeResolvableGrows(sBefore, s', before);
          }
        }
      }
    }
  }

  /** Flush a modified child, write it, and keep it as the new link's cache. */
  method FlushLink(s: Store, c: Node) returns (s': Store, l: Link)
    requires Coherent(c)
    ensures l.CidLink? && EraseLink(Some(l)) == Some(Cid(Erase(c))) && LinkCoherent(Some(l))
    ensures s.Keys <= s'.Keys
    ensures NodeResolvable(s, c) ==> LinkResolvable(s', Some(l))
    decreases c, 1
  {
    var s1, c' := Flush(s, c);
    var block := Serialize(c');
    l := CidLink(CidFor(c'), Some(c'));
    s' := s1[l.cid := block.value];
    if NodeResolvable(s, c) {
      NodeResolvableGrows(s1, s', c');
      CleanResolvable(s', c');
    }
  }

  /** The CID of a serialised node. */
  function CidFor(n: Node): (c: Cid)
    requires Clean(n)
    ensures c == Cid(Erase(n))
  {
    match n
    case LeafNode(vals) => Cid(Leaf(vals))
    case LinkNode(links) =>
      var f := Links(seq(|links|, i requires 0 <= i < |links| => assert !IsDirty(links[i]); CidOfLink(links[i])));
      assert f.links == Erase(n).links;
      Cid(f)
  }

  function CidOfLink(l: Option<Link>): (c: Option<Cid>)
    requires !IsDirty(l)
    ensures c == EraseLink(l)
  {
    if l.None? then None else Some(l.value.cid)
  }

  // ---- what iteration meets ----

  datatype Item = Item(i: nat, v: Value)

  ghost function ListVals(vals: seq<Option<Value>>, offset: nat): seq<Item> {
    if vals == [] then []
    else
      var k := |vals| - 1;
      ListVals(vals[..k], offset) + (if vals[k].None? then [] else [Item(offset + k, vals[k].value)])
  }

  ghost predicate SlotsWellFormed(w: nat, links: seq<Option<Cid>>, h: nat) {
    forall k | 0 <= k < |links| :: SlotWellFormed(w, links[k], h)
  }

  /** `offset + k * c`, as the position reached after `k` slots of `c` indices. */
  ghost function SlotOffset(offset: nat, k: nat, c: nat): nat {
    if k == 0 then offset else SlotOffset(offset, k - 1, c) + c
  }

  lemma {:induction false} SlotOffsetIs(offset: nat, k: nat, c: nat)
    ensures SlotOffset(offset, k, c) == offset + k * c
  {
    if k == 0 {
    } else {
      SlotOffsetIs(offset, k - 1, c);
      MulStep(c, k);
    }
  }

  method OffsetAt(offset: nat, i: nat, nfh: nat) returns (offs: nat)
    ensures offs == SlotOffset(offset, i, nfh)
  {
    SlotOffsetIs(offset, i, nfh);
    offs := offset + i * nfh;
  }

  ghost function ListLinks(w: nat, links: seq<Option<Cid>>, h: nat, offset: nat): seq<Item>
    requires SlotsWellFormed(w, links, h)
    decreases h, 1, |links|
  {
    if links == [] then []
    else
      var k := |links| - 1;
      ListLinks(w, links[..k], h, offset) +
      (if links[k].None? then [] else Listing(w, links[k].value.node, h, SlotOffset(offset, k, Cap(w, h + 1))))
  }

  /** The entries below a node, left to right. */
  ghost function Listing(w: nat, f: Flat, h: nat, offset: nat): seq<Item>
    requires WellFormed(w, f, h)
    decreases h, 0, 0
  {
    if h == 0 then ListVals(f.vals, offset)
    else
      assert SlotsWellFormed(w, f.links, h - 1);
      ListLinks(w, f.links, h - 1, offset)
  }

  /** A sequence of entries whose indices increase, all in `lo .. hi`. */
  ghost predicate Increasing(l: seq<Item>, lo: nat, hi: nat) {
    && (forall k | 0 <= k < |l| :: lo <= l[k].i < hi)
    && (forall j, k | 0 <= j < k < |l| :: l[j].i < l[k].i)
  }

  lemma IncreasingConcat(a: seq<Item>, b: seq<Item>, lo: nat, mid: nat, hi: nat)
    requires lo <= mid <= hi && Increasing(a, lo, mid) && Increasing(b, mid, hi)
    ensures Increasing(a + b, lo, hi)
  {
  }

  lemma {:induction false} ListValsSorted(vals: seq<Option<Value>>, offset: nat)
    ensures Increasing(ListVals(vals, offset), offset, offset + |vals|)
  {
    if vals == [] {
    } else {
      var k := |vals| - 1;
      ListValsSorted(vals[..k], offset);
      var last := if vals[k].None? then [] else [Item(offset + k, vals[k].value)];
      IncreasingConcat(ListVals(vals[..k], offset), last, offset, offset + k, offset + |vals|);
    }
  }

  lemma {:induction false} ListValsHold(vals: seq<Option<Value>>, offset: nat, x: Item)
    ensures x in ListVals(vals, offset) <==> offset <= x.i < offset + |vals| && vals[x.i - offset] == Some(x.v)
  {
    if vals == [] {
    } else {
      var k := |vals| - 1;
      ListValsHold(vals[..k], offset, x);
    }
  }

  /** Iteration meets exactly the stored entries, in increasing index order. */
  lemma {:induction false} ListingIsSorted(w: nat, f: Flat, h: nat, offset: nat)
    requires WellFormed(w, f, h)
    ensures Increasing(Listing(w, f, h, offset), offset, offset + Cap(w, h + 1))
    decreases h, 1, 0
  {
    if h == 0 {
      assert Cap(w, 0) == 1 && Cap(w, 1) == Width(w);
      ListValsSorted(f.vals, offset);
    } else {
      assert SlotsWellFormed(w, f.links, h - 1);
      ListLinksSorted(w, f.links, h - 1, offset);
      SlotOffsetIs(offset, Width(w), Cap(w, h));
    }
  }

  lemma OffsetGrows(offset: nat, k: nat, c: nat)
    ensures offset <= SlotOffset(offset, k, c)
  {
    SlotOffsetIs(offset, k, c);
  }

  lemma {:induction false} ListLinksSorted(w: nat, links: seq<Option<Cid>>, h: nat, offset: nat)
    requires SlotsWellFormed(w, links, h)
    ensures Increasing(ListLinks(w, links, h, offset), offset, SlotOffset(offset, |links|, Cap(w, h + 1)))
    decreases h, 2, |links|
  {
    if links == [] {
    } else {
      var k, c := |links| - 1, Cap(w, h + 1);
      ListLinksSorted(w, links[..k], h, offset);
      var mid := SlotOffset(offset, k, c);
      OffsetGrows(offset, k, c);
      var last := [];
      if links[k].Some? {
        ListingIsSorted(w, links[k].value.node, h, mid);
        last := Listing(w, links[k].value.node, h, mid);
      }
      IncreasingConcat(ListLinks(w, links[..k], h, offset), last, offset, mid, mid + c);
    }
  }

  /** The index of an entry is the end of the path at which it is stored. */
  lemma {:induction false} ListingIsComplete(w: nat, f: Flat, h: nat, offset: nat, p: seq<nat>)
    requires WellFormed(w, f, h) && ValidPath(w, h, p)
    ensures forall v :: Item(offset + IndexOf(w, p), v) in Listing(w, f, h, offset) <==> Lookup(w, f, h, p) == Some(v)
    decreases h, 1, 0
  {
    if h == 0 {
      assert Cap(w, 0) == 1 && p[1..] == [];
      forall v
        ensures Item(offset + IndexOf(w, p), v) in ListVals(f.vals, offset) <==> Lookup(w, f, h, p) == Some(v)
      {
        ListValsHold(f.vals, offset, Item(offset + IndexOf(w, p), v));
      }
    } else {
      assert SlotsWellFormed(w, f.links, h - 1);
      ListLinksComplete(w, f.links, h - 1, offset, p);
    }
  }

  lemma {:induction false} ListLinksComplete(w: nat, links: seq<Option<Cid>>, h: nat, offset: nat, p: seq<nat>)
    requires SlotsWellFormed(w, links, h) && ValidPath(w, h + 1, p)
    ensures ValidPath(w, h, p[1..])
    ensures p[0] < |links| ==>
              forall v :: Item(offset + IndexOf(w, p), v) in ListLinks(w, links, h, offset) <==>
                SlotLookup(w, links[p[0]], h, p[1..]) == Some(v)
    decreases h, 2, |links|
  {
    if p[0] >= |links| {
    } else {
      var k, c := |links| - 1, Cap(w, h + 1);
      var mid := SlotOffset(offset, k, c);
      SlotOffsetIs(offset, k, c);
      var a, b := ListLinks(w, links[..k], h, offset), SlotListing(w, links[k], h, mid);
      assert ListLinks(w, links, h, offset) == a + b;
      assert Increasing(a, offset, mid) by { ListLinksSorted(w, links[..k], h, offset); }
      SlotListingSorted(w, links[k], h, mid);
      SlotBounds(w, h, p, k);
      if p[0] < k {
        ListLinksComplete(w, links[..k], h, offset, p);
      } else if links[k].Some? {
        ListingIsComplete(w, links[k].value.node, h, mid, p[1..]);
      }
    }
  }

  ghost function SlotListing(w: nat, slot: Option<Cid>, h: nat, offset: nat): seq<Item>
    requires SlotWellFormed(w, slot, h)
  {
    if slot.None? then [] else Listing(w, slot.value.node, h, offset)
  }

  lemma SlotListingSorted(w: nat, slot: Option<Cid>, h: nat, offset: nat)
    requires SlotWellFormed(w, slot, h)
    ensures Increasing(SlotListing(w, slot, h, offset), offset, offset + Cap(w, h + 1))
  {
    if slot.Some? {
      ListingIsSorted(w, slot.value.node, h, offset);
    }
  }

  lemma SlotBounds(w: nat, h: nat, p: seq<nat>, k: nat)
    requires ValidPath(w, h + 1, p)
    ensures p[0] < k ==> IndexOf(w, p) < k * Cap(w, h + 1)
    ensures p[0] == k ==> IndexOf(w, p) == k * Cap(w, h + 1) + IndexOf(w, p[1..])
  {
    var c, r := Cap(w, h + 1), IndexOf(w, p[1..]);
    assert r < c by { IndexInRange(w, h, p[1..]); }
    assert IndexOf(w, p) == p[0] * c + r;
    if p[0] < k {
      BelowMultiple(p[0], r, k, c);
    }
  }

  lemma BelowMultiple(q: nat, r: nat, k: nat, c: nat)
    requires q < k && r < c
    ensures q * c + r < k * c
  {
    MulMonotone(q + 1, k, c);
  }

  // ---- for_each_while ----

  /** A callback that only reads. */
  type Callback = Item -> Reply

  /** Node::for_each_while; only caches change. */
  method ForEachWhile(s: Store, w: nat, n: Node, h: nat, offset: nat, f: Callback)
    returns (r: Result<Reply>, calls: seq<Item>, n': Node)
    requires w * h < 64 && Coherent(n) && WellFormed(w, Erase(n), h)
    ensures Erase(n') == Erase(n) && Coherent(n') && (Clean(n) ==> Clean(n'))
    ensures NodeResolvable(s, n) ==> r.Ok? && NodeResolvable(s, n')
    ensures !r.Ok? ==> r.error.CidNotFound?
    ensures r.Ok? ==> CallEach(Listing(w, Erase(n), h, offset), f) == Called(calls, r.value)
    decreases h, 0
  {
    n', calls := n, [];
    if n.LeafNode? {
      var reply;
      reply, calls := WalkLeaf(n.vals, offset, f);
      r := Ok(reply);
      return;
    }
    ghost var links := Erase(n).links;
    ghost var k: nat := h - 1;
    var nfh := SlotCapacity(w, h);
    assert SlotsWellFormed(w, links, k);
    for i := 0 to |n.links|
      invariant n'.LinkNode? && |n'.links| == |n.links| && Erase(n') == Erase(n) && Coherent(n') && (Clean(n) ==> Clean(n'))
      invariant NodeResolvable(s, n) ==> NodeResolvable(s, n')
      invariant SlotsWellFormed(w, links[..i], k)
      invariant CallEach(ListLinks(w, links[..i], k, offset), f) == Called(calls, GoOn)
    {
      var offs := OffsetAt(offset, i, nfh);
      var visited;
      r, visited, n' := WalkSlot(s, w, n', h, i, offs, f);
      if r.Err? {
        return;
      }
      WalkedSlot(w, links, k, offset, i, offs, f, calls, visited, r.value);
      calls := calls + visited;
      if !r.value.GoOn? {
        return;
      }
    }
    assert links[..|n.links|] == links;
    r := Ok(GoOn);
  }

  /** The walk over the slots, one further: it ends there if the callback declined. */
  lemma WalkedSlot(w: nat, links: seq<Option<Cid>>, k: nat, offset: nat, i: nat, offs: nat, f: Callback,
                   calls: seq<Item>, visited: seq<Item>, go: Reply)
    requires SlotsWellFormed(w, links, k) && i < |links| && SlotsWellFormed(w, links[..i], k)
    requires offs == SlotOffset(offset, i, Cap(w, k + 1)) && SlotWellFormed(w, links[i], k)
    requires CallEach(ListLinks(w, links[..i], k, offset), f) == Called(calls, GoOn)
    requires CallEach(SlotListing(w, links[i], k, offs), f) == Called(visited, go)
    ensures SlotsWellFormed(w, links[..i + 1], k)
    ensures CallEach(ListLinks(w, links[..i + 1], k, offset), f) == Called(calls + visited, go)
    ensures !go.GoOn? ==> CallEach(ListLinks(w, links, k, offset), f) == Called(calls + visited, go)
  {
    ListLinksStep(w, links, k, offset, i);
    CallConcat(ListLinks(w, links[..i], k, offset), SlotListing(w, links[i], k, offs), f);
    LinksSplit(w, links, k, offset, i + 1);
    CallConcat(ListLinks(w, links[..i + 1], k, offset), LinksFrom(w, links, k, offset, i + 1), f);
  }

  /** One slot of the link loop. */
  method WalkSlot(s: Store, w: nat, n: Node, h: nat, i: nat, offs: nat, f: Callback)
    returns (r: Result<Reply>, calls: seq<Item>, n': Node)
    requires h > 0 && w * (h - 1) < 64 && Coherent(n) && WellFormed(w, Erase(n), h) && n.LinkNode? && i < |n.links|
    ensures Erase(n') == Erase(n) && Coherent(n') && (Clean(n) ==> Clean(n'))
    ensures NodeResolvable(s, n) ==> r.Ok? && NodeResolvable(s, n')
    ensures !r.Ok? ==> r.error.CidNotFound?
    ensures SlotWellFormed(w, Erase(n).links[i], h - 1)
    ensures r.Ok? ==> CallEach(SlotListing(w, Erase(n).links[i], h - 1, offs), f) == Called(calls, r.value)
    decreases h - 1, 2
  {
    LinkReplaced(s, n, LinkNode(n.links[i := n.links[i]]), i, n.links[i]);
    SlotOf(w, Erase(n), h, i);
    var l;
    r, calls, l := WalkLink(s, w, n.links[i], h - 1, offs, f);
    n' := LinkNode(n.links[i := l]);
    LinkReplaced(s, n, n', i, l);
  }

  /** `nodes_for_height` at a node of links: the exact distance between two slots. */
  function SlotCapacity(w: nat, h: nat): (c: nat)
    requires h > 0 && w * h < 64
    ensures c == Cap(w, h) && w * (h - 1) < 64
  {
    NodesForHeightExact(w, h);
    MulStep(w, h);
    NodesForHeight(w, h)
  }

  lemma ListLinksStep(w: nat, links: seq<Option<Cid>>, h: nat, offset: nat, i: nat)
    requires SlotsWellFormed(w, links, h) && i < |links|
    ensures SlotsWellFormed(w, links[..i], h) && SlotsWellFormed(w, links[..i + 1], h) && SlotWellFormed(w, links[i], h)
    ensures ListLinks(w, links[..i + 1], h, offset) ==
            ListLinks(w, links[..i], h, offset) + SlotListing(w, links[i], h, SlotOffset(offset, i, Cap(w, h + 1)))
  {
    assert links[..i + 1][..i] == links[..i];
  }

  /** The entries of the slots from `i` on. */
  ghost function LinksFrom(w: nat, links: seq<Option<Cid>>, h: nat, offset: nat, i: nat): seq<Item>
    requires SlotsWellFormed(w, links, h) && i <= |links|
    decreases |links| - i
  {
    if i == |links| then []
    else SlotListing(w, links[i], h, SlotOffset(offset, i, Cap(w, h + 1))) + LinksFrom(w, links, h, offset, i + 1)
  }

  lemma {:induction false} LinksSplit(w: nat, links: seq<Option<Cid>>, h: nat, offset: nat, i: nat)
    requires SlotsWellFormed(w, links, h) && i <= |links|
    ensures SlotsWellFormed(w, links[..i], h)
    ensures ListLinks(w, links, h, offset) == ListLinks(w, links[..i], h, offset) + LinksFrom(w, links, h, offset, i)
    decreases |links| - i
  {
    if i < |links| {
      LinksSplit(w, links, h, offset, i + 1);
      ListLinksStep(w, links, h, offset, i);
      ConcatAssoc(ListLinks(w, links[..i], h, offset),
                  SlotListing(w, links[i], h, SlotOffset(offset, i, Cap(w, h + 1))), LinksFrom(w, links, h, offset, i + 1));
    } else {
      assert links[..i] == links;
    }
  }

  /** Two slot vectors that agree from slot `i` on list the same entries from there. */
  lemma {:induction false} LinksFromAgree(w: nat, a: seq<Option<Cid>>, b: seq<Option<Cid>>, h: nat, offset: nat, i: nat)
    requires SlotsWellFormed(w, a, h) && SlotsWellFormed(w, b, h) && i <= |a| == |b|
    requires forall j | i <= j < |a| :: a[j] == b[j]
    ensures LinksFrom(w, a, h, offset, i) == LinksFrom(w, b, h, offset, i)
    decreases |a| - i
  {
    if i >= |a| {
    } else {
      LinksFromAgree(w, a, b, h, offset, i + 1);
    }
  }

  /** The link arm: modified child, cached child, or child loaded from the store. */
  method WalkLink(s: Store, w: nat, l: Option<Link>, h: nat, offset: nat, f: Callback)
    returns (r: Result<Reply>, calls: seq<Item>, l': Option<Link>)
    requires w * h < 64 && LinkCoherent(l) && SlotWellFormed(w, EraseLink(l), h)
    ensures EraseLink(l') == EraseLink(l) && LinkCoherent(l') && (IsDirty(l') ==> IsDirty(l))
    ensures LinkResolvable(s, l) ==> r.Ok? && LinkResolvable(s, l')
    ensures !r.Ok? ==> r.error.CidNotFound?
    ensures r.Ok? ==> CallEach(SlotListing(w, EraseLink(l), h, offset), f) == Called(calls, r.value)
    decreases h, 1
  {
    l', calls := l, [];
    match l
    case None => r := Ok(GoOn);
    case Some(Dirty(c)) =>
      var c';
      r, calls, c' := ForEachWhile(s, w, c, h, offset, f);
      l' := Some(Dirty(c'));
    case Some(CidLink(cid, cache)) =>
      var loaded := LoadLink(s, w, h, cid, cache);
      if loaded.Err? {
        return Err(loaded.error), [], l;
      }
      var c';
      r, calls, c' := ForEachWhile(s, w, loaded.value, h, offset, f);
      l' := Some(CidLink(cid, Some(c')));
  }

  /** The leaf arm. */
  method WalkLeaf(vals: seq<Option<Value>>, offset: nat, f: Callback) returns (reply: Reply, calls: seq<Item>)
    ensures CallEach(ListVals(vals, offset), f) == Called(calls, reply)
  {
    calls := [];
    for i := 0 to |vals|
      invariant CallEach(ListVals(vals[..i], offset), f) == Called(calls, GoOn)
    {
      ValsStep(vals, offset, i);
      if vals[i].Some? {
        var x := Item(offset + i, vals[i].value);
        CallConcat(ListVals(vals[..i], offset), [x], f);
        CallOne(x, f);
        calls := calls + [x];
        if !f(x).GoOn? {
          ValsSplit(vals, offset, i + 1);
          CallConcat(ListVals(vals[..i + 1], offset), ValsFrom(vals, offset, i + 1), f);
          return f(x), calls;
        }
      } else {
        assert ListVals(vals[..i + 1], offset) == ListVals(vals[..i], offset);
      }
    }
    assert vals[..|vals|] == vals;
    reply := GoOn;
  }

  /** What slot `i` of a leaf lists. */
  ghost function ItemAt(vals: seq<Option<Value>>, offset: nat, i: nat): seq<Item>
    requires i < |vals|
  {
    if vals[i].None? then [] else [Item(offset + i, vals[i].value)]
  }

  ghost function ValsFrom(vals: seq<Option<Value>>, offset: nat, i: nat): seq<Item>
    requires i <= |vals|
    decreases |vals| - i
  {
    if i == |vals| then [] else ItemAt(vals, offset, i) + ValsFrom(vals, offset, i + 1)
  }

  lemma ValsStep(vals: seq<Option<Value>>, offset: nat, i: nat)
    requires i < |vals|
    ensures ListVals(vals[..i + 1], offset) == ListVals(vals[..i], offset) + ItemAt(vals, offset, i)
  {
    assert vals[..i + 1][..i] == vals[..i];
  }

  lemma {:induction false} ValsSplit(vals: seq<Option<Value>>, offset: nat, i: nat)
    requires i <= |vals|
    ensures ListVals(vals, offset) == ListVals(vals[..i], offset) + ValsFrom(vals, offset, i)
    decreases |vals| - i
  {
    if i < |vals| {
      ValsSplit(vals, offset, i + 1);
      ValsStep(vals, offset, i);
      ConcatAssoc(ListVals(vals[..i], offset), ItemAt(vals, offset, i), ValsFrom(vals, offset, i + 1));
    } else {
      assert vals[..i] == vals;
    }
  }

  lemma {:induction false} ValsFromAgree(a: seq<Option<Value>>, b: seq<Option<Value>>, offset: nat, i: nat)
    requires i <= |a| == |b| && forall j | i <= j < |a| :: a[j] == b[j]
    ensures ValsFrom(a, offset, i) == ValsFrom(b, offset, i)
    decreases |a| - i
  {
    if i >= |a| {
    } else {
      ValsFromAgree(a, b, offset, i + 1);
    }
  }
}
