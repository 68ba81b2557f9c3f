/** AMT nodes in memory and in the store, and the vector they represent. */
module AmtModel {
  import opened Common
  import opened AmtIndex
  import opened AmtCodec

  /** In-memory nodes. Boxes are uniquely owned, so nodes are values. */
  datatype Link = CidLink(cid: Cid, cache: Option<Node>) | Dirty(node: Node)
  datatype Node = LinkNode(links: seq<Option<Link>>) | LeafNode(vals: seq<Option<Value>>)

  /** Every block sits under the CID of the node it encodes. */
  type Store = s: map<Cid, Collapsed> | forall c | c in s :: Encodes(s[c], c.node) witness map[]

  // ---- meaning of flat nodes ----

  predicate FlatEmpty(f: Flat) {
    match f
    case Links(links) => forall i | 0 <= i < |links| :: links[i].None?
    case Leaf(vals) => forall i | 0 <= i < |vals| :: vals[i].None?
  }

  /** A well-formed node of height `h`: full slot vectors, and no empty subtree. */
  ghost predicate WellFormed(w: nat, f: Flat, h: nat)
    decreases h, 0
  {
    if h == 0 then f.Leaf? && |f.vals| == Width(w)
    else
      && f.Links? && |f.links| == Width(w)
      && forall i | 0 <= i < |f.links| && f.links[i].Some? :: SubWellFormed(w, f.links[i].value, h - 1)
  }

  ghost predicate SubWellFormed(w: nat, c: Cid, h: nat)
    decreases h, 1
  {
    WellFormed(w, c.node, h) && !FlatEmpty(c.node)
  }

  /** The value at the end of a path. */
  ghost function Lookup(w: nat, f: Flat, h: nat, p: seq<nat>): Option<Value>
    requires WellFormed(w, f, h) && ValidPath(w, h, p)
    decreases h
  {
    if h == 0 then f.vals[p[0]]
    else if f.links[p[0]].None? then None
    else
      assert SubWellFormed(w, f.links[p[0]].value, h - 1);
      Lookup(w, f.links[p[0]].value.node, h - 1, p[1..])
  }

  /** The value at any index, `None` beyond the capacity. */
  ghost function At(w: nat, f: Flat, h: nat, i: nat): Option<Value>
    requires WellFormed(w, f, h)
  {
    if i < Cap(w, h + 1) then
      PathIsValid(w, h, i);
      Lookup(w, f, h, Path(w, h, i))
    else None
  }

  /** A node that is not empty holds some value. */
  lemma {:induction false} SomePath(w: nat, f: Flat, h: nat) returns (p: seq<nat>)
    requires WellFormed(w, f, h) && !FlatEmpty(f)
    ensures ValidPath(w, h, p) && Lookup(w, f, h, p).Some?
    decreases h
  {
    if h == 0 {
      var i :| 0 <= i < |f.vals| && f.vals[i].Some?;
      p := [i];
    } else {
      var q :| 0 <= q < |f.links| && f.links[q].Some?;
      assert SubWellFormed(w, f.links[q].value, h - 1);
      var rest := SomePath(w, f.links[q].value.node, h - 1);
      p := [q] + rest;
      assert p[1..] == rest;
    }
  }

  /**
   Canonical form: two well-formed nodes of the same height with the same values are the same
   node.
   */
  lemma {:induction false} CanonicalIsUnique(w: nat, f: Flat, g: Flat, h: nat)
    requires WellFormed(w, f, h) && WellFormed(w, g, h)
    requires forall p | ValidPath(w, h, p) :: Lookup(w, f, h, p) == Lookup(w, g, h, p)
    ensures f == g
    decreases h
  {
    if h == 0 {
      forall i | 0 <= i < Width(w)
        ensures f.vals[i] == g.vals[i]
      {
        assert ValidPath(w, 0, [i]);
        assert Lookup(w, f, 0, [i]) == Lookup(w, g, 0, [i]);
      }
    } else {
      forall q | 0 <= q < Width(w)
        ensures f.links[q] == g.links[q]
      {
        SameOccupancy(w, f, g, h, q);
        SameOccupancy(w, g, f, h, q);
        if f.links[q].Some? {
          var f', g', h' := f.links[q].value.node, g.links[q].value.node, h - 1;
          forall p | ValidPath(w, h', p)
            ensures Lookup(w, f', h', p) == Lookup(w, g', h', p)
          {
            assert ValidPath(w, h, [q] + p) && ([q] + p)[1..] == p;
            assert Lookup(w, f, h, [q] + p) == Lookup(w, g, h, [q] + p);
          }
          CanonicalIsUnique(w, f', g', h');
        }
      }
    }
  }

  lemma SameOccupancy(w: nat, f: Flat, g: Flat, h: nat, q: nat)
    requires h > 0 && WellFormed(w, f, h) && WellFormed(w, g, h) && q < Width(w)
    requires forall p | ValidPath(w, h, p) :: Lookup(w, f, h, p) == Lookup(w, g, h, p)
    ensures f.links[q].Some? ==> g.links[q].Some? && SubWellFormed(w, f.links[q].value, h - 1)
  {
    if f.links[q].Some? {
      assert SubWellFormed(w, f.links[q].value, h - 1);
      var rest := SomePath(w, f.links[q].value.node, h - 1);
      var p := [q] + rest;
      assert ValidPath(w, h, p) && p[1..] == rest;
      assert Lookup(w, f, h, p) == Lookup(w, g, h, p);
    }
  }

  // ---- meaning of nodes ----

  ghost function Erase(n: Node): (f: Flat)
    ensures f.Links? <==> n.LinkNode?
    ensures f.Links? ==> |f.links| == |n.links|
    ensures f.Leaf? ==> f.vals == n.vals
    decreases n
  {
    match n
    case LeafNode(vals) => Leaf(vals)
    case LinkNode(links) => Links(seq(|links|, i requires 0 <= i < |links| => EraseLink(links[i])))
  }

  ghost function EraseLink(l: Option<Link>): Option<Cid>
    decreases l
  {
    match l
    case None => None
    case Some(CidLink(c, _)) => Some(c)
    case Some(Dirty(n)) => Some(Cid(Erase(n)))
  }

  predicate IsDirty(l: Option<Link>) {
    l.Some? && l.value.Dirty?
  }

  /** No modified link directly below. */
  predicate Clean(n: Node) {
    n.LinkNode? ==> forall i | 0 <= i < |n.links| :: !IsDirty(n.links[i])
  }

  /** Every cached node is the node its link's CID names. */
  ghost predicate Coherent(n: Node)
    decreases n
  {
    n.LinkNode? ==> forall i | 0 <= i < |n.links| :: LinkCoherent(n.links[i])
  }

  ghost predicate LinkCoherent(l: Option<Link>)
    decreases l
  {
    match l
    case None => true
    case Some(CidLink(c, cache)) => cache.Some? ==> Erase(cache.value) == c.node && Clean(cache.value) && Coherent(cache.value)
    case Some(Dirty(n)) => Coherent(n)
  }

  /** Every block below is present in the store. */
  ghost predicate Resolvable(s: Store, f: Flat)
    decreases f
  {
    f.Links? ==> forall i | 0 <= i < |f.links| && f.links[i].Some? ::
                   f.links[i].value in s && Resolvable(s, f.links[i].value.node)
  }

  ghost predicate NodeResolvable(s: Store, n: Node)
    decreases n
  {
    n.LinkNode? ==> forall i | 0 <= i < |n.links| :: LinkResolvable(s, n.links[i])
  }

  ghost predicate LinkResolvable(s: Store, l: Option<Link>)
    decreases l
  {
    match l
    case None => true
    case Some(CidLink(c, _)) => c in s && Resolvable(s, c.node)
    case Some(Dirty(n)) => NodeResolvable(s, n)
  }

  lemma CleanResolvable(s: Store, n: Node)
    requires Clean(n)
    ensures Resolvable(s, Erase(n)) <==> NodeResolvable(s, n)
  {
    if n.LinkNode? {
      forall i | 0 <= i < |n.links|
        ensures LinkResolvable(s, n.links[i]) <==>
                (Erase(n).links[i].Some? ==> Erase(n).links[i].value in s && Resolvable(s, Erase(n).links[i].value.node))
      {
        assert Erase(n).links[i] == EraseLink(n.links[i]);
        assert !IsDirty(n.links[i]);
      }
    }
  }

  /** `Link::from`: expanded links have empty caches. */
  function FromFlat(f: Flat): (n: Node)
    ensures Erase(n) == f && Clean(n) && Coherent(n)
  {
    match f
    case Leaf(vals) => LeafNode(vals)
    case Links(links) =>
      var n := LinkNode(seq(|links|, i requires 0 <= i < |links| => FromCid(links[i])));
      assert Erase(n).links == links;
      n
  }

  function FromCid(c: Option<Cid>): (l: Option<Link>)
    ensures EraseLink(l) == c && LinkCoherent(l) && !IsDirty(l)
  {
    match c
    case None => None
    case Some(cid) => Some(CidLink(cid, None))
  }
}
