/** The root of an AMT: the vector it represents, and how its height follows the contents. */
module AmtTree {
  import opened Common
  import opened AmtIndex
  import opened AmtCodec
  import opened AmtModel
  import opened AmtNode

  // ---- the vector a root represents ----

  /** Some link other than the first is occupied, unless the root is a leaf. */
  ghost predicate Tight(f: Flat, h: nat) {
    h > 0 ==> f.Links? && exists j :: 1 <= j < |f.links| && f.links[j].Some?
  }

  ghost predicate RootInv(w: nat, f: Flat, h: nat) {
    1 <= w < 64 && w * h < 64 && WellFormed(w, f, h) && Tight(f, h)
  }

  ghost function Contents(w: nat, f: Flat, h: nat): (m: map<nat, Value>)
    requires WellFormed(w, f, h)
    ensures forall i: nat :: i in m <==> At(w, f, h, i).Some?
    ensures forall i: nat | i in m :: Some(m[i]) == At(w, f, h, i)
  {
    map i: nat | 0 <= i < Cap(w, h + 1) && At(w, f, h, i).Some? :: At(w, f, h, i).value
  }

  lemma UpdatedAt(w: nat, f: Flat, f': Flat, h: nat, i: nat, v: Option<Value>)
    requires WellFormed(w, f, h) && WellFormed(w, f', h) && i < Cap(w, h + 1)
    requires Updated(w, f, f', h, Path(w, h, i), v)
    ensures forall j: nat :: At(w, f', h, j) == if j == i then v else At(w, f, h, j)
  {
    forall j: nat
      ensures At(w, f', h, j) == if j == i then v else At(w, f, h, j)
    {
      PathIsValid(w, h, i);
      if j < Cap(w, h + 1) {
        PathIsValid(w, h, j);
      }
    }
  }

  /** Looking up below a slot, by index. */
  lemma AtSlot(w: nat, f: Flat, h: nat, q: nat, r: nat, i: nat)
    requires h > 0 && WellFormed(w, f, h) && q < Width(w) && r < Cap(w, h) && i == q * Cap(w, h) + r
    ensures i < Cap(w, h + 1) && SlotWellFormed(w, f.links[q], h - 1)
    ensures At(w, f, h, i) == if f.links[q].None? then None else At(w, f.links[q].value.node, h - 1, r)
  {
    SlotOf(w, f, h, q);
    Recompose(q, r, Cap(w, h), Width(w), i);
    PathIsValid(w, h, i);
    PathIsValid(w, h - 1, r);
    assert Path(w, h, i)[1..] == Path(w, h - 1, r);
  }

  /** The slot an in-range index falls in. */
  lemma SplitIndex(w: nat, h: nat, i: nat) returns (q: nat, r: nat)
    requires i < Cap(w, h + 1)
    ensures q < Width(w) && r < Cap(w, h) && i == q * Cap(w, h) + r && q == i / Cap(w, h)
  {
    QuotientBelow(i, Cap(w, h), Width(w));
    q, r := i / Cap(w, h), i % Cap(w, h);
  }

  /** Every occupied slot holds some index of its range. */
  lemma OccupiedSlot(w: nat, f: Flat, h: nat, q: nat) returns (r: nat, i: nat)
    requires h > 0 && WellFormed(w, f, h) && q < Width(w) && f.links[q].Some?
    ensures r < Cap(w, h) && i == q * Cap(w, h) + r && At(w, f, h, i).Some?
  {
    SlotOf(w, f, h, q);
    r := SomeIndex(w, f.links[q].value.node, h - 1);
    i := q * Cap(w, h) + r;
    AtSlot(w, f, h, q, r, i);
  }

  lemma SomeIndex(w: nat, f: Flat, h: nat) returns (i: nat)
    requires WellFormed(w, f, h) && !FlatEmpty(f)
    ensures i < Cap(w, h + 1) && At(w, f, h, i).Some?
  {
    var p := SomePath(w, f, h);
    IndexInRange(w, h, p);
    i := IndexOf(w, p);
  }

  // ---- canonical form ----

  /** A tight root of links holds an index that no lower root could. */
  lemma TightIndex(w: nat, f: Flat, h: nat) returns (i: nat)
    requires h > 0 && WellFormed(w, f, h) && Tight(f, h)
    ensures i >= Cap(w, h) && At(w, f, h, i).Some?
  {
    var j :| 1 <= j < |f.links| && f.links[j].Some?;
    var r;
    r, i := OccupiedSlot(w, f, h, j);
    MulMonotone(1, j, Cap(w, h));
  }

  lemma {:induction false} CapMonotone(w: nat, h: nat, h': nat)
    requires h <= h'
    ensures Cap(w, h) <= Cap(w, h')
    decreases h'
  {
    if h >= h' {
    } else {
      CapMonotone(w, h, h' - 1);
      MulPositive(Width(w), Cap(w, h' - 1));
    }
  }

  lemma HeightBound(w: nat, f: Flat, h: nat, g: Flat, k: nat)
    requires RootInv(w, f, h) && RootInv(w, g, k) && Contents(w, f, h) == Contents(w, g, k)
    ensures h <= k
  {
    if h > 0 {
      var i := TightIndex(w, f, h);
      assert i in Contents(w, f, h);
      assert i < Cap(w, k + 1);
      if h > k {
        CapMonotone(w, k + 1, h);
      }
    }
  }

  /** The whole tree, height included, is a function of contents and width. */
  lemma ContentsDetermineTree(w: nat, f: Flat, h: nat, g: Flat, k: nat)
    requires RootInv(w, f, h) && RootInv(w, g, k)
    requires Contents(w, f, h) == Contents(w, g, k)
    ensures h == k && f == g
  {
    HeightBound(w, f, h, g, k);
    HeightBound(w, g, k, f, h);
    forall p | ValidPath(w, h, p)
      ensures Lookup(w, f, h, p) == Lookup(w, g, h, p)
    {
      var i := IndexOf(w, p);
      IndexInRange(w, h, p);
      assert At(w, f, h, i) == Lookup(w, f, h, p) && At(w, g, h, i) == Lookup(w, g, h, p);
      assert i in Contents(w, f, h) <==> i in Contents(w, g, h);
    }
    CanonicalIsUnique(w, f, g, h);
  }

  // ---- growing and collapsing the root ----

  /** A root pushed down into the first slot keeps every index. */
  lemma GrownAt(w: nat, f: Flat, f': Flat, h: nat)
    requires WellFormed(w, f, h) && WellFormed(w, f', h + 1)
    requires f'.links[0] == (if FlatEmpty(f) then None else Some(Cid(f))) && forall j | 1 <= j < Width(w) :: f'.links[j].None?
    ensures forall i: nat :: At(w, f', h + 1, i) == At(w, f, h, i)
  {
    forall i: nat
      ensures At(w, f', h + 1, i) == At(w, f, h, i)
    {
      if i < Cap(w, h + 2) {
        var q, r := SplitIndex(w, h + 1, i);
        AtSlot(w, f', h + 1, q, r, i);
        if q == 0 {
          assert i == r;
          if FlatEmpty(f) {
            PathIsValid(w, h, i);
            EmptyLookup(w, f, h);
          }
        } else {
          MulMonotone(1, q, Cap(w, h + 1));
        }
      } else {
        CapMonotone(w, h + 1, h + 2);
      }
    }
  }

  /** The loop of Amt::set that raises the root until the index fits. */
  method GrowTo(w: nat, n: Node, h: nat, i: nat) returns (n': Node, h': nat)
    requires 1 <= w < 64 && w * h < 64 && Coherent(n) && WellFormed(w, Erase(n), h) && i <= MAX_INDEX
    ensures h <= h' && w * h' < 64 && i < Cap(w, h' + 1)
    ensures Coherent(n') && WellFormed(w, Erase(n'), h')
    ensures forall j: nat :: At(w, Erase(n'), h', j) == At(w, Erase(n), h, j)
    ensures h' == h ==> n' == n
    ensures h' > h ==> i >= Cap(w, h')
    ensures forall s: Store :: NodeResolvable(s, n) ==> NodeResolvable(s, n')
  {
    n', h' := n, h;
    RangeCheckExact(w, h + 1, i);
    while i >= NodesForHeight(w, h' + 1)
      invariant h <= h' && w * h' < 64 && Grown(w, n, h, n', h')
      invariant h' == h ==> n' == n
      invariant h' > h ==> i >= Cap(w, h')
      invariant i >= NodesForHeight(w, h' + 1) <==> i >= Cap(w, h' + 1)
      decreases 64 - h'
    {
      RangeCheckExact(w, h' + 1, i);
      HeightBelow64(w, h');
      n' := Grow(w, n', h');
      h' := h' + 1;
      RangeCheckExact(w, h' + 1, i);
    }
  }

  /** A higher root with the same values. */
  ghost predicate Grown(w: nat, n: Node, h: nat, n': Node, h': nat) {
    && WellFormed(w, Erase(n), h) && Coherent(n') && WellFormed(w, Erase(n'), h')
    && (forall j: nat :: At(w, Erase(n'), h', j) == At(w, Erase(n), h, j))
    && (forall s: Store :: NodeResolvable(s, n) ==> NodeResolvable(s, n'))
  }

  lemma HeightBelow64(w: nat, h: nat)
    requires w >= 1 && w * h < 64
    ensures h < 64
  {
    MulMonotone(1, w, h);
  }

  /** One level up: the old root becomes the first child, unless it is empty. */
  method Grow(w: nat, n: Node, ghost h: nat) returns (n': Node)
    requires Coherent(n) && WellFormed(w, Erase(n), h)
    ensures Coherent(n') && WellFormed(w, Erase(n'), h + 1)
    ensures forall j: nat :: At(w, Erase(n'), h + 1, j) == At(w, Erase(n), h, j)
    ensures forall s: Store :: NodeResolvable(s, n) ==> NodeResolvable(s, n')
  {
    var links: seq<Option<Link>> := EmptySlots(w);
    if !IsEmpty(n) {
      links := links[0 := Some(Dirty(n))];
    }
    n' := LinkNode(links);
    assert forall j | 0 <= j < Width(w) :: Erase(n').links[j] == EraseLink(links[j]);
    assert SubWellFormed(w, Cid(Erase(n)), h) || FlatEmpty(Erase(n));
    GrownAt(w, Erase(n), Erase(n'), h);
  }

  /** Node::can_collapse: only the first link is occupied. */
  predicate CanCollapse(n: Node) {
    && n.LinkNode? && |n.links| > 0 && n.links[0].Some?
    && forall j | 1 <= j < |n.links| :: n.links[j].None?
  }

  /** The loop of Amt::delete that lowers the root while only its first link is occupied. */
  method CollapseRoot(s: Store, w: nat, n: Node, h: nat) returns (r: Result<()>, n': Node, h': nat)
    requires 1 <= w < 64 && w * h < 64 && Coherent(n) && WellFormed(w, Erase(n), h) && !FlatEmpty(Erase(n))
    ensures r.Ok? ==> Coherent(n') && RootInv(w, Erase(n'), h') && !FlatEmpty(Erase(n'))
    ensures r.Ok? ==> forall j: nat :: At(w, Erase(n'), h', j) == At(w, Erase(n), h, j)
    ensures NodeResolvable(s, n) ==> r.Ok? && NodeResolvable(s, n')
    ensures !r.Ok? ==> r.error.CidNotFound?
  {
    r, n', h' := Ok(()), n, h;
    while CanCollapse(n') && h' > 0
      invariant w * h' < 64 && Coherent(n') && WellFormed(w, Erase(n'), h') && !FlatEmpty(Erase(n'))
      invariant forall j: nat :: At(w, Erase(n'), h', j) == At(w, Erase(n), h, j)
      invariant NodeResolvable(s, n) ==> NodeResolvable(s, n')
      invariant r.Ok?
      decreases h'
    {
      var sub := FirstChild(s, w, n', h');
      if sub.Err? {
        r := Err(sub.error);
        return;
      }
      CollapsedAt(w, Erase(n'), Erase(sub.value), h');
      MulStep(w, h');
      n', h' := sub.value, h' - 1;
    }
    if h' > 0 {
      NotCollapsibleIsTight(n', h');
    }
  }

  lemma NotCollapsibleIsTight(n: Node, h: nat)
    requires h > 0 && n.LinkNode? && !FlatEmpty(Erase(n)) && !CanCollapse(n) && |n.links| > 0
    ensures Tight(Erase(n), h)
  {
    assert forall j | 0 <= j < |n.links| :: Erase(n).links[j] == EraseLink(n.links[j]);
    var j :| 0 <= j < |n.links| && Erase(n).links[j].Some?;
    if j == 0 {
      var k :| 1 <= k < |n.links| && n.links[k].Some?;
      assert Erase(n).links[k].Some?;
    }
  }

  /** A root with only its first link occupied holds what that child holds. */
  lemma CollapsedAt(w: nat, f: Flat, c: Flat, h: nat)
    requires h > 0 && WellFormed(w, f, h) && WellFormed(w, c, h - 1) && !FlatEmpty(c)
    requires f.links[0] == Some(Cid(c)) && forall j | 1 <= j < |f.links| :: f.links[j].None?
    ensures forall i: nat :: At(w, c, h - 1, i) == At(w, f, h, i)
  {
    GrownAt(w, c, f, h - 1);
  }

  method FirstChild(s: Store, w: nat, n: Node, ghost h: nat) returns (r: Result<Node>)
    requires h > 0 && Coherent(n) && WellFormed(w, Erase(n), h) && CanCollapse(n)
    ensures r.Ok? ==> Erase(n).links[0] == Some(Cid(Erase(r.value))) && forall j | 1 <= j < |n.links| :: Erase(n).links[j].None?
    ensures r.Ok? ==> Coherent(r.value) && WellFormed(w, Erase(r.value), h - 1) && !FlatEmpty(Erase(r.value))
    ensures NodeResolvable(s, n) ==> r.Ok? && NodeResolvable(s, r.value)
    ensures !r.Ok? ==> r.error.CidNotFound?
  {
    assert forall j | 0 <= j < |n.links| :: Erase(n).links[j] == EraseLink(n.links[j]);
    SlotOf(w, Erase(n), h, 0);
    LinkReplaced(s, n, LinkNode(n.links[0 := n.links[0]]), 0, n.links[0]);
    match n.links[0].value
    case Dirty(c) => r := Ok(c);
    case CidLink(cid, cache) => r := LoadLink(s, w, h - 1, cid, cache);
  }
}
