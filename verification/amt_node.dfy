/** AMT nodes: lookup, insertion and removal at an index. */
module AmtNode {
  import opened Common
  import opened AmtIndex
  import opened AmtCodec
  import opened AmtModel

  /** `f'` holds `v` at the end of `p` and agrees with `f` everywhere else. */
  ghost predicate Updated(w: nat, f: Flat, f': Flat, h: nat, p: seq<nat>, v: Option<Value>)
    requires WellFormed(w, f, h) && WellFormed(w, f', h)
  {
    forall p' | ValidPath(w, h, p') :: Lookup(w, f', h, p') == if p' == p then v else Lookup(w, f, h, p')
  }

  ghost predicate SlotWellFormed(w: nat, slot: Option<Cid>, h: nat) {
    slot.Some? ==> SubWellFormed(w, slot.value, h)
  }

  ghost function SlotLookup(w: nat, slot: Option<Cid>, h: nat, p: seq<nat>): Option<Value>
    requires SlotWellFormed(w, slot, h) && ValidPath(w, h, p)
  {
    if slot.None? then None else Lookup(w, slot.value.node, h, p)
  }

  ghost predicate SlotUpdated(w: nat, slot: Option<Cid>, slot': Option<Cid>, h: nat, p: seq<nat>, v: Option<Value>)
    requires SlotWellFormed(w, slot, h) && SlotWellFormed(w, slot', h)
  {
    forall p' | ValidPath(w, h, p') :: SlotLookup(w, slot', h, p') == if p' == p then v else SlotLookup(w, slot, h, p')
  }

  lemma SlotOf(w: nat, f: Flat, h: nat, q: nat)
    requires h > 0 && WellFormed(w, f, h) && q < Width(w)
    ensures f.Links? && q < |f.links| && SlotWellFormed(w, f.links[q], h - 1)
  {
  }

  /** Changing one path below one slot changes one path of the node. */
  lemma UpdateThroughSlot(w: nat, f: Flat, f': Flat, h: nat, p: seq<nat>, v: Option<Value>)
    requires h > 0 && WellFormed(w, f, h) && ValidPath(w, h, p) && f'.Links?
    requires |f'.links| == |f.links| && f'.links == f.links[p[0] := f'.links[p[0]]]
    requires SlotWellFormed(w, f.links[p[0]], h - 1) && SlotWellFormed(w, f'.links[p[0]], h - 1)
    requires SlotUpdated(w, f.links[p[0]], f'.links[p[0]], h - 1, p[1..], v)
    ensures WellFormed(w, f', h) && Updated(w, f, f', h, p, v)
  {
    forall j | 0 <= j < |f'.links| && f'.links[j].Some?
      ensures SubWellFormed(w, f'.links[j].value, h - 1)
    {
      assert j != p[0] ==> f'.links[j] == f.links[j];
    }
    forall p' | ValidPath(w, h, p')
      ensures Lookup(w, f', h, p') == if p' == p then v else Lookup(w, f, h, p')
    {
      assert ValidPath(w, h - 1, p'[1..]);
      assert p' == [p'[0]] + p'[1..] && p == [p[0]] + p[1..];
    }
  }

  /** Swapping one link. */
  lemma LinkReplaced(s: Store, n: Node, n': Node, q: nat, l: Option<Link>)
    requires n.LinkNode? && q < |n.links| && n' == LinkNode(n.links[q := l])
    requires Coherent(n) && LinkCoherent(l)
    ensures LinkCoherent(n.links[q]) && Erase(n).links[q] == EraseLink(n.links[q])
    ensures Coherent(n') && Erase(n').links == Erase(n).links[q := EraseLink(l)]
    ensures EraseLink(l) == EraseLink(n.links[q]) ==> Erase(n') == Erase(n)
    ensures Clean(n) && !IsDirty(l) ==> Clean(n')
    ensures NodeResolvable(s, n) ==> LinkResolvable(s, n.links[q])
    ensures NodeResolvable(s, n) && LinkResolvable(s, l) ==> NodeResolvable(s, n')
  {
    assert Erase(n').links == Erase(n).links[q := EraseLink(l)];
    assert Erase(n).links[q] == EraseLink(n.links[q]);
    if EraseLink(l) == EraseLink(n.links[q]) {
      assert Erase(n').links == Erase(n).links;
    }
  }

  /** `cache.get_or_try_init`: the cached child, or the expanded block its CID names. */
  method LoadLink(s: Store, w: nat, ghost h: nat, cid: Cid, cache: Option<Node>) returns (r: Result<Node>)
    requires LinkCoherent(Some(CidLink(cid, cache))) && SubWellFormed(w, cid, h)
    ensures r.Ok? ==> Erase(r.value) == cid.node && Clean(r.value) && Coherent(r.value)
    ensures r.Ok? && Resolvable(s, cid.node) ==> NodeResolvable(s, r.value)
    ensures !r.Ok? ==> r == Err(CidNotFound(cid)) && cid !in s
  {
    if cache.Some? {
      r := Ok(cache.value);
    } else if cid in s {
      var flat := Expand(w, s[cid]);
      assert Encodes(s[cid], cid.node);
      r := Ok(FromFlat(flat.value));
    } else {
      return Err(CidNotFound(cid));
    }
    CleanResolvable(s, r.value);
  }

  // ---- get ----

  /** Node::get; only caches change. */
  method Get(s: Store, w: nat, n: Node, h: nat, i: nat) returns (r: Result<Option<Value>>, n': Node)
    requires w * h < 64 && Coherent(n) && WellFormed(w, Erase(n), h) && i < Cap(w, h + 1)
    ensures Erase(n') == Erase(n) && Coherent(n') && (Clean(n) ==> Clean(n'))
    ensures NodeResolvable(s, n) ==> r.Ok? && NodeResolvable(s, n')
    ensures !r.Ok? ==> r.error.CidNotFound?
    ensures r.Ok? ==> r.value == At(w, Erase(n), h, i)
    decreases h, 0
  {
    n' := n;
    PathIsValid(w, h, i);
    match n
    case LeafNode(vals) =>
      r := Ok(vals[i]);
    case LinkNode(links) =>
      PathStep(w, h, i);
      var nfh := NodesForHeight(w, h);
      var q := i / nfh;
      SlotOf(w, Erase(n), h, q);
      var l;
      r, l := GetLink(s, w, links[q], h - 1, i % nfh);
      n' := LinkNode(links[q := l]);
      LinkReplaced(s, n, n', q, l);
  }

  /** The three cases of a link slot in Node::get. */
  method GetLink(s: Store, w: nat, l: Option<Link>, h: nat, i: nat) returns (r: Result<Option<Value>>, l': Option<Link>)
    requires w * h < 64 && LinkCoherent(l) && SlotWellFormed(w, EraseLink(l), h) && i < Cap(w, h + 1)
    ensures EraseLink(l') == EraseLink(l) && LinkCoherent(l') && (IsDirty(l') ==> IsDirty(l))
    ensures LinkResolvable(s, l) ==> r.Ok? && LinkResolvable(s, l')
    ensures !r.Ok? ==> r.error.CidNotFound?
    ensures r.Ok? ==> ValidPath(w, h, Path(w, h, i)) && r.value == SlotLookup(w, EraseLink(l), h, Path(w, h, i))
    decreases h, 1
  {
    l' := l;
    PathIsValid(w, h, i);
    match l
    case None => r := Ok(None);
    case Some(Dirty(c)) =>
      var c';
      r, c' := Get(s, w, c, h, i);
      l' := Some(Dirty(c'));
    case Some(CidLink(cid, cache)) =>
      var loaded := LoadLink(s, w, h, cid, cache);
      if loaded.Err? {
        return Err(loaded.error), l;
      }
      var c';
      r, c' := Get(s, w, loaded.value, h, i);
      l' := Some(CidLink(cid, Some(c')));
  }

  // ---- set ----

  /** `init_sized_vec`. */
  function EmptySlots<T>(w: nat): (s: seq<Option<T>>)
    ensures |s| == Width(w) && forall i | 0 <= i < |s| :: s[i].None?
  {
    seq(Width(w), _ => None)
  }

  /** A node without values: a leaf at height 0, otherwise a node of links. */
  function EmptyNode(w: nat, h: nat): (n: Node)
    ensures WellFormed(w, Erase(n), h) && Coherent(n) && FlatEmpty(Erase(n))
  {
    if h == 0 then LeafNode(EmptySlots(w)) else LinkNode(EmptySlots(w))
  }

  lemma EmptyLookup(w: nat, f: Flat, h: nat)
    requires WellFormed(w, f, h) && FlatEmpty(f)
    ensures forall p | ValidPath(w, h, p) :: Lookup(w, f, h, p) == None
  {
  }

  /** Node::set: returns the previous value, and only this index changes. */
  method Set(s: Store, w: nat, n: Node, h: nat, i: nat, v: Value) returns (r: Result<Option<Value>>, n': Node)
    requires w * h < 64 && Coherent(n) && WellFormed(w, Erase(n), h) && i < Cap(w, h + 1)
    ensures r.Ok? ==> Coherent(n') && WellFormed(w, Erase(n'), h)
    ensures r.Ok? ==> Updated(w, Erase(n), Erase(n'), h, Path(w, h, i), Some(v)) && !FlatEmpty(Erase(n'))
    ensures r.Ok? ==> r.value == At(w, Erase(n), h, i)
    ensures NodeResolvable(s, n) ==> r.Ok? && NodeResolvable(s, n')
    ensures !r.Ok? ==> r.error.CidNotFound?
    decreases h, 0
  {
    n' := n;
    PathIsValid(w, h, i);
    ghost var p := Path(w, h, i);
    if h == 0 {
      r, n' := Ok(n.vals[i]), LeafNode(n.vals[i := Some(v)]);
      assert n'.vals[i].Some?;
      assert forall p' | ValidPath(w, 0, p') :: p' == [p'[0]];
      return;
    }
    PathStep(w, h, i);
    var nfh := NodesForHeight(w, h);
    var q := i / nfh;
    SlotOf(w, Erase(n), h, q);
    var l;
    r, l := SetLink(s, w, n.links[q], h - 1, i % nfh, v);
    if r.Ok? {
      n' := LinkNode(n.links[q := Some(l)]);
      LinkReplaced(s, n, n', q, Some(l));
      UpdateThroughSlot(w, Erase(n), Erase(n'), h, p, Some(v));
      assert Erase(n').links[q].Some?;
    }
  }

  /** The three cases of a link slot in Node::set; the slot ends up modified. */
  method SetLink(s: Store, w: nat, l: Option<Link>, h: nat, i: nat, v: Value) returns (r: Result<Option<Value>>, l': Link)
    requires w * h < 64 && LinkCoherent(l) && SlotWellFormed(w, EraseLink(l), h) && i < Cap(w, h + 1)
    ensures ValidPath(w, h, Path(w, h, i))
    ensures r.Ok? ==> LinkCoherent(Some(l')) && SlotWellFormed(w, EraseLink(Some(l')), h)
    ensures r.Ok? ==> SlotUpdated(w, EraseLink(l), EraseLink(Some(l')), h, Path(w, h, i), Some(v))
    ensures r.Ok? ==> r.value == SlotLookup(w, EraseLink(l), h, Path(w, h, i))
    ensures LinkResolvable(s, l) ==> r.Ok? && LinkResolvable(s, Some(l'))
    ensures !r.Ok? ==> r.error.CidNotFound?
    decreases h, 1
  {
    PathIsValid(w, h, i);
    var c;
    match l {
      case None =>
        c := EmptyNode(w, h);
        EmptyLookup(w, Erase(c), h);
      case Some(Dirty(node)) => c := node;
      case Some(CidLink(cid, cache)) =>
        var loaded := LoadLink(s, w, h, cid, cache);
        if loaded.Err? {
          return Err(loaded.error), l.value;
        }
        c := loaded.value;
    }
    assert forall p' | ValidPath(w, h, p') :: Lookup(w, Erase(c), h, p') == SlotLookup(w, EraseLink(l), h, p');
    var c';
    r, c' := Set(s, w, c, h, i, v);
    l' := Dirty(c');
  }

  // ---- delete ----

  predicate IsEmpty(n: Node)
    ensures IsEmpty(n) <==> FlatEmpty(Erase(n))
  {
    EmptyErase(n);
    match n
    case LinkNode(links) => forall i | 0 <= i < |links| :: links[i].None?
    case LeafNode(vals) => forall i | 0 <= i < |vals| :: vals[i].None?
  }

  lemma EmptyErase(n: Node)
    ensures n.LinkNode? ==> (FlatEmpty(Erase(n)) <==> forall i | 0 <= i < |n.links| :: n.links[i].None?)
  {
    if n.LinkNode? {
      assert forall i | 0 <= i < |n.links| :: Erase(n).links[i] == EraseLink(n.links[i]);
      assert forall i | 0 <= i < |n.links| :: Erase(n).links[i].None? <==> n.links[i].None?;
    }
  }

  /** Node::delete: returns the value it removed; an absent index leaves the node as it was. */
  method Delete(s: Store, w: nat, n: Node, h: nat, i: nat) returns (r: Result<Option<Value>>, n': Node)
    requires w * h < 64 && Coherent(n) && WellFormed(w, Erase(n), h) && i < Cap(w, h + 1)
    ensures r.Ok? ==> Coherent(n') && WellFormed(w, Erase(n'), h)
    ensures r.Ok? ==> Updated(w, Erase(n), Erase(n'), h, Path(w, h, i), None)
    ensures r.Ok? ==> r.value == At(w, Erase(n), h, i)
    ensures r.Ok? && r.value.None? ==> Erase(n') == Erase(n) && (Clean(n) ==> Clean(n'))
    ensures NodeResolvable(s, n) ==> r.Ok? && NodeResolvable(s, n')
    ensures !r.Ok? ==> r.error.CidNotFound?
    decreases h, 0
  {
    n' := n;
    PathIsValid(w, h, i);
    ghost var p := Path(w, h, i);
    match n
    case LeafNode(vals) =>
      r, n' := Ok(vals[i]), LeafNode(vals[i := None]);
      assert forall p' | ValidPath(w, 0, p') :: p' == [p'[0]];
      assert vals[i].None? ==> n'.vals == vals;
    case LinkNode(links) =>
      PathStep(w, h, i);
      var nfh := NodesForHeight(w, h);
      var q := i / nfh;
      SlotOf(w, Erase(n), h, q);
      var l;
      r, l := DeleteLink(s, w, links[q], h - 1, i % nfh);
      if r.Ok? {
        n' := LinkNode(links[q := l]);
        LinkReplaced(s, n, n', q, l);
        UpdateThroughSlot(w, Erase(n), Erase(n'), h, p, None);
      }
  }

  /** The three cases of a link slot in Node::delete; an emptied child is unlinked. */
  method DeleteLink(s: Store, w: nat, l: Option<Link>, h: nat, i: nat) returns (r: Result<Option<Value>>, l': Option<Link>)
    requires w * h < 64 && LinkCoherent(l) && SlotWellFormed(w, EraseLink(l), h) && i < Cap(w, h + 1)
    ensures ValidPath(w, h, Path(w, h, i))
    ensures r.Ok? ==> LinkCoherent(l') && SlotWellFormed(w, EraseLink(l'), h)
    ensures r.Ok? ==> SlotUpdated(w, EraseLink(l), EraseLink(l'), h, Path(w, h, i), None)
    ensures r.Ok? ==> r.value == SlotLookup(w, EraseLink(l), h, Path(w, h, i))
    ensures r.Ok? && r.value.None? ==> EraseLink(l') == EraseLink(l) && (IsDirty(l') ==> IsDirty(l))
    ensures LinkResolvable(s, l) ==> r.Ok? && LinkResolvable(s, l')
    ensures !r.Ok? ==> r.error.CidNotFound?
    decreases h, 1
  {
    PathIsValid(w, h, i);
    l' := l;
    var c, c';
    match l {
      case None => return Ok(None), None;
      case Some(Dirty(node)) => c := node;
      case Some(CidLink(cid, cache)) =>
        var loaded := LoadLink(s, w, h, cid, cache);
        if loaded.Err? {
          return Err(loaded.error), l;
        }
        c := loaded.value;
    }
    r, c' := Delete(s, w, c, h, i);
    if r.Ok? {
      if r.value.None? {
        l' := if l.value.Dirty? then Some(Dirty(c')) else Some(CidLink(l.value.cid, Some(c')));
      } else if IsEmpty(c') {
        l' := None;
        EmptyLookup(w, Erase(c'), h);
      } else {
        l' := Some(Dirty(c'));
      }
    }
  }
}
