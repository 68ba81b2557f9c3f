/** The `Amt` object and theorems about whole runs of it. */
module AmtApi {
  import opened Common
  import opened Callbacks
  import opened AmtIndex
  import opened AmtCodec
  import opened AmtModel
  import opened AmtNode
  import opened AmtWalk
  import opened AmtMutate
  import opened AmtTree

  /** The CID of a stored root stands for what the root block encodes. */
  datatype RootCid = RootCid(width: nat, height: nat, count: nat, node: Flat)
  datatype RootBlock = RootBlock(width: nat, height: nat, count: nat, node: Collapsed)

  ghost predicate EncodesRoot(b: RootBlock, c: RootCid) {
    b.width == c.width && b.height == c.height && b.count == c.count && Encodes(b.node, c.node)
  }

  type RootStore = s: map<RootCid, RootBlock> | forall c | c in s :: EncodesRoot(s[c], c) witness map[]

  /** A blockstore shared by reference. */
  class BlockStore {
    var nodes: Store
    var roots: RootStore

    constructor ()
      ensures nodes == map[] && roots == map[]
    {
      nodes, roots := map[], map[];
    }

    method Save(blocks: Store, c: RootCid, b: RootBlock)
      requires EncodesRoot(b, c)
      modifies this
      ensures nodes == blocks && roots.Keys == old(roots.Keys) + {c}
    {
      nodes := blocks;
      roots := roots[c := b];
    }
  }

  /** A root block that represents a vector in canonical form. */
  ghost predicate RootValid(c: RootCid) {
    && RootInv(c.width, c.node, c.height)
    && c.count == |Contents(c.width, c.node, c.height)|
  }

  lemma EmptyContents(w: nat, f: Flat, h: nat)
    requires WellFormed(w, f, h) && FlatEmpty(f)
    ensures Contents(w, f, h) == map[]
  {
    forall i: nat
      ensures At(w, f, h, i) == None
    {
      if i < Cap(w, h + 1) {
        PathIsValid(w, h, i);
        EmptyLookup(w, f, h);
      }
    }
  }

  lemma SameContents(w: nat, f: Flat, h: nat, g: Flat, k: nat)
    requires WellFormed(w, f, h) && WellFormed(w, g, k)
    requires forall j: nat :: At(w, g, k, j) == At(w, f, h, j)
    ensures Contents(w, g, k) == Contents(w, f, h)
  {
    assert forall j: nat :: j in Contents(w, g, k) <==> j in Contents(w, f, h);
  }

  lemma PutSize(m: map<nat, Value>, m': map<nat, Value>, i: nat, v: Value)
    requires forall j: nat :: (j in m' <==> j == i || j in m) && (j in m' ==> m'[j] == if j == i then v else m[j])
    ensures m' == m[i := v] && |m'| == |m| + (if i in m then 0 else 1)
  {
    assert m' == m[i := v];
    if i in m {
      assert m'.Keys == m.Keys;
    } else {
      assert m'.Keys == m.Keys + {i};
    }
    assert |m'.Keys| == |m'| && |m.Keys| == |m|;
  }

  lemma ContentsAt(w: nat, f: Flat, h: nat, j: nat)
    requires WellFormed(w, f, h)
    ensures At(w, f, h, j) == if j in Contents(w, f, h) then Some(Contents(w, f, h)[j]) else None
  {
  }

  lemma SetContents(w: nat, f: Flat, h: nat, g: Flat, k: nat, i: nat, v: Value)
    requires WellFormed(w, f, h) && WellFormed(w, g, k)
    requires forall j: nat :: At(w, g, k, j) == if j == i then Some(v) else At(w, f, h, j)
    ensures Contents(w, g, k) == Contents(w, f, h)[i := v]
    ensures |Contents(w, g, k)| == |Contents(w, f, h)| + (if At(w, f, h, i).None? then 1 else 0)
  {
    forall j: nat
      ensures var m, m' := Contents(w, f, h), Contents(w, g, k);
              (j in m' <==> j == i || j in m) && (j in m' ==> m'[j] == if j == i then v else m[j])
    {
      ContentsAt(w, f, h, j);
      ContentsAt(w, g, k, j);
    }
    PutSize(Contents(w, f, h), Contents(w, g, k), i, v);
  }

  lemma RemoveContents(w: nat, f: Flat, g: Flat, h: nat, i: nat)
    requires WellFormed(w, f, h) && WellFormed(w, g, h) && At(w, f, h, i).Some?
    requires forall j: nat :: At(w, g, h, j) == if j == i then None else At(w, f, h, j)
    ensures Contents(w, g, h) == Contents(w, f, h) - {i}
    ensures |Contents(w, g, h)| == |Contents(w, f, h)| - 1
  {
    MapWithout(Contents(w, f, h), Contents(w, g, h), i);
  }

  lemma MapWithout(m: map<nat, Value>, m': map<nat, Value>, i: nat)
    requires i in m && (forall j: nat :: j in m' <==> j in m && j != i) && forall j | j in m' :: m'[j] == m[j]
    ensures m' == m - {i} && |m'| == |m| - 1
  {
    assert m'.Keys == m.Keys - {i};
    assert |m'.Keys| == |m'| && |m.Keys| == |m|;
  }

  lemma NothingToRemove(w: nat, f: Flat, h: nat, i: nat)
    requires WellFormed(w, f, h) && At(w, f, h, i).None?
    ensures Contents(w, f, h) - {i} == Contents(w, f, h)
  {
  }

  /** An index beyond the first slot makes the root tight. */
  lemma TightBecause(w: nat, f: Flat, h: nat, i: nat)
    requires WellFormed(w, f, h) && i >= Cap(w, h) && At(w, f, h, i).Some?
    ensures Tight(f, h)
  {
    if h > 0 {
      var q, r := SplitIndex(w, h, i);
      AtSlot(w, f, h, q, r, i);
      assert q == 0 ==> i == r;
      assert f.links[q].Some?;
    }
  }

  lemma SetIsTight(w: nat, f: Flat, h: nat, g: Flat, k: nat, i: nat, v: Value)
    requires WellFormed(w, f, h) && Tight(f, h) && WellFormed(w, g, k) && h <= k
    requires forall j: nat :: At(w, g, k, j) == if j == i then Some(v) else At(w, f, h, j)
    requires k > h ==> i >= Cap(w, k)
    ensures Tight(g, k)
  {
    if k > h {
      TightBecause(w, g, k, i);
    } else if h > 0 {
      var j := TightIndex(w, f, h);
      TightBecause(w, g, k, j);
    }
  }

  /** `l` lists the vector's entries, each once, in increasing index order. */
  ghost predicate Enumerates(l: seq<Item>, m: map<nat, Value>) {
    && (forall j, k | 0 <= j < k < |l| :: l[j].i < l[k].i)
    && (forall x: Item :: x in l <==> x.i in m && m[x.i] == x.v)
  }

  lemma ListingEnumerates(w: nat, f: Flat, h: nat)
    requires WellFormed(w, f, h)
    ensures Enumerates(Listing(w, f, h, 0), Contents(w, f, h))
  {
    var l, m := Listing(w, f, h, 0), Contents(w, f, h);
    ListingIsSorted(w, f, h, 0);
    forall x: Item
      ensures x in l <==> x.i in m && m[x.i] == x.v
    {
      ListedAt(w, f, h, x);
      assert x.i in m ==> At(w, f, h, x.i) == Some(m[x.i]);
    }
  }

  lemma ListedAt(w: nat, f: Flat, h: nat, x: Item)
    requires WellFormed(w, f, h)
    ensures x in Listing(w, f, h, 0) <==> At(w, f, h, x.i) == Some(x.v)
  {
    ListingIsSorted(w, f, h, 0);
    if x.i < Cap(w, h + 1) {
      PathIsValid(w, h, x.i);
      var p := Path(w, h, x.i);
      ListingIsComplete(w, f, h, 0, p);
      assert x == Item(0 + IndexOf(w, p), x.v);
    }
  }

  lemma MutatedIsTight(w: nat, f: Flat, g: Flat, h: nat, cb: MutCallback)
    requires WellFormed(w, f, h) && WellFormed(w, g, h) && Tight(f, h)
    requires Listing(w, g, h, 0) == RunMut(Listing(w, f, h, 0), cb).after
    ensures Tight(g, h) && |Contents(w, g, h)| == |Contents(w, f, h)|
  {
    var l, l', m, m' := Listing(w, f, h, 0), Listing(w, g, h, 0), Contents(w, f, h), Contents(w, g, h);
    ListingEnumerates(w, f, h);
    ListingEnumerates(w, g, h);
    RunMutAfter(l, cb);
    SameIndices(l, l', m, m');
    if h > 0 {
      var i := TightIndex(w, f, h);
      assert i in m';
      TightBecause(w, g, h, i);
    }
    assert |m.Keys| == |m| && |m'.Keys| == |m'|;
  }

  lemma SameIndices(l: seq<Item>, l': seq<Item>, m: map<nat, Value>, m': map<nat, Value>)
    requires Enumerates(l, m) && Enumerates(l', m') && |l'| == |l|
    requires forall k | 0 <= k < |l| :: l'[k].i == l[k].i
    ensures m.Keys == m'.Keys
  {
    forall i | i in m
      ensures i in m'
    {
      assert Item(i, m[i]) in l;
      var k :| 0 <= k < |l| && l[k] == Item(i, m[i]);
      assert l'[k] in l';
    }
    forall i | i in m'
      ensures i in m
    {
      assert Item(i, m'[i]) in l';
      var k :| 0 <= k < |l'| && l'[k] == Item(i, m'[i]);
      assert l[k] in l;
    }
  }

  /** The vector as a mutating walk leaves it: what the callback wrote in the entries it met, all else as it was. */
  ghost predicate Rewritten(m: map<nat, Value>, calls: seq<Item>, g: MutCallback, m': map<nat, Value>) {
    && m'.Keys == m.Keys
    && (forall x: Item, u | x in calls && g(x).written == Some(u) :: x.i in m && m'[x.i] == u)
    && (forall i | i in m && (Item(i, m[i]) !in calls || g(Item(i, m[i])).written.None?) :: m'[i] == m[i])
  }

  /** An entry is met if and only if it is among the first that are. */
  lemma MetByPosition(l: seq<Item>, m: map<nat, Value>, g: MutCallback, k: nat)
    requires Enumerates(l, m) && k < |l|
    ensures |RunMut(l, g).calls| <= |l| && (l[k] in RunMut(l, g).calls <==> k < |RunMut(l, g).calls|)
  {
    RunMutCalls(l, g);
    var n := |RunMut(l, g).calls|;
    if l[k] in l[..n] {
      var j :| 0 <= j < n && l[j] == l[k];
    }
  }

  /** What becomes of one entry. */
  lemma EntryRewritten(l: seq<Item>, m: map<nat, Value>, g: MutCallback, m': map<nat, Value>, i: nat)
    requires Enumerates(l, m) && Enumerates(RunMut(l, g).after, m') && m'.Keys == m.Keys && i in m
    ensures var x := Item(i, m[i]);
            if x in RunMut(l, g).calls then Left(x, g(x), Item(i, m'[i])) else m'[i] == m[i]
  {
    RunMutAfter(l, g);
    assert Item(i, m[i]) in l;
    var k :| 0 <= k < |l| && l[k] == Item(i, m[i]);
    MetByPosition(l, m, g, k);
    assert RunMut(l, g).after[k] in RunMut(l, g).after;
  }

  lemma CallsListed(l: seq<Item>, m: map<nat, Value>, g: MutCallback, x: Item)
    requires Enumerates(l, m) && x in RunMut(l, g).calls
    ensures x.i in m && m[x.i] == x.v
  {
    RunMutCalls(l, g);
    assert x in l;
  }

  lemma RewrittenBecause(l: seq<Item>, m: map<nat, Value>, g: MutCallback, m': map<nat, Value>)
    requires Enumerates(l, m) && Enumerates(RunMut(l, g).after, m')
    ensures Rewritten(m, RunMut(l, g).calls, g, m')
  {
    RunMutAfter(l, g);
    SameIndices(l, RunMut(l, g).after, m, m');
    forall x: Item, u | x in RunMut(l, g).calls && g(x).written == Some(u)
      ensures x.i in m && m'[x.i] == u
    {
      CallsListed(l, m, g, x);
      EntryRewritten(l, m, g, m', x.i);
    }
    forall i | i in m && (Item(i, m[i]) !in RunMut(l, g).calls || g(Item(i, m[i])).written.None?)
      ensures m'[i] == m[i]
    {
      EntryRewritten(l, m, g, m', i);
    }
  }

  /** Amt::set on the root's parts: grow until the index fits, then set. */
  method SetRoot(s: Store, w: nat, n: Node, h: nat, i: nat, v: Value) returns (prev: Result<Option<Value>>, n': Node, h': nat)
    requires Coherent(n) && RootInv(w, Erase(n), h) && i <= MAX_INDEX
    ensures prev.Ok? ==> Coherent(n') && RootInv(w, Erase(n'), h')
    ensures prev.Ok? ==> Contents(w, Erase(n'), h') == Contents(w, Erase(n), h)[i := v]
    ensures prev.Ok? ==> |Contents(w, Erase(n'), h')| == |Contents(w, Erase(n), h)| + (if prev.value.None? then 1 else 0)
    ensures NodeResolvable(s, n) ==> prev.Ok? && NodeResolvable(s, n')
    ensures !prev.Ok? ==> prev.error.CidNotFound?
  {
    n', h' := GrowTo(w, n, h, i);
    ghost var g := Erase(n');
    prev, n' := AmtNode.Set(s, w, n', h', i, v);
    if prev.Ok? {
      UpdatedAt(w, g, Erase(n'), h', i, Some(v));
      SetIsTight(w, Erase(n), h, Erase(n'), h', i, v);
      SetContents(w, Erase(n), h, Erase(n'), h', i, v);
    }
  }

  /** After a removal: an emptied tree is reset, a tree with its entries in the first child is lowered. */
  method LowerRoot(s: Store, w: nat, n: Node, h: nat) returns (r: Result<()>, n': Node, h': nat)
    requires 1 <= w < 64 && w * h < 64 && Coherent(n) && WellFormed(w, Erase(n), h)
    ensures r.Ok? ==> Coherent(n') && RootInv(w, Erase(n'), h')
    ensures r.Ok? ==> Contents(w, Erase(n'), h') == Contents(w, Erase(n), h)
    ensures NodeResolvable(s, n) ==> r.Ok? && NodeResolvable(s, n')
    ensures !r.Ok? ==> r.error.CidNotFound?
  {
    if IsEmpty(n) {
      EmptyContents(w, Erase(n), h);
      r, n', h' := Ok(()), EmptyNode(w, 0), 0;
      EmptyContents(w, Erase(n'), 0);
      assert w * 0 == 0;
    } else {
      r, n', h' := CollapseRoot(s, w, n, h);
      if r.Ok? {
        SameContents(w, Erase(n), h, Erase(n'), h');
      }
    }
  }

  /** Amt::get on the root's parts. */
  method GetRoot(s: Store, w: nat, n: Node, h: nat, i: nat) returns (r: Result<Option<Value>>, n': Node)
    requires Coherent(n) && RootInv(w, Erase(n), h) && i <= MAX_INDEX
    ensures Coherent(n') && Erase(n') == Erase(n)
    ensures r.Ok? ==> r.value == var m := Contents(w, Erase(n), h); if i in m then Some(m[i]) else None
    ensures NodeResolvable(s, n) ==> r.Ok? && NodeResolvable(s, n')
    ensures !r.Ok? ==> r.error.CidNotFound?
  {
    RangeCheckExact(w, h + 1, i);
    if i >= NodesForHeight(w, h + 1) {
      return Ok(None), n;
    }
    r, n' := AmtNode.Get(s, w, n, h, i);
  }

  /** Amt::for_each_while_mut on the root's parts. */
  method MutateRoot(s: Store, w: nat, n: Node, h: nat, g: MutCallback) returns (r: Result<Reply>, calls: seq<Item>, n': Node)
    requires Coherent(n) && RootInv(w, Erase(n), h)
    ensures r.Ok? && !r.value.Fail? ==>
              Coherent(n') && RootInv(w, Erase(n'), h) && |Contents(w, Erase(n'), h)| == |Contents(w, Erase(n), h)|
    ensures r.Ok? ==> WellFormed(w, Seen(n'), h)
    ensures r.Ok? ==> var run := RunMut(Listing(w, Erase(n), h, 0), g);
                      run.calls == calls && run.reply == r.value && run.after == Listing(w, Seen(n'), h, 0)
    ensures r.Ok? && r.value.Fail? ==> FailedIn(w, n, n', h, 0, calls)
    ensures NodeResolvable(s, n) ==> r.Ok? && (!r.value.Fail? ==> NodeResolvable(s, n'))
    ensures !r.Ok? ==> r.error.CidNotFound?
  {
    var out;
    out, calls, n' := AmtMutate.ForEachWhileMut(s, w, n, h, 0, g);
    if out.Err? {
      return Err(out.error), calls, n';
    }
    if !out.value.reply.Fail? {
      SeenCoherent(n');
      MutatedIsTight(w, Erase(n), Erase(n'), h, g);
    }
    r := Ok(out.value.reply);
  }

  /** Amt::flush on the root's parts. */
  method FlushRoot(s: Store, n: Node) returns (s': Store, n': Node, flat: Flat, block: Collapsed)
    requires Coherent(n)
    ensures Coherent(n') && Erase(n') == Erase(n) && Clean(n') && s.Keys <= s'.Keys
    ensures flat == Erase(n) && Encodes(block, flat)
    ensures NodeResolvable(s, n) ==> NodeResolvable(s', n') && Resolvable(s', Erase(n))
  {
    s', n' := AmtWalk.Flush(s, n);
    var r := Serialize(n');
    flat, block := CidFor(n').node, r.value;
    CleanResolvable(s', n');
  }

  /** Amt::delete on the root's parts: delete, then reset or lower the root. */
  method DeleteRoot(s: Store, w: nat, n: Node, h: nat, i: nat) returns (r: Result<Option<Value>>, n': Node, h': nat)
    requires Coherent(n) && RootInv(w, Erase(n), h) && i <= MAX_INDEX
    ensures r.Ok? ==> r.value == At(w, Erase(n), h, i)
    ensures r.Ok? ==> Coherent(n') && RootInv(w, Erase(n'), h')
    ensures r.Ok? ==> Contents(w, Erase(n'), h') == Contents(w, Erase(n), h) - {i}
    ensures r.Ok? ==> |Contents(w, Erase(n'), h')| == |Contents(w, Erase(n), h)| - (if r.value.None? then 0 else 1)
    ensures NodeResolvable(s, n) ==> r.Ok? && NodeResolvable(s, n')
    ensures !r.Ok? ==> r.error.CidNotFound?
  {
    h' := h;
    RangeCheckExact(w, h + 1, i);
    if i >= NodesForHeight(w, h + 1) {
      NothingToRemove(w, Erase(n), h, i);
      return Ok(None), n, h;
    }
    r, n' := AmtNode.Delete(s, w, n, h, i);
    if r.Err? {
      return;
    }
    UpdatedAt(w, Erase(n), Erase(n'), h, i, None);
    if r.value.None? {
      NothingToRemove(w, Erase(n), h, i);
      return;
    }
    RemoveContents(w, Erase(n), Erase(n'), h, i);
    var ok;
    ok, n', h' := LowerRoot(s, w, n', h);
    if ok.Err? {
      return Err(ok.error), n', h';
    }
  }

  /** A block was not in the store. */
  predicate Missing(r: Result<()>) {
    r.Err? && r.error.CidNotFound?
  }

  class Amt {
    const store: BlockStore
    const width: nat
    var height: nat
    var count: nat
    var node: Node

    ghost function Root(): RootCid
      reads this
    {
      RootCid(width, height, count, Erase(node))
    }

    ghost predicate Valid()
      reads this
    {
      Coherent(node) && RootValid(Root())
    }

    /** Every block a walk could need is in the store. */
    ghost predicate Complete()
      reads this, store
    {
      NodeResolvable(store.nodes, node)
    }

    ghost function Vector(): map<nat, Value>
      reads this
      requires Valid()
    {
      Contents(width, Erase(node), height)
    }

    /** Amt::new_with_bit_width. */
    constructor NewWithBitWidth(store: BlockStore, width: nat)
      requires 1 <= width < 64
      ensures Valid() && Complete() && Vector() == map[]
      ensures this.store == store && this.width == width
    {
      this.store, this.width, height, count, node := store, width, 0, 0, EmptyNode(width, 0);
      new;
      EmptyContents(width, Erase(node), 0);
      assert width * 0 == 0;
    }

    /** A root expanded from its block. */
    constructor FromRoot(store: BlockStore, c: RootCid)
      ensures this.store == store && Root() == c && Clean(node) && Coherent(node)
    {
      this.store, width, height, count, node := store, c.width, c.height, c.count, FromFlat(c.node);
    }

    /** Amt::get. */
    method Get(i: nat) returns (r: Result<Option<Value>>)
      requires Valid()
      modifies this`node
      ensures Valid() && Root() == old(Root())
      ensures i > MAX_INDEX ==> r == Err(OutOfRange(i))
      ensures i <= MAX_INDEX && r.Ok? ==> r.value == if i in Vector() then Some(Vector()[i]) else None
      ensures i <= MAX_INDEX && !r.Ok? ==> r.error.CidNotFound?
      ensures old(Complete()) ==> Complete() && (i <= MAX_INDEX ==> r.Ok?)
    {
      if i > MAX_INDEX {
        return Err(OutOfRange(i));
      }
      var n';
      r, n' := GetRoot(store.nodes, width, node, height, i);
      node := n';
    }

    /** Amt::set: the index takes the value, the count follows, and the root stays canonical. */
    method Set(i: nat, v: Value) returns (r: Result<()>)
      requires Valid()
      modifies this
      ensures i > MAX_INDEX ==> r == Err(OutOfRange(i)) && unchanged(this)
      ensures r.Ok? ==> Valid() && Vector() == old(Vector())[i := v] && (old(Complete()) ==> Complete())
      ensures i <= MAX_INDEX && old(Complete()) ==> r.Ok?
      ensures i <= MAX_INDEX && !r.Ok? ==> r.error.CidNotFound?
    {
      if i > MAX_INDEX {
        return Err(OutOfRange(i));
      }
      var prev, n', h' := SetRoot(store.nodes, width, node, height, i, v);
      node, height := n', h';
      if prev.Err? {
        return Err(prev.error);
      }
      if prev.value.None? {
        count := count + 1;
      }
      r := Ok(());
    }

    /** Amt::delete: the removed value comes back, and the root is lowered to canonical form. */
    method Delete(i: nat) returns (r: Result<Option<Value>>)
      requires Valid()
      modifies this
      ensures i > MAX_INDEX ==> r == Err(OutOfRange(i)) && unchanged(this)
      ensures r.Ok? ==> Valid() && Vector() == old(Vector()) - {i} && (old(Complete()) ==> Complete())
      ensures r.Ok? ==> r.value == if i in old(Vector()) then Some(old(Vector())[i]) else None
      ensures i <= MAX_INDEX && old(Complete()) ==> r.Ok?
      ensures i <= MAX_INDEX && !r.Ok? ==> r.error.CidNotFound?
    {
      if i > MAX_INDEX {
        return Err(OutOfRange(i));
      }
      var n', h';
      r, n', h' := DeleteRoot(store.nodes, width, node, height, i);
      node, height := n', h';
      if r.Ok? && r.value.Some? {
        count := count - 1;
      }
    }

    /** Amt::flush: serialisation is never refused, and the root CID names the vector. */
    method Flush() returns (c: RootCid)
      requires Valid()
      modifies this`node, store
      ensures Valid() && Root() == old(Root()) && Clean(node)
      ensures c == Root() && c in store.roots && RootValid(c)
      ensures old(store.nodes.Keys) <= store.nodes.Keys && old(store.roots.Keys) <= store.roots.Keys
      ensures old(Complete()) ==> Complete() && Resolvable(store.nodes, c.node)
    {
      var s', n', flat, block := FlushRoot(store.nodes, node);
      node := n';
      assert Root() == old(Root());
      c := RootCid(width, height, count, flat);
      store.Save(s', c, RootBlock(width, height, count, block));
    }

    /** Amt::for_each_while: entries in increasing index order, up to the first call that declines or fails. */
    method ForEachWhile(f: Callback) returns (r: Result<()>, calls: seq<Item>)
      requires Valid()
      modifies this`node
      ensures Valid() && Root() == old(Root())
      ensures old(Complete()) ==> Complete()
      ensures Enumerates(Listing(width, Erase(node), height, 0), Vector())
      ensures Missing(r) ==> !old(Complete())
      ensures !Missing(r) ==>
                var run := CallEach(Listing(width, Erase(node), height, 0), f);
                calls == run.calls && r == if run.reply.Fail? then Err(CallbackFailed) else Ok(())
    {
      var out, n';
      out, calls, n' := AmtWalk.ForEachWhile(store.nodes, width, node, height, 0, f);
      node := n';
      ListingEnumerates(width, Erase(node), height);
      r := if out.Err? then Err(out.error) else if out.value.Fail? then Err(CallbackFailed) else Ok(());
    }

    /**
     Amt::for_each_while_mut: the entries met are as the callback left them, the rest unchanged. When the callback fails,
     reads meet what was written, but a slot of the root that was unmodified keeps its CID if the failing call was in it.
     */
    method ForEachWhileMut(g: MutCallback) returns (r: Result<()>, calls: seq<Item>)
      requires Valid()
      modifies this`node
      ensures Enumerates(old(Listing(width, Erase(node), height, 0)), old(Vector()))
      ensures Missing(r) ==> !old(Complete())
      ensures !Missing(r) ==>
                var run := RunMut(old(Listing(width, Erase(node), height, 0)), g);
                && WellFormed(width, Seen(node), height)
                && run.calls == calls && run.after == Listing(width, Seen(node), height, 0)
                && r == if run.reply.Fail? then Err(CallbackFailed) else Ok(())
      ensures r.Ok? ==> Valid() && Seen(node) == Erase(node) && (old(Complete()) ==> Complete())
      ensures r.Ok? ==> Enumerates(Listing(width, Erase(node), height, 0), Vector())
      ensures r.Ok? ==> Rewritten(old(Vector()), calls, g, Vector())
      ensures r == Err(CallbackFailed) ==> FailedIn(width, old(node), node, height, 0, calls)
    {
      ListingEnumerates(width, Erase(node), height);
      var out, n';
      out, calls, n' := MutateRoot(store.nodes, width, node, height, g);
      if out.Err? {
        return Err(out.error), calls;
      }
      node := n';
      if !out.value.Fail? {
        SeenCoherent(node);
        ListingEnumerates(width, Erase(node), height);
        RewrittenBecause(old(Listing(width, Erase(node), height, 0)), old(Vector()), g, Vector());
      }
      r := if out.value.Fail? then Err(CallbackFailed) else Ok(());
    }
  }

  /** Amt::load. A valid root block gives back its vector. */
  method Load(store: BlockStore, c: RootCid) returns (r: Result<Amt>)
    ensures c !in store.roots ==> r == Err(RootNotFound)
    ensures r.Ok? ==> c.height <= MAX_HEIGHT
    ensures c in store.roots && RootValid(c) ==> r.Ok? && fresh(r.value) && r.value.store == store
    ensures c in store.roots && RootValid(c) ==> r.value.Valid() && r.value.Root() == c
    ensures c in store.roots && RootValid(c) && Resolvable(store.nodes, c.node) ==> r.value.Complete()
  {
    if c !in store.roots {
      return Err(RootNotFound);
    }
    var b := store.roots[c];
    if RootValid(c) {
      RootExpands(c);
    }
    var flat := Expand(b.width, b.node);
    if flat.Err? {
      return Err(flat.error);
    }
    if b.height > MAX_HEIGHT {
      return Err(MaxHeight);
    }
    var a := new Amt.FromRoot(store, RootCid(b.width, b.height, b.count, flat.value));
    CleanResolvable(store.nodes, a.node);
    r := Ok(a);
  }

  lemma RootExpands(c: RootCid)
    requires RootValid(c)
    ensures SlotCount(c.node) == Width(c.width) && !EmptyLinks(c.node) && c.height <= MAX_HEIGHT
  {
    HeightBelow64(c.width, c.height);
  }

  // ---- roots and contents ----

  /** Root CIDs and contents determine each other, whatever the history. */
  lemma RootCidNamesContents(c: RootCid, d: RootCid)
    requires RootValid(c) && RootValid(d) && c.width == d.width
    ensures Contents(c.width, c.node, c.height) == Contents(d.width, d.node, d.height) <==> c == d
  {
    if Contents(c.width, c.node, c.height) == Contents(d.width, d.node, d.height) {
      ContentsDetermineTree(c.width, c.node, c.height, d.node, d.height);
    }
  }

  /** The same of the blocks themselves: two root blocks are equal exactly if they hold the same vector. */
  lemma RootBlockNamesContents(a: RootBlock, b: RootBlock, c: RootCid, d: RootCid)
    requires EncodesRoot(a, c) && EncodesRoot(b, d) && RootValid(c) && RootValid(d) && c.width == d.width
    ensures Contents(c.width, c.node, c.height) == Contents(d.width, d.node, d.height) <==> a == b
  {
    RootCidNamesContents(c, d);
    RootExpands(c);
    RootExpands(d);
    if c == d {
      EncodingUnique(a.node, b.node, c.node);
    }
    if a == b {
      DecodingUnique(a.node, c.node, d.node);
    }
  }
}
