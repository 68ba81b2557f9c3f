/** HAMT nodes: lookup, iteration and flush, and the map that a tree spells. */
module HamtTree {
  import opened Common
  import opened Callbacks
  import opened Bitfields
  import HashBitReader
  import opened HamtModel
  import opened HamtSet
  import opened HamtDelete

  // ---- get ----

  /** Node::get_value; only caches change. */
  method GetValue(cfg: Config, s: Store, n: Node, hb: HashBitReader.HashBits, key: Key)
    returns (r: Result<Option<Value>>, n': Node)
    requires cfg.Valid() && cfg.Fits(hb.consumed) && hb.b == cfg.hash(key)
    requires Coherent(n) && BlockInv(cfg, Erase(n), hb.consumed)
    ensures Erase(n') == Erase(n) && Coherent(n') && (Clean(n) ==> Clean(n'))
    ensures NodeResolvable(s, n) ==> r.Ok? && NodeResolvable(s, n')
    ensures !r.Ok? ==> r.Err? && r.error.CidNotFound?
    ensures r.Ok? ==> (r.value.Some? <==> HasKey(Entries(Erase(n)), key))
    ensures r.Ok? && r.value.Some? ==> Entry(key, r.value.value) in Entries(Erase(n))
    decreases 256 - hb.consumed, 0
  {
    n' := n;
    ghost var at := hb.consumed;
    var next, hb' := HashBitReader.Next(hb, cfg.width);
    var idx := next.bits;
    cfg.SlotBound(key, at);
    if !n.bits.TestBit(idx) {
      AbsentSlot(cfg, Erase(n), at, key);
      return Ok(None), n;
    }
    var i := ChildIndex(cfg, n, at, idx);
    var child := n.pointers[i];
    var child';
    r, child' := GetPointer(cfg, s, child, at, idx, hb', key);
    PointerReplaced(cfg, n, n, at, idx, child);
    WithoutLifts(Entries(Erase(n)), SlotEntries(ErasePtr(child)), key);
    n' := n.(pointers := n.pointers[i := child']);
    ReplacedFrame(s, n, n', i, child');
    PointerKept(n, n', i, child');
  }

  /** The three arms of get_value's match. */
  method GetPointer(cfg: Config, s: Store, p: Pointer, ghost at: nat, ghost idx: nat, hb: HashBitReader.HashBits, key: Key)
    returns (r: Result<Option<Value>>, p': Pointer)
    requires cfg.Valid() && cfg.Fits(at) && hb.b == cfg.hash(key) && hb.consumed == at + cfg.width
    requires PtrCoherent(p) && SlotInv(cfg, ErasePtr(p), at, idx)
    ensures ErasePtr(p') == ErasePtr(p) && PtrCoherent(p') && (p'.Dirty? ==> p.Dirty?)
    ensures PtrResolvable(s, p) ==> r.Ok? && PtrResolvable(s, p')
    ensures !r.Ok? ==> r.Err? && r.error.CidNotFound?
    ensures r.Ok? ==> (r.value.Some? <==> HasKey(SlotEntries(ErasePtr(p)), key))
    ensures r.Ok? && r.value.Some? ==> Entry(key, r.value.value) in SlotEntries(ErasePtr(p))
    decreases 256 - hb.consumed, 1
  {
    p' := p;
    match p
    case Values(vals) =>
      var j := Position(vals, key);
      assert j < |vals| ==> vals[j] in ToSet(vals);
      r := Ok(if j < |vals| then Some(vals[j].value) else None);
    case Dirty(c) =>
      SubNodeFits(cfg, Erase(c), at, idx);
      var c';
      r, c' := GetValue(cfg, s, c, hb, key);
      p' := Dirty(c');
    case Link(cid, cache) =>
      var loaded := LoadChild(s, cid, cache);
      if !loaded.Ok? {
        return Err(loaded.error), p;
      }
      SubNodeFits(cfg, cid.block, at, idx);
      var c';
      r, c' := GetValue(cfg, s, loaded.value, hb, key);
      p' := Link(cid, Some(c'));
  }

  // ---- for_each ----

  ghost function SlotListing(p: Stored): seq<Entry>
    decreases p
  {
    match p
    case Vals(es) => es
    case Ln(c) => Listing(c.block.ptrs)
  }

  /** Entries in the order `for_each` meets them. */
  ghost function Listing(ps: seq<Stored>): seq<Entry>
    decreases ps
  {
    if ps == [] then [] else Listing(ps[..|ps| - 1]) + SlotListing(ps[|ps| - 1])
  }

  /** A callback that reads an entry and succeeds or fails. */
  type EntryCallback = Entry -> bool

  function Replies(f: EntryCallback): Entry -> Reply {
    e => if f(e) then GoOn else Fail
  }

  lemma {:induction false} CalledWithin(ps: seq<Stored>, f: Entry -> Reply, i: nat)
    requires i <= |ps| && !CallEach(Listing(ps[..i]), f).reply.GoOn?
    ensures CallEach(Listing(ps), f) == CallEach(Listing(ps[..i]), f)
    decreases |ps|
  {
    var n := |ps| - 1;
    if i == |ps| {
      assert ps[..i] == ps;
    } else {
      assert ps[..n][..i] == ps[..i];
      CalledWithin(ps[..n], f, i);
      CallConcat(Listing(ps[..n]), SlotListing(ps[n]), f);
    }
  }

  lemma CalledNext(ps: seq<Stored>, f: Entry -> Reply, i: nat, calls: seq<Entry>, more: seq<Entry>, reply: Reply)
    requires i < |ps| && CallEach(Listing(ps[..i]), f) == Called(calls, GoOn)
    requires CallEach(SlotListing(ps[i]), f) == Called(more, reply)
    ensures CallEach(Listing(ps[..i + 1]), f) == Called(calls + more, reply)
    ensures !reply.GoOn? ==> CallEach(Listing(ps), f) == Called(calls + more, reply)
  {
    assert ps[..i + 1][..i] == ps[..i];
    CallConcat(Listing(ps[..i]), SlotListing(ps[i]), f);
    if !reply.GoOn? {
      CalledWithin(ps, f, i + 1);
    }
  }

  /** Node::for_each: the calls are those on the listing, up to the first that fails. */
  method ForEachNode(s: Store, n: Node, f: EntryCallback) returns (r: Result<Reply>, calls: seq<Entry>, n': Node)
    requires Coherent(n)
    ensures Erase(n') == Erase(n) && Coherent(n') && (Clean(n) ==> Clean(n'))
    ensures NodeResolvable(s, n) ==> r.Ok? && NodeResolvable(s, n')
    ensures r.Ok? ==> CallEach(Listing(Erase(n).ptrs), Replies(f)) == Called(calls, r.value)
    ensures !r.Ok? ==> r.Err? && r.error.CidNotFound?
    decreases Erase(n), 1
  {
    n', calls, r := n, [], Ok(GoOn);
    ghost var b := Erase(n);
    for i := 0 to |n.pointers|
      invariant |n'.pointers| == |n.pointers| && Erase(n') == b && Coherent(n') && (Clean(n) ==> Clean(n'))
      invariant NodeResolvable(s, n) ==> NodeResolvable(s, n')
      invariant CallEach(Listing(b.ptrs[..i]), Replies(f)) == Called(calls, GoOn)
      invariant r == Ok(GoOn)
    {
      ghost var before := n';
      var p := n'.pointers[i];
      assert b.ptrs[i] == ErasePtr(p);
      var more, p';
      r, more, p' := ForEachPointer(s, p, f);
      n' := n'.(pointers := n'.pointers[i := p']);
      ReplacedFrame(s, before, n', i, p');
      PointerKept(before, n', i, p');
      if !r.Ok? {
        return;
      }
      CalledNext(b.ptrs, Replies(f), i, calls, more, r.value);
      calls := calls + more;
      if !r.value.GoOn? {
        return;
      }
    }
    assert b.ptrs[..|b.ptrs|] == b.ptrs;
  }

  method ForEachPointer(s: Store, p: Pointer, f: EntryCallback) returns (r: Result<Reply>, calls: seq<Entry>, p': Pointer)
    requires PtrCoherent(p)
    ensures ErasePtr(p') == ErasePtr(p) && PtrCoherent(p') && (p'.Dirty? ==> p.Dirty?)
    ensures PtrResolvable(s, p) ==> r.Ok? && PtrResolvable(s, p')
    ensures r.Ok? ==> CallEach(SlotListing(ErasePtr(p)), Replies(f)) == Called(calls, r.value)
    ensures !r.Ok? ==> r.Err? && r.error.CidNotFound?
    decreases ErasePtr(p), 0
  {
    p', calls, r := p, [], Ok(GoOn);
    match p
    case Values(vals) =>
      var reply;
      reply, calls := ForEachValue(vals, f);
      r := Ok(reply);
    case Dirty(c) =>
      var c';
      r, calls, c' := ForEachNode(s, c, f);
      p' := Dirty(c');
    case Link(cid, cache) =>
      var loaded := LoadChild(s, cid, cache);
      if !loaded.Ok? {
        return Err(loaded.error), [], p;
      }
      var c';
      r, calls, c' := ForEachNode(s, loaded.value, f);
      p' := Link(cid, Some(c'));
  }

  method ForEachValue(vals: seq<Entry>, f: EntryCallback) returns (reply: Reply, calls: seq<Entry>)
    ensures CallEach(vals, Replies(f)) == Called(calls, reply)
  {
    calls := [];
    for i := 0 to |vals|
      invariant CallEach(vals[..i], Replies(f)) == Called(calls, GoOn)
    {
      TakeSnoc(vals, i);
      CallConcat(vals[..i], [vals[i]], Replies(f));
      CallOne(vals[i], Replies(f));
      calls := calls + [vals[i]];
      if !f(vals[i]) {
        CallConcat(vals[..i + 1], vals[i + 1..], Replies(f));
        assert vals[..i + 1] + vals[i + 1..] == vals;
        return Fail, calls;
      }
    }
    assert vals[..|vals|] == vals;
    reply := GoOn;
  }

  /** The callback sees every entry, and each of them once. */
  lemma {:induction false} ListingIsComplete(cfg: Config, b: Block, at: nat)
    requires cfg.Valid() && BlockInv(cfg, b, at)
    ensures ToSet(Listing(b.ptrs)) == Entries(b) && |Listing(b.ptrs)| == |Entries(b)|
    decreases b, 1, |b.ptrs|
  {
    ListingPrefix(cfg, b, at, |b.ptrs|);
    assert b.ptrs[..|b.ptrs|] == b.ptrs;
    EntriesSize(cfg, b, at);
  }

  lemma {:induction false} ListingPrefix(cfg: Config, b: Block, at: nat, i: nat)
    requires cfg.Valid() && BlockInv(cfg, b, at) && i <= |b.ptrs|
    ensures ToSet(Listing(b.ptrs[..i])) == Gather(b.ptrs[..i])
    ensures |Listing(b.ptrs[..i])| == SumSizes(b.ptrs[..i])
    decreases b, 0, i
  {
    if i == 0 {
    } else {
      ListingPrefix(cfg, b, at, i - 1);
      var p := b.ptrs[i - 1];
      assert b.ptrs[..i] == b.ptrs[..i - 1] + [p];
      GatherStep(b.ptrs[..i - 1], p);
      var j := PointerIsCanonical(cfg, b, at, i - 1);
      SlotListingIsComplete(cfg, p, at, j);
      ListingSnoc(b.ptrs[..i - 1], p);
    }
  }

  lemma ListingSnoc(ps: seq<Stored>, p: Stored)
    ensures Listing(ps + [p]) == Listing(ps) + SlotListing(p)
    ensures ToSet(Listing(ps + [p])) == ToSet(Listing(ps)) + ToSet(SlotListing(p))
    ensures SumSizes(ps + [p]) == SumSizes(ps) + |SlotEntries(p)|
  {
    assert (ps + [p])[..|ps|] == ps;
  }

  lemma {:induction false} SlotListingIsComplete(cfg: Config, p: Stored, at: nat, idx: nat)
    requires cfg.Valid() && cfg.Fits(at) && SlotInv(cfg, p, at, idx)
    ensures ToSet(SlotListing(p)) == SlotEntries(p) && |SlotListing(p)| == |SlotEntries(p)|
    decreases p, 0, 0
  {
    match p
    case Vals(es) => SortedSize(cfg, es);
    case Ln(c) => ListingIsComplete(cfg, c.block, at + cfg.width);
  }

  // ---- flush ----

  /** Serialising a node; a modified child cannot be serialised. */
  function Serialize(n: Node): (b: Option<Block>)
    ensures b == if Clean(n) then Some(Erase(n)) else None
  {
    if exists i :: 0 <= i < |n.pointers| && n.pointers[i].Dirty? then None
    else
      var b := Block(n.bits, seq(|n.pointers|, i requires 0 <= i < |n.pointers| => SerializePtr(n.pointers[i])));
      assert Clean(n) ==> b.ptrs == Erase(n).ptrs;
      Some(b)
  }

  function SerializePtr(p: Pointer): (q: Stored)
    ensures !p.Dirty? ==> q == ErasePtr(p)
  {
    match p
    case Values(es) => Vals(es)
    case Link(c, _) => Ln(c)
    case Dirty(_) => Vals([])
  }

  lemma {:induction false} ResolvableGrows(s: Store, s': Store, b: Block)
    requires s.Keys <= s'.Keys && Resolvable(s, b)
    ensures Resolvable(s', b)
    decreases b
  {
    forall i | 0 <= i < |b.ptrs| && b.ptrs[i].Ln?
      ensures b.ptrs[i].cid in s' && Resolvable(s', b.ptrs[i].cid.block)
    {
      ResolvableGrows(s, s', b.ptrs[i].cid.block);
    }
  }

  lemma {:induction false} NodeResolvableGrows(s: Store, s': Store, n: Node)
    requires s.Keys <= s'.Keys && NodeResolvable(s, n)
    ensures NodeResolvable(s', n)
    decreases n
  {
    forall i | 0 <= i < |n.pointers|
      ensures PtrResolvable(s', n.pointers[i])
    {
      match n.pointers[i]
      case Values(_) =>
      case Link(c, _) => ResolvableGrows(s, s', c.block);
      case Dirty(c) => NodeResolvableGrows(s, s', c);
    }
  }

  lemma BlocksResolvable(s: Store, n: Node)
    requires Clean(n) && NodeResolvable(s, n)
    ensures Resolvable(s, Erase(n))
  {
    forall i | 0 <= i < |n.pointers|
      ensures Erase(n).ptrs[i].Ln? ==> PtrResolvable(s, n.pointers[i]) && n.pointers[i].Link?
    {
      assert !n.pointers[i].Dirty? && Erase(n).ptrs[i] == ErasePtr(n.pointers[i]);
    }
  }

  /** Node::flush: every modified descendant is written and becomes a link with a warm cache. */
  method FlushNode(s: Store, n: Node) returns (s': Store, n': Node)
    requires Coherent(n)
    ensures Erase(n') == Erase(n) && Clean(n') && Coherent(n')
    ensures s.Keys <= s'.Keys
    ensures NodeResolvable(s, n) ==> NodeResolvable(s', n')
    decreases n
  {
    s', n' := s, n;
    for i := 0 to |n.pointers|
      invariant |n'.pointers| == |n.pointers| && Erase(n') == Erase(n) && Coherent(n')
      invariant forall k | 0 <= k < i :: !n'.pointers[k].Dirty?
      invariant forall k | i <= k < |n.pointers| :: n'.pointers[k] == n.pointers[k]
      invariant s.Keys <= s'.Keys
      invariant NodeResolvable(s, n) ==> NodeResolvable(s', n')
    {
      var p := n'.pointers[i];
      if p.Dirty? {
        ghost var before, sBefore := n', s';
        assert n.pointers[i] == p && PtrCoherent(p);
        var child;
        s', child := FlushNode(s', p.node);
        ghost var sFlushed := s';
        var block := Serialize(child);
        var cid := Cid(block.value);
        s' := s'[cid := block.value];
        var q := Link(cid, Some(child));
        if PtrResolvable(sBefore, p) {
          NodeResolvableGrows(sFlushed, s', child);
          BlocksResolvable(s', child);
        }
        n' := n'.(pointers := n'.pointers[i := q]);
        FlushedPointer(sBefore, s', before, n', i, q);
      }
    }
  }

  lemma FlushedPointer(s: Store, s': Store, n: Node, n': Node, i: nat, q: Pointer)
    requires i < |n.pointers| && n' == n.(pointers := n.pointers[i := q])
    requires Coherent(n) && PtrCoherent(q) && ErasePtr(q) == ErasePtr(n.pointers[i]) && s.Keys <= s'.Keys
    requires PtrResolvable(s, n.pointers[i]) ==> PtrResolvable(s', q)
    ensures Erase(n') == Erase(n) && Coherent(n')
    ensures NodeResolvable(s, n) ==> NodeResolvable(s', n')
  {
    ReplacedFrame(s', n, n', i, q);
    PointerKept(n, n', i, q);
    if NodeResolvable(s, n) {
      NodeResolvableGrows(s, s', n);
    }
  }

  // ---- collisions ----

  ghost function Mates(cfg: Config, es: set<Entry>, k: Key, at: nat): set<Entry>
    requires cfg.width >= 1
  {
    set e | e in es && Agree(cfg, k, e.key, at)
  }

  lemma MatesInSlot(cfg: Config, b: Block, at: nat, k: Key)
    requires cfg.Valid() && BlockInv(cfg, b, at) && cfg.Fits(at) && Mates(cfg, Entries(b), k, at) != {}
    ensures cfg.Slot(k, at) < 256 && b.bits.on[cfg.Slot(k, at)]
    ensures Mates(cfg, Entries(b), k, at) <= SlotEntries(At(b.bits, b.ptrs, cfg.Slot(k, at)))
  {
    LocateAll(cfg, b, at);
    cfg.SlotBound(k, at);
    assert Mates(cfg, Entries(b), k, at) <= EntriesAt(b, cfg.Slot(k, at));
  }

  /** No canonical tree holds four keys that agree on every chunk. */
  lemma {:induction false} NoFourWayCollision(cfg: Config, b: Block, at: nat, k: Key)
    requires cfg.Valid() && BlockInv(cfg, b, at)
    ensures |Mates(cfg, Entries(b), k, at)| <= MAX_ARRAY_WIDTH
    decreases b
  {
    var mates := Mates(cfg, Entries(b), k, at);
    if mates == {} {
    } else {
      assert b.ptrs != [];
      MatesInSlot(cfg, b, at, k);
      var p := At(b.bits, b.ptrs, cfg.Slot(k, at));
      match p
      case Vals(es) =>
        BucketSize(es);
        SubsetSize(mates, ToSet(es));
      case Ln(c) =>
        NoFourWayCollision(cfg, c.block, at + cfg.width, k);
        SubsetSize(mates, Mates(cfg, Entries(c.block), k, at + cfg.width));
    }
  }

  // ---- the map ----

  /** The map a set of entries spells. */
  ghost function AsMap(es: set<Entry>): (m: map<Key, Value>)
    requires UniqueKeys(es)
    ensures forall e: Entry :: e in es <==> e.key in m && m[e.key] == e.value
  {
    map e | e in es :: e.key := e.value
  }

  lemma PutIsUpdate(es: set<Entry>, k: Key, v: Value, overwrite: bool)
    requires UniqueKeys(es)
    ensures UniqueKeys(Put(es, k, v, overwrite))
    ensures HasKey(es, k) <==> k in AsMap(es)
    ensures AsMap(Put(es, k, v, overwrite)) ==
            if overwrite || k !in AsMap(es) then AsMap(es)[k := v] else AsMap(es)
  {
    var m := AsMap(es);
    assert k in m ==> Entry(k, m[k]) in es;
    var es' := Put(es, k, v, overwrite);
    var m' := AsMap(es');
    forall x: Key
      ensures x in m' <==> x in m || x == k
    {
      assert x in m' ==> Entry(x, m'[x]) in es';
      assert x in m && x != k ==> Entry(x, m[x]) in es';
      assert HasKey(es', k);
    }
    forall x: Key | x in m'
      ensures m'[x] == if x == k && (overwrite || k !in m) then v else m[x]
    {
      assert Entry(x, m'[x]) in es';
    }
  }

  lemma WithoutIsRemove(es: set<Entry>, k: Key)
    requires UniqueKeys(es)
    ensures UniqueKeys(Without(es, k))
    ensures HasKey(es, k) <==> k in AsMap(es)
    ensures AsMap(Without(es, k)) == AsMap(es) - {k}
  {
    var m, m' := AsMap(es), AsMap(Without(es, k));
    assert k in m ==> Entry(k, m[k]) in es;
    forall x: Key
      ensures x in m' <==> x in m && x != k
      ensures x in m' ==> m'[x] == m[x]
    {
      assert x in m' ==> Entry(x, m'[x]) in Without(es, k);
      assert x in m && x != k ==> Entry(x, m[x]) in Without(es, k);
    }
  }

  lemma SameMapSameEntries(es: set<Entry>, fs: set<Entry>)
    requires UniqueKeys(es) && UniqueKeys(fs) && AsMap(es) == AsMap(fs)
    ensures es == fs
  {
    assert forall e: Entry :: e in es <==> e in fs;
  }

  /** Contents and CID determine each other. */
  lemma CidDependsOnContentsOnly(cfg: Config, b: Block, c: Block)
    requires cfg.Valid() && BlockInv(cfg, b, 0) && BlockInv(cfg, c, 0)
    requires UniqueKeys(Entries(b)) && UniqueKeys(Entries(c))
    ensures AsMap(Entries(b)) == AsMap(Entries(c)) <==> Cid(b) == Cid(c)
  {
    if AsMap(Entries(b)) == AsMap(Entries(c)) {
      SameMapSameEntries(Entries(b), Entries(c));
      CanonicalIsUnique(cfg, b, c, 0);
    }
  }
}
