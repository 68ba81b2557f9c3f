/** Deletion from a HAMT node: `rm_value`, and `clean`, which restores canonical form. */
module HamtDelete {
  import opened Common
  import opened Bitfields
  import HashBitReader
  import opened HamtModel
  import opened HamtSeen
  import opened HamtSet

  /** The entries whose keys start with the same chunk as `key`. */
  ghost function Sharing(cfg: Config, es: set<Entry>, key: Key): set<Entry>
    requires cfg.Valid()
  {
    set e | e in es && cfg.Slot(e.key, 0) == cfg.Slot(key, 0)
  }

  /** In a map just loaded or flushed, a path crosses a link exactly if more than three keys share its first chunk. */
  lemma CleanCrosses(cfg: Config, n: Node, key: Key)
    requires cfg.Valid() && BlockInv(cfg, Erase(n), 0) && Clean(n)
    ensures CrossesLink(cfg, n, 0, key) <==> |Sharing(cfg, Entries(Erase(n)), key)| > MAX_ARRAY_WIDTH
  {
    var b, j := Erase(n), cfg.Slot(key, 0);
    LocateAll(cfg, b, 0);
    cfg.SlotBound(key, 0);
    assert Sharing(cfg, Entries(b), key) == EntriesAt(b, j) by {
      SharingIsSlot(cfg, b, key);
    }
    if b.bits.on[j] {
      EraseAt(n, j);
      RankBelowSize(n.bits, j);
      var p := At(n.bits, n.pointers, j);
      assert SlotInv(cfg, ErasePtr(p), 0, j);
      if p.Values? {
        BucketSize(p.entries);
      }
    }
  }

  lemma SharingIsSlot(cfg: Config, b: Block, key: Key)
    requires cfg.Valid() && BlockInv(cfg, b, 0)
    ensures cfg.Slot(key, 0) < 256 && Sharing(cfg, Entries(b), key) == EntriesAt(b, cfg.Slot(key, 0))
  {
    var j := cfg.Slot(key, 0);
    LocateAll(cfg, b, 0);
    cfg.SlotBound(key, 0);
    forall e | e in EntriesAt(b, j)
      ensures e in Sharing(cfg, Entries(b), key)
    {
      assert SlotInv(cfg, At(b.bits, b.ptrs, j), 0, j);
    }
  }

  // ---- counting entries pointer by pointer ----

  ghost function Gather(ps: seq<Stored>): set<Entry> {
    set i, e | 0 <= i < |ps| && e in SlotEntries(ps[i]) :: e
  }

  ghost function SumSizes(ps: seq<Stored>): nat {
    if ps == [] then 0 else SumSizes(ps[..|ps| - 1]) + |SlotEntries(ps[|ps| - 1])|
  }

  lemma GatherStep(ps: seq<Stored>, p: Stored)
    ensures Gather(ps + [p]) == Gather(ps) + SlotEntries(p)
  {
    forall e: Entry
      ensures e in Gather(ps + [p]) <==> e in Gather(ps) + SlotEntries(p)
    {
      if e in Gather(ps) {
        var i :| 0 <= i < |ps| && e in SlotEntries(ps[i]);
        assert (ps + [p])[i] == ps[i];
      }
      if e in SlotEntries(p) {
        assert (ps + [p])[|ps|] == p;
      }
    }
  }

  /** Entries below different pointers differ in the slot their keys select. */
  lemma PointersDisjoint(cfg: Config, b: Block, at: nat, i: nat, j: nat)
    requires cfg.Valid() && BlockInv(cfg, b, at) && i < j < |b.ptrs|
    ensures SlotEntries(b.ptrs[i]) !! SlotEntries(b.ptrs[j])
  {
    assert b.bits.on[..256] == b.bits.on;
    var bi := Select(b.bits, i, 256);
    var bj := Select(b.bits, j, 256);
    assert At(b.bits, b.ptrs, bi) == b.ptrs[i] && At(b.bits, b.ptrs, bj) == b.ptrs[j];
  }

  lemma PointerIsCanonical(cfg: Config, b: Block, at: nat, i: nat) returns (j: nat)
    requires BlockInv(cfg, b, at) && i < |b.ptrs|
    ensures j < 256 && cfg.Fits(at) && SlotInv(cfg, b.ptrs[i], at, j)
  {
    assert b.bits.on[..256] == b.bits.on;
    j := Select(b.bits, i, 256);
    assert At(b.bits, b.ptrs, j) == b.ptrs[i];
  }

  lemma BucketOf(cfg: Config, b: Block, at: nat, i: nat)
    requires cfg.Valid() && BlockInv(cfg, b, at) && i < |b.ptrs| && b.ptrs[i].Vals?
    ensures var es := b.ptrs[i].entries; Sorted(cfg, es) && 1 <= |es| == |ToSet(es)| <= MAX_ARRAY_WIDTH
  {
    var j := PointerIsCanonical(cfg, b, at, i);
    SortedSize(cfg, b.ptrs[i].entries);
  }

  lemma GatherDisjoint(ps: seq<Stored>, p: Stored)
    requires forall k | 0 <= k < |ps| :: SlotEntries(ps[k]) !! SlotEntries(p)
    ensures |Gather(ps + [p])| == |Gather(ps)| + |SlotEntries(p)|
  {
    GatherStep(ps, p);
    assert Gather(ps) !! SlotEntries(p);
  }

  lemma PointerHolds(cfg: Config, b: Block, at: nat, i: nat)
    requires cfg.Valid() && BlockInv(cfg, b, at) && i < |b.ptrs|
    ensures |SlotEntries(b.ptrs[i])| >= 1
  {
    var j := PointerIsCanonical(cfg, b, at, i);
    var e := SomeEntry(cfg, b.ptrs[i], at, j);
    SubsetSize({e}, SlotEntries(b.ptrs[i]));
  }

  lemma {:induction false} GatherSize(cfg: Config, b: Block, at: nat, i: nat)
    requires cfg.Valid() && BlockInv(cfg, b, at) && i <= |b.ptrs|
    ensures |Gather(b.ptrs[..i])| == SumSizes(b.ptrs[..i]) >= i
  {
    if i == 0 {
    } else {
      var k := i - 1;
      var ps, p := b.ptrs[..k], b.ptrs[k];
      GatherSize(cfg, b, at, k);
      TakeSnoc(b.ptrs, k);
      assert (ps + [p])[..k] == ps;
      forall l | 0 <= l < |ps|
        ensures SlotEntries(ps[l]) !! SlotEntries(p)
      {
        PointersDisjoint(cfg, b, at, l, k);
      }
      GatherDisjoint(ps, p);
      PointerHolds(cfg, b, at, k);
    }
  }

  /** A canonical node holds as many entries as its pointers do together, at least one each. */
  lemma EntriesSize(cfg: Config, b: Block, at: nat)
    requires cfg.Valid() && BlockInv(cfg, b, at)
    ensures |Entries(b)| == SumSizes(b.ptrs) >= |b.ptrs|
    ensures Entries(b) == Gather(b.ptrs)
  {
    assert Entries(b) == Gather(b.ptrs);
    assert b.ptrs[..|b.ptrs|] == b.ptrs;
    GatherSize(cfg, b, at, |b.ptrs|);
  }

  // ---- clean ----

  /** Entries of a run of buckets, in pointer order. */
  function Flatten(ps: seq<Pointer>): seq<Entry> {
    if ps == [] then []
    else Flatten(ps[..|ps| - 1]) + (if ps[|ps| - 1].Values? then ps[|ps| - 1].entries else [])
  }

  /** Without sub-nodes, flattening collects every entry exactly once. */
  lemma {:induction false} FlattenCollects(cfg: Config, n: Node, at: nat, i: nat)
    requires cfg.Valid() && BlockInv(cfg, Erase(n), at) && i <= |n.pointers|
    requires forall k | 0 <= k < i :: n.pointers[k].Values?
    ensures ToSet(Flatten(n.pointers[..i])) == Gather(Erase(n).ptrs[..i])
    ensures |Flatten(n.pointers[..i])| == SumSizes(Erase(n).ptrs[..i])
  {
    if i == 0 {
    } else {
      FlattenCollects(cfg, n, at, i - 1);
      var b := Erase(n);
      assert n.pointers[..i][..i - 1] == n.pointers[..i - 1];
      assert b.ptrs[..i] == b.ptrs[..i - 1] + [b.ptrs[i - 1]];
      GatherStep(b.ptrs[..i - 1], b.ptrs[i - 1]);
      var es := n.pointers[i - 1].entries;
      assert b.ptrs[i - 1] == Vals(es);
      BucketOf(cfg, b, at, i - 1);
      var f := Flatten(n.pointers[..i - 1]);
      assert Flatten(n.pointers[..i]) == f + es;
      assert ToSet(f + es) == ToSet(f) + ToSet(es);
      assert SumSizes(b.ptrs[..i]) == SumSizes(b.ptrs[..i - 1]) + |ToSet(es)| by {
        assert b.ptrs[..i][..i - 1] == b.ptrs[..i - 1];
      }
    }
  }

  lemma {:induction false} NoDuplicates(es: seq<Entry>)
    requires |ToSet(es)| == |es|
    ensures forall i, j | 0 <= i < j < |es| :: es[i] != es[j]
  {
    if es == [] {
    } else {
      var n := |es| - 1;
      assert es == es[..n] + [es[n]];
      assert ToSet(es) == ToSet(es[..n]) + {es[n]};
      BucketSize(es[..n]);
      NoDuplicates(es[..n]);
    }
  }

  lemma FlattenDistinct(cfg: Config, n: Node, at: nat)
    requires cfg.Valid() && BlockInv(cfg, Erase(n), at)
    requires forall k | 0 <= k < |n.pointers| :: n.pointers[k].Values?
    ensures ToSet(Flatten(n.pointers)) == Entries(Erase(n))
    ensures |Flatten(n.pointers)| == |Entries(Erase(n))|
    ensures forall i, j | 0 <= i < j < |Flatten(n.pointers)| :: Flatten(n.pointers)[i].key != Flatten(n.pointers)[j].key
  {
    FlattenCollects(cfg, n, at, |n.pointers|);
    assert n.pointers[..|n.pointers|] == n.pointers;
    assert Erase(n).ptrs[..|n.pointers|] == Erase(n).ptrs;
    EntriesSize(cfg, Erase(n), at);
    var es := Flatten(n.pointers);
    NoDuplicates(es);
    KeysAreUnique(cfg, Erase(n), at);
    assert forall i | 0 <= i < |es| :: es[i] in ToSet(es);
  }

  /** `sort_unstable_by` on keys: the sorted arrangement of the same entries. */
  method SortEntries(cfg: Config, es: seq<Entry>) returns (fs: seq<Entry>)
    requires cfg.Valid()
    requires forall i, j | 0 <= i < j < |es| :: es[i].key != es[j].key
    ensures Sorted(cfg, fs) && |fs| == |es| && ToSet(fs) == ToSet(es)
  {
    fs := [];
    for i := 0 to |es|
      invariant Sorted(cfg, fs) && |fs| == i && ToSet(fs) == ToSet(es[..i])
    {
      assert forall x | x in fs :: x in ToSet(es[..i]);
      fs := InsertSorted(cfg, fs, es[i]);
      assert es[..i + 1] == es[..i] + [es[i]];
    }
    assert es[..|es|] == es;
  }

  lemma SubNodeIsLarge(cfg: Config, n: Node, at: nat, i: nat)
    requires cfg.Valid() && BlockInv(cfg, Erase(n), at) && i < |n.pointers| && !n.pointers[i].Values?
    ensures |Entries(Erase(n))| > MAX_ARRAY_WIDTH
  {
    var j := PointerIsCanonical(cfg, Erase(n), at, i);
    SubsetSize(SlotEntries(Erase(n).ptrs[i]), Entries(Erase(n)));
  }

  /** The last arm of `clean`: sum the bucket lengths, giving up at the first sub-node. */
  method ChildrenLen(cfg: Config, n: Node, ghost at: nat) returns (len: Option<nat>)
    requires cfg.Valid() && BlockInv(cfg, Erase(n), at)
    ensures len.Some? <==> forall k | 0 <= k < |n.pointers| :: n.pointers[k].Values?
    ensures len.Some? ==> len.value == |Flatten(n.pointers)|
    ensures len.None? ==> |Entries(Erase(n))| > MAX_ARRAY_WIDTH
  {
    var sum := 0;
    for i := 0 to |n.pointers|
      invariant forall k | 0 <= k < i :: n.pointers[k].Values?
      invariant sum == |Flatten(n.pointers[..i])|
    {
      if !n.pointers[i].Values? {
        SubNodeIsLarge(cfg, n, at, i);
        return None;
      }
      assert n.pointers[..i + 1][..i] == n.pointers[..i];
      sum := sum + |n.pointers[i].entries|;
    }
    assert n.pointers[..|n.pointers|] == n.pointers;
    len := Some(sum);
  }

  /** The arms of `clean`: a node collapses to a sorted bucket exactly when at most three entries are left. */
  method Collapse(cfg: Config, n: Node, ghost at: nat) returns (r: Result<Option<seq<Entry>>>)
    requires cfg.Valid() && BlockInv(cfg, Erase(n), at)
    ensures !r.Ok? ==> r == Err(ZeroPointers) && Entries(Erase(n)) == {}
    ensures r.Ok? ==> (r.value.None? <==> |Entries(Erase(n))| > MAX_ARRAY_WIDTH)
    ensures r.Ok? && r.value.Some? ==> Sorted(cfg, r.value.value) && ToSet(r.value.value) == Entries(Erase(n))
    ensures r.Ok? && r.value.Some? ==> 1 <= |r.value.value| <= MAX_ARRAY_WIDTH
  {
    EntriesSize(cfg, Erase(n), at);
    if |n.pointers| == 0 {
      return Err(ZeroPointers);
    }
    if |n.pointers| == 1 {
      assert n.pointers == [n.pointers[0]];
      if n.pointers[0].Values? {
        FlattenDistinct(cfg, n, at);
        BucketOf(cfg, Erase(n), at, 0);
        assert Flatten(n.pointers) == n.pointers[0].entries;
        return Ok(Some(n.pointers[0].entries));
      }
      SubNodeIsLarge(cfg, n, at, 0);
      return Ok(None);
    }
    if |n.pointers| > MAX_ARRAY_WIDTH {
      return Ok(None);
    }
    var len := ChildrenLen(cfg, n, at);
    if len.None? {
      return Ok(None);
    }
    FlattenDistinct(cfg, n, at);
    if len.value > MAX_ARRAY_WIDTH {
      return Ok(None);
    }
    var sorted := SortEntries(cfg, Flatten(n.pointers));
    r := Ok(Some(sorted));
  }

  /** A modified child under slot `idx` with at most one entry too few. */
  ghost predicate Cleanable(cfg: Config, n: Node, at: nat, idx: nat)
    requires cfg.Fits(at)
  {
    && Coherent(n) && BlockInv(cfg, Erase(n), at + cfg.width) && |Entries(Erase(n))| >= MAX_ARRAY_WIDTH
    && forall e | e in Entries(Erase(n)) :: cfg.Slot(e.key, at) == idx
  }

  /**
   Pointer::clean on a modified child that has just lost at most one entry: the child collapses
   to canonical form and never has zero pointers; on any other pointer it hits `unreachable!`.
   */
  method CleanPointer(cfg: Config, ghost s: Store, p: Pointer, ghost at: nat, ghost idx: nat)
    returns (r: Result<()>, p': Pointer)
    requires cfg.Valid() && cfg.Fits(at)
    requires p.Dirty? ==> Cleanable(cfg, p.node, at, idx)
    ensures r == if p.Dirty? then Ok(()) else Panic
    ensures p.Dirty? ==> PtrCoherent(p') && SlotInv(cfg, ErasePtr(p'), at, idx)
    ensures p.Dirty? ==> SlotEntries(ErasePtr(p')) == Entries(Erase(p.node))
    ensures p.Dirty? && PtrResolvable(s, p) ==> PtrResolvable(s, p')
  {
    if !p.Dirty? {
      return Panic, p;
    }
    r, p' := CleanNode(cfg, s, p.node, at, idx);
  }

  method CleanNode(cfg: Config, ghost s: Store, n: Node, ghost at: nat, ghost idx: nat)
    returns (r: Result<()>, p: Pointer)
    requires cfg.Valid() && cfg.Fits(at) && Cleanable(cfg, n, at, idx)
    ensures r == Ok(()) && PtrCoherent(p) && SlotInv(cfg, ErasePtr(p), at, idx)
    ensures SlotEntries(ErasePtr(p)) == Entries(Erase(n))
    ensures NodeResolvable(s, n) ==> PtrResolvable(s, p)
  {
    p := Dirty(n);
    ghost var b, next := Erase(n), at + cfg.width;
    assert BlockInv(cfg, b, next);
    var collapsed := Collapse(cfg, n, next);
    match collapsed {
      case Err(e) => r := Err(e);
      case Panic => r := Panic;
      case Ok(None) =>
        r := Ok(());
        CanonicalLink(cfg, b, at, next, idx);
      case Ok(Some(vals)) =>
        r, p := Ok(()), Values(vals);
        assert SlotEntries(Vals(vals)) == Entries(b);
    }
  }

  // ---- rm_value ----

  /** Dropping an emptied slot keeps the node canonical. */
  lemma PointerRemoved(cfg: Config, b: Block, b': Block, at: nat, idx: nat)
    requires cfg.Valid() && cfg.Fits(at) && BlockInv(cfg, b, at)
    requires idx < 256 && b.bits.on[idx] && b'.bits.on == b.bits.on[idx := false]
    requires var i := Rank(b.bits, idx); i < |b.ptrs| && b'.ptrs == b.ptrs[..i] + b.ptrs[i + 1..]
    ensures BlockInv(cfg, b', at)
    ensures var part := SlotEntries(b.ptrs[Rank(b.bits, idx)]);
            && part <= Entries(b)
            && (forall e | e in Entries(b) && cfg.Slot(e.key, at) == idx :: e in part)
            && Entries(b') == Entries(b) - part
  {
    RemoveKeepsRank(b.bits, b'.bits, b.ptrs, b'.ptrs, idx);
    assert BlockInv(cfg, b', at);
    SlotUpdate(cfg, b, b', at, idx);
  }

  /** Writes a child back, or drops its slot (rm_child) when nothing is left. */
  method StoreChild(cfg: Config, ghost s: Store, n: Node, i: nat, idx: nat, ghost at: nat, q: Option<Pointer>)
    returns (n': Node)
    requires cfg.Valid() && cfg.Fits(at) && BlockInv(cfg, Erase(n), at) && Coherent(n)
    requires idx < 256 && n.bits.on[idx] && i == Rank(n.bits, idx) < |n.pointers|
    requires q.Some? ==> PtrCoherent(q.value) && SlotInv(cfg, ErasePtr(q.value), at, idx)
    ensures BlockInv(cfg, Erase(n'), at) && Coherent(n')
    ensures NodeResolvable(s, n) && (q.Some? ==> PtrResolvable(s, q.value)) ==> NodeResolvable(s, n')
    ensures var part := SlotEntries(ErasePtr(n.pointers[i]));
            && part <= Entries(Erase(n))
            && (forall e | e in Entries(Erase(n)) && cfg.Slot(e.key, at) == idx :: e in part)
            && Entries(Erase(n')) == Entries(Erase(n)) - part + LeftIn(q)
  {
    if q.Some? {
      n' := n.(pointers := n.pointers[i := q.value]);
      ReplacedFrame(s, n, n', i, q.value);
      PointerReplaced(cfg, n, n', at, idx, q.value);
    } else {
      n' := RmSlot(cfg, s, n, i, idx, at);
    }
  }

  /** rm_child: an emptied slot goes. */
  method RmSlot(cfg: Config, ghost s: Store, n: Node, i: nat, idx: nat, ghost at: nat) returns (n': Node)
    requires cfg.Valid() && cfg.Fits(at) && BlockInv(cfg, Erase(n), at) && Coherent(n)
    requires idx < 256 && n.bits.on[idx] && i == Rank(n.bits, idx) < |n.pointers|
    ensures BlockInv(cfg, Erase(n'), at) && Coherent(n')
    ensures NodeResolvable(s, n) ==> NodeResolvable(s, n')
    ensures var part := SlotEntries(ErasePtr(n.pointers[i]));
            && part <= Entries(Erase(n))
            && (forall e | e in Entries(Erase(n)) && cfg.Slot(e.key, at) == idx :: e in part)
            && Entries(Erase(n')) == Entries(Erase(n)) - part
  {
    n' := Node(n.bits.ClearBit(idx), n.pointers[..i] + n.pointers[i + 1..]);
    assert Erase(n').ptrs == Erase(n).ptrs[..i] + Erase(n).ptrs[i + 1..];
    assert Erase(n).ptrs[i] == ErasePtr(n.pointers[i]);
    PointerRemoved(cfg, Erase(n), Erase(n'), at, idx);
  }

  ghost function LeftIn(q: Option<Pointer>): set<Entry> {
    if q.Some? then SlotEntries(ErasePtr(q.value)) else {}
  }

  /** What deleting `k` from `es` returns. */
  ghost predicate Deleted(out: Option<Entry>, es: set<Entry>, k: Key) {
    if HasKey(es, k) then out.Some? && out.value.key == k && out.value in es else out == None
  }

  /** Node::rm_value. Deleting through a child pointer is RmPointer. */
  method RmValue(cfg: Config, s: Store, n: Node, hb: HashBitReader.HashBits, key: Key)
    returns (r: Result<Option<Entry>>, n': Node)
    requires cfg.Valid() && cfg.Fits(hb.consumed) && hb.b == cfg.hash(key)
    requires Coherent(n) && BlockInv(cfg, Erase(n), hb.consumed)
    ensures r.Ok? ==> Coherent(n') && BlockInv(cfg, Erase(n'), hb.consumed)
    ensures r.Ok? ==> Entries(Erase(n')) == Without(Entries(Erase(n)), key) && Deleted(r.value, Entries(Erase(n)), key)
    ensures r.Ok? && NodeResolvable(s, n) ==> NodeResolvable(s, n')
    ensures r.Err? ==> r.error.CidNotFound? && !NodeResolvable(s, n)
    ensures r.Panic? ==> !HasKey(Entries(Erase(n)), key) && CrossesLink(cfg, n, hb.consumed, key)
    ensures r.Ok? ==> HasKey(Entries(Erase(n)), key) || !CrossesLink(cfg, n, hb.consumed, key)
    decreases 256 - hb.consumed, 0
  {
    n' := n;
    ghost var at, b := hb.consumed, Erase(n);
    var next, hb' := HashBitReader.Next(hb, cfg.width);
    var idx := next.bits;
    cfg.SlotBound(key, at);
    if !n.bits.TestBit(idx) {
      AbsentSlot(cfg, b, at, key);
      return Ok(None), n;
    }
    r, n' := RmChild(cfg, s, n, at, idx, hb', key);
  }

  /** Deletes in the occupied slot the key selects. */
  method RmChild(cfg: Config, s: Store, n: Node, ghost at: nat, idx: nat, hb: HashBitReader.HashBits, key: Key)
    returns (r: Result<Option<Entry>>, n': Node)
    requires cfg.Valid() && cfg.Fits(at) && hb.b == cfg.hash(key) && hb.consumed == at + cfg.width
    requires Coherent(n) && BlockInv(cfg, Erase(n), at) && idx == cfg.Slot(key, at) < 256 && n.bits.on[idx]
    ensures r.Ok? ==> Coherent(n') && BlockInv(cfg, Erase(n'), at)
    ensures r.Ok? ==> Entries(Erase(n')) == Without(Entries(Erase(n)), key) && Deleted(r.value, Entries(Erase(n)), key)
    ensures r.Ok? && NodeResolvable(s, n) ==> NodeResolvable(s, n')
    ensures r.Err? ==> r.error.CidNotFound? && !NodeResolvable(s, n)
    ensures r.Panic? ==> !HasKey(Entries(Erase(n)), key) && CrossesLink(cfg, n, at, key)
    ensures r.Ok? ==> HasKey(Entries(Erase(n)), key) || !CrossesLink(cfg, n, at, key)
    decreases 256 - hb.consumed, 2
  {
    ghost var es, crosses := Entries(Erase(n)), CrossesLink(cfg, n, at, key);
    var cindex := ChildIndex(cfg, n, at, idx);
    var child := n.pointers[cindex];
    CrossesHere(cfg, n, at, key);
    var left;
    r, left := RmPointer(cfg, s, child, at, idx, hb, key);
    assert PointerCrosses(cfg, child, hb.consumed, key) == crosses;
    n' := StoreChild(cfg, s, n, cindex, idx, at, if r.Ok? then left else Some(child));
    WithoutLifts(es, SlotEntries(ErasePtr(child)), key);
  }

  lemma CrossesHere(cfg: Config, n: Node, at: nat, k: Key)
    requires cfg.Fits(at) && cfg.Slot(k, at) < 256 && n.bits.on[cfg.Slot(k, at)] && |n.pointers| == Size(n.bits)
    ensures CrossesLink(cfg, n, at, k) ==
            PointerCrosses(cfg, At(n.bits, n.pointers, cfg.Slot(k, at)), at + cfg.width, k)
  {
  }

  lemma AbsentSlot(cfg: Config, b: Block, at: nat, k: Key)
    requires cfg.Valid() && cfg.Fits(at) && BlockInv(cfg, b, at)
    requires cfg.Slot(k, at) < 256 && !b.bits.on[cfg.Slot(k, at)]
    ensures !HasKey(Entries(b), k) && Without(Entries(b), k) == Entries(b)
  {
    LocateAll(cfg, b, at);
  }

  /** The three arms of rm_value's match; `None` when the bucket's last entry goes. */
  method RmPointer(cfg: Config, s: Store, p: Pointer, ghost at: nat, ghost idx: nat, hb: HashBitReader.HashBits, key: Key)
    returns (r: Result<Option<Entry>>, q: Option<Pointer>)
    requires cfg.Valid() && cfg.Fits(at) && hb.b == cfg.hash(key) && hb.consumed == at + cfg.width
    requires idx == cfg.Slot(key, at) && PtrCoherent(p) && SlotInv(cfg, ErasePtr(p), at, idx)
    ensures r.Ok? && q.Some? ==> PtrCoherent(q.value) && SlotInv(cfg, ErasePtr(q.value), at, idx)
    ensures r.Ok? ==> LeftIn(q) == Without(SlotEntries(ErasePtr(p)), key)
    ensures r.Ok? ==> Deleted(r.value, SlotEntries(ErasePtr(p)), key)
    ensures r.Ok? && q.Some? && PtrResolvable(s, p) ==> PtrResolvable(s, q.value)
    ensures r.Err? ==> r.error.CidNotFound? && !PtrResolvable(s, p)
    ensures r.Panic? ==> !HasKey(SlotEntries(ErasePtr(p)), key) && PointerCrosses(cfg, p, hb.consumed, key)
    ensures r.Ok? ==> HasKey(SlotEntries(ErasePtr(p)), key) || !PointerCrosses(cfg, p, hb.consumed, key)
    decreases 256 - hb.consumed, 1
  {
    q := Some(p);
    match p
    case Link(cid, cache) =>
      var loaded := LoadChild(s, cid, cache);
      if !loaded.Ok? {
        return Err(loaded.error), q;
      }
      SubNodeFits(cfg, cid.block, at, idx);
      var child';
      r, child' := RmValue(cfg, s, loaded.value, hb, key);
      if r.Ok? {
        SubNodeShrank(cfg, cid.block, Erase(child'), at, idx, key);
        r, q := Cleaned(cfg, s, if r.value.Some? then Dirty(child') else Link(cid, Some(child')), at, idx, r.value);
      }
    case Dirty(child) =>
      SubNodeFits(cfg, Erase(child), at, idx);
      var child';
      r, child' := RmValue(cfg, s, child, hb, key);
      if r.Ok? {
        SubNodeShrank(cfg, Erase(child), Erase(child'), at, idx, key);
        r, q := Cleaned(cfg, s, Dirty(child'), at, idx, r.value);
      }
    case Values(vals) =>
      r, q := RmFromBucket(cfg, vals, at, idx, key);
  }

  /** `child.clean()?; Ok(deleted)`. */
  method Cleaned(cfg: Config, ghost s: Store, p: Pointer, ghost at: nat, ghost idx: nat, deleted: Option<Entry>)
    returns (r: Result<Option<Entry>>, q: Option<Pointer>)
    requires cfg.Valid() && cfg.Fits(at)
    requires p.Dirty? ==> Cleanable(cfg, p.node, at, idx)
    ensures r == if p.Dirty? then Ok(deleted) else Panic
    ensures p.Dirty? ==> q.Some? && PtrCoherent(q.value) && SlotInv(cfg, ErasePtr(q.value), at, idx)
    ensures p.Dirty? ==> LeftIn(q) == Entries(Erase(p.node))
    ensures p.Dirty? && PtrResolvable(s, p) ==> PtrResolvable(s, q.value)
  {
    var cleaned, p' := CleanPointer(cfg, s, p, at, idx);
    q := Some(p');
    match cleaned {
      case Ok(_) => r := Ok(deleted);
      case Err(e) => r := Err(e);
      case Panic => r := Panic;
    }
  }

  /** The Values arm: the last entry takes its slot with it, any other leaves a shorter bucket. */
  method RmFromBucket(cfg: Config, vals: seq<Entry>, ghost at: nat, ghost idx: nat, key: Key)
    returns (r: Result<Option<Entry>>, q: Option<Pointer>)
    requires cfg.Valid() && cfg.Fits(at) && SlotInv(cfg, Vals(vals), at, idx)
    ensures r.Ok? && Deleted(r.value, ToSet(vals), key) && LeftIn(q) == Without(ToSet(vals), key)
    ensures q.Some? ==> q.value.Values? && SlotInv(cfg, ErasePtr(q.value), at, idx)
  {
    var i := Position(vals, key);
    if i == |vals| {
      assert Without(ToSet(vals), key) == ToSet(vals);
      return Ok(None), Some(Values(vals));
    }
    assert vals[i] in ToSet(vals);
    r := Ok(Some(vals[i]));
    RemoveFromBucket(cfg, vals, i);
    q := if |vals| == 1 then None else Some(Values(vals[..i] + vals[i + 1..]));
  }

  lemma SubNodeFits(cfg: Config, b: Block, at: nat, idx: nat)
    requires cfg.Fits(at) && SlotInv(cfg, Ln(Cid(b)), at, idx)
    ensures cfg.Fits(at + cfg.width)
  {
    assert b.ptrs == [] ==> Entries(b) == {};
  }

  lemma SubNodeShrank(cfg: Config, b: Block, b': Block, at: nat, idx: nat, k: Key)
    requires cfg.Valid() && cfg.Fits(at) && SlotInv(cfg, Ln(Cid(b)), at, idx)
    requires Entries(b') == Without(Entries(b), k)
    ensures |Entries(b')| >= MAX_ARRAY_WIDTH
    ensures forall e | e in Entries(b') :: cfg.Slot(e.key, at) == idx
  {
    KeysAreUnique(cfg, b, at + cfg.width);
    WithoutSize(Entries(b), k);
  }

  lemma RemoveFromBucket(cfg: Config, vals: seq<Entry>, i: nat)
    requires cfg.Valid() && Sorted(cfg, vals) && i < |vals|
    ensures var vals' := vals[..i] + vals[i + 1..];
            Sorted(cfg, vals') && ToSet(vals') == Without(ToSet(vals), vals[i].key)
  {
    var vals' := vals[..i] + vals[i + 1..];
    assert vals == vals[..i] + [vals[i]] + vals[i + 1..];
    assert forall j | 0 <= j < |vals| && j != i :: vals[j].key != vals[i].key;
    assert forall e | e in vals' :: e.key != vals[i].key;
  }
}
