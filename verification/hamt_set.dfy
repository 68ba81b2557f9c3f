/** Insertion into a HAMT node: `modify_value` with bucket insertion, bucket split and dirty links. */
module HamtSet {
  import opened Common
  import opened Bitfields
  import HashBitReader
  import opened HamtModel
  import opened HamtSeen

  datatype Error = InvalidHashBitLen | MaxDepth | CidNotFound(cid: Cid) | ZeroPointers | CallbackFailed
  datatype Result<+T> = Ok(value: T) | Err(error: Error) | Panic

  /** The pair `(Option<V>, bool)`: the replaced value and whether the node was modified. */
  datatype SetOutcome = SetOutcome(previous: Option<Value>, modified: bool)

  /** What putting `k := v` into `es` reports. */
  ghost predicate Reports(out: SetOutcome, es: set<Entry>, k: Key, v: Value, overwrite: bool) {
    && (out.previous.Some? <==> overwrite && HasKey(es, k))
    && (out.previous.Some? ==> Entry(k, out.previous.value) in es)
    && (out.modified <==> !(if overwrite then Entry(k, v) in es else HasKey(es, k)))
  }

  // ---- key collisions ----

  /** The two keys take the same slot at every depth from `at` bits on. */
  ghost predicate Agree(cfg: Config, a: Key, b: Key, at: nat)
    requires cfg.width >= 1
    decreases 256 - at
  {
    cfg.Fits(at) ==> cfg.Slot(a, at) == cfg.Slot(b, at) && Agree(cfg, a, b, at + cfg.width)
  }

  lemma {:induction false} AgreeTransitive(cfg: Config, a: Key, b: Key, c: Key, at: nat)
    requires cfg.width >= 1 && Agree(cfg, a, b, at) && Agree(cfg, a, c, at)
    ensures Agree(cfg, b, c, at) && Agree(cfg, b, a, at)
    decreases 256 - at
  {
    if !cfg.Fits(at) {
    } else {
      AgreeTransitive(cfg, a, b, c, at + cfg.width);
    }
  }

  /** The entries that no depth can separate from `k`. */
  ghost function Crowd(cfg: Config, es: set<Entry>, k: Key, at: nat): set<Entry>
    requires cfg.width >= 1
  {
    set e | e in es && e.key != k && Agree(cfg, k, e.key, at)
  }

  /** The bucket on the path of `key` is behind the last chunk: there is no depth left to split it at. */
  ghost predicate AtBottom(cfg: Config, b: Block, at: nat, key: Key)
    requires cfg.width >= 1
    decreases b
  {
    cfg.Fits(at) && cfg.Slot(key, at) < 256 && b.bits.on[cfg.Slot(key, at)] && |b.ptrs| == Size(b.bits)
    && BottomAt(cfg, At(b.bits, b.ptrs, cfg.Slot(key, at)), at + cfg.width, key)
  }

  ghost predicate BottomAt(cfg: Config, p: Stored, at: nat, key: Key)
    requires cfg.width >= 1
    decreases p
  {
    match p
    case Vals(_) => !cfg.Fits(at)
    case Ln(c) => AtBottom(cfg, c.block, at, key)
  }

  /** The entries that a refused insertion of `key` drops: the bucket it would have split, unless at the bottom. */
  ghost function Gone(cfg: Config, b: Block, at: nat, key: Key): set<Entry>
    requires cfg.width >= 1
  {
    if AtBottom(cfg, b, at, key) then {} else Crowd(cfg, Entries(b), key, at)
  }

  ghost function GoneAt(cfg: Config, p: Stored, at: nat, key: Key): set<Entry>
    requires cfg.width >= 1
  {
    if BottomAt(cfg, p, at + cfg.width, key) then {} else Crowd(cfg, SlotEntries(p), key, at)
  }

  /** A refused insertion: reads miss what is gone, and so does the root unless an unmodified link still names it. */
  ghost predicate Refused(cfg: Config, n: Node, n': Node, at: nat, key: Key)
    requires cfg.width >= 1
  {
    && SeenEntries(n') == Entries(Erase(n)) - Gone(cfg, Erase(n), at, key)
    && Entries(Erase(n')) ==
       Entries(Erase(n)) - if CrossesLink(cfg, n, at, key) then {} else Gone(cfg, Erase(n), at, key)
  }

  ghost predicate RefusedAt(cfg: Config, p: Pointer, p': Pointer, at: nat, key: Key)
    requires cfg.width >= 1
  {
    && SeenAt(p') == SlotEntries(ErasePtr(p)) - GoneAt(cfg, ErasePtr(p), at, key)
    && SlotEntries(ErasePtr(p')) ==
       SlotEntries(ErasePtr(p)) -
       if PointerCrosses(cfg, p, at + cfg.width, key) then {} else GoneAt(cfg, ErasePtr(p), at, key)
  }

  lemma SubsetSize<T>(a: set<T>, b: set<T>)
    requires a <= b
    ensures |a| <= |b|
  {
    assert b == a + (b - a);
  }

  // ---- replacing, inserting and removing one pointer ----

  /** Swapping one pointer for another canonical one keeps the node canonical. */
  lemma PointerReplaced(cfg: Config, n: Node, n': Node, at: nat, idx: nat, q: Pointer)
    requires cfg.Valid() && cfg.Fits(at) && BlockInv(cfg, Erase(n), at)
    requires idx < 256 && n.bits.on[idx] && Rank(n.bits, idx) < |n.pointers|
    requires n' == n.(pointers := n.pointers[Rank(n.bits, idx) := q])
    requires SlotInv(cfg, ErasePtr(q), at, idx)
    ensures BlockInv(cfg, Erase(n'), at)
    ensures var part := SlotEntries(ErasePtr(n.pointers[Rank(n.bits, idx)]));
            && part <= Entries(Erase(n))
            && (forall e | e in Entries(Erase(n)) && cfg.Slot(e.key, at) == idx :: e in part)
            && Entries(Erase(n')) == Entries(Erase(n)) - part + SlotEntries(ErasePtr(q))
  {
    var b, b' := Erase(n), Erase(n');
    assert b'.ptrs == b.ptrs[Rank(n.bits, idx) := ErasePtr(q)];
    ReplaceKeepsRank(n.bits, b.ptrs, b'.ptrs, idx, ErasePtr(q));
    assert BlockInv(cfg, b', at);
    SlotUpdate(cfg, b, b', at, idx);
  }

  lemma ReplacedFrame(s: Store, n: Node, n': Node, i: nat, q: Pointer)
    requires i < |n.pointers| && n' == n.(pointers := n.pointers[i := q])
    requires Coherent(n) && PtrCoherent(q)
    ensures Coherent(n') && PtrCoherent(n.pointers[i])
    ensures Clean(n) && !q.Dirty? ==> Clean(n')
    ensures NodeResolvable(s, n) ==> PtrResolvable(s, n.pointers[i])
    ensures NodeResolvable(s, n) && PtrResolvable(s, q) ==> NodeResolvable(s, n')
  {
  }

  lemma PointerKept(n: Node, n': Node, i: nat, q: Pointer)
    requires i < |n.pointers| && n' == n.(pointers := n.pointers[i := q])
    requires ErasePtr(q) == ErasePtr(n.pointers[i])
    ensures Erase(n') == Erase(n)
  {
    assert Erase(n').ptrs == Erase(n).ptrs;
  }

  /** A fresh single-entry bucket at an empty slot keeps the node canonical. */
  lemma PointerInserted(cfg: Config, b: Block, b': Block, at: nat, e: Entry)
    requires cfg.Valid() && cfg.Fits(at) && BlockInv(cfg, b, at)
    requires cfg.Slot(e.key, at) < 256 && !b.bits.on[cfg.Slot(e.key, at)]
    requires b'.bits.on == b.bits.on[cfg.Slot(e.key, at) := true]
    requires Rank(b.bits, cfg.Slot(e.key, at)) <= |b.ptrs|
    requires var i := Rank(b.bits, cfg.Slot(e.key, at)); b'.ptrs == b.ptrs[..i] + [Vals([e])] + b.ptrs[i..]
    ensures BlockInv(cfg, b', at)
    ensures Entries(b') == Entries(b) + {e} && !HasKey(Entries(b), e.key)
  {
    var idx := cfg.Slot(e.key, at);
    InsertKeepsRank(b.bits, b'.bits, b.ptrs, b'.ptrs, idx, Vals([e]));
    assert SlotEntries(Vals([e])) == {e};
    assert SlotInv(cfg, Vals([e]), at, idx);
    assert BlockInv(cfg, b', at);
    SlotUpdate(cfg, b, b', at, idx);
  }

  /** insert_child. */
  method InsertChild(cfg: Config, ghost s: Store, n: Node, ghost at: nat, idx: nat, key: Key, value: Value)
    returns (n': Node)
    requires cfg.Valid() && cfg.Fits(at) && BlockInv(cfg, Erase(n), at) && Coherent(n)
    requires idx == cfg.Slot(key, at) < 256 && !n.bits.on[idx]
    ensures BlockInv(cfg, Erase(n'), at) && Coherent(n')
    ensures Entries(Erase(n')) == Entries(Erase(n)) + {Entry(key, value)}
    ensures !HasKey(Entries(Erase(n)), key)
    ensures NodeResolvable(s, n) ==> NodeResolvable(s, n')
  {
    var i := IndexForBitPos(n.bits, idx);
    RankBelowSize(n.bits, idx);
    var p := Values([Entry(key, value)]);
    n' := Node(n.bits.SetBit(idx), n.pointers[..i] + [p] + n.pointers[i..]);
    ErasedInsert(n, n', i, p);
    PointerInserted(cfg, Erase(n), Erase(n'), at, Entry(key, value));
  }

  lemma ErasedInsert(n: Node, n': Node, i: nat, p: Pointer)
    requires i <= |n.pointers| && n'.pointers == n.pointers[..i] + [p] + n.pointers[i..]
    ensures Erase(n').ptrs == Erase(n).ptrs[..i] + [ErasePtr(p)] + Erase(n).ptrs[i..]
    ensures Coherent(n) && PtrCoherent(p) ==> Coherent(n')
  {
    forall j | 0 <= j < |n'.pointers|
      ensures n'.pointers[j] == if j < i then n.pointers[j] else if j == i then p else n.pointers[j - 1]
    {
    }
  }

  /** get_child_mut(index_for_bit_pos(idx)): the pointer of a set bit. */
  method ChildIndex(cfg: Config, n: Node, ghost at: nat, idx: nat) returns (i: nat)
    requires cfg.Fits(at) && BlockInv(cfg, Erase(n), at) && Coherent(n) && idx < 256 && n.bits.on[idx]
    ensures i == Rank(n.bits, idx) < |n.pointers| && n.pointers[i] == At(n.bits, n.pointers, idx)
    ensures PtrCoherent(n.pointers[i]) && SlotInv(cfg, ErasePtr(n.pointers[i]), at, idx)
  {
    i := IndexForBitPos(n.bits, idx);
    RankBelowSize(n.bits, idx);
    assert ErasePtr(n.pointers[i]) == Erase(n).ptrs[i] == At(n.bits, Erase(n).ptrs, idx);
  }

  // ---- loading ----

  /** `cache.get_or_try_init`: the cached child, or the block its CID names. */
  method LoadChild(s: Store, cid: Cid, cache: Option<Node>) returns (r: Result<Node>)
    requires PtrCoherent(Link(cid, cache))
    ensures r.Ok? ==> Erase(r.value) == cid.block && Clean(r.value) && Coherent(r.value)
    ensures r.Ok? && PtrResolvable(s, Link(cid, cache)) ==> NodeResolvable(s, r.value)
    ensures !r.Ok? ==> r == Err(CidNotFound(cid)) && cid !in s
  {
    if cache.Some? {
      r := Ok(cache.value);
    } else if cid in s {
      r := Ok(FromBlock(s[cid]));
    } else {
      return Err(CidNotFound(cid));
    }
    if Resolvable(s, cid.block) {
      CleanResolvable(s, r.value);
    }
  }

  // ---- buckets ----

  method Position(es: seq<Entry>, key: Key) returns (i: nat)
    ensures i <= |es|
    ensures i < |es| ==> es[i].key == key
    ensures i == |es| ==> forall e | e in es :: e.key != key
  {
    i := 0;
    while i < |es| && es[i].key != key
      invariant i <= |es|
      invariant forall j | 0 <= j < i :: es[j].key != key
    {
      i := i + 1;
    }
  }

  lemma InsertedSorted(cfg: Config, es: seq<Entry>, e: Entry, i: nat, fs: seq<Entry>)
    requires cfg.Valid() && Sorted(cfg, es) && i <= |es|
    requires forall j | 0 <= j < i :: cfg.less(es[j].key, e.key)
    requires i < |es| ==> cfg.less(e.key, es[i].key)
    requires fs == es[..i] + [e] + es[i..]
    ensures Sorted(cfg, fs) && ToSet(fs) == ToSet(es) + {e}
  {
    forall p, q | 0 <= p < q < |fs|
      ensures cfg.less(fs[p].key, fs[q].key)
    {
      if p == i && q > i + 1 {
        assert cfg.less(es[i].key, es[q - 1].key);
      } else if p < i && q > i {
        assert cfg.less(es[p].key, es[q - 1].key);
      }
    }
    assert es == es[..i] + es[i..];
  }

  /** Inserts before the first larger key. */
  method InsertSorted(cfg: Config, es: seq<Entry>, e: Entry) returns (fs: seq<Entry>)
    requires cfg.Valid() && Sorted(cfg, es) && forall x | x in es :: x.key != e.key
    ensures Sorted(cfg, fs) && |fs| == |es| + 1
    ensures ToSet(fs) == ToSet(es) + {e}
  {
    var i := 0;
    while i < |es| && !cfg.less(e.key, es[i].key)
      invariant i <= |es|
      invariant forall j | 0 <= j < i :: cfg.less(es[j].key, e.key)
    {
      assert es[i] in es;
      i := i + 1;
    }
    fs := es[..i] + [e] + es[i..];
    InsertedSorted(cfg, es, e, i, fs);
  }

  // ---- modify_value ----

  /** Node::modify_value. Crossing a child is ModifyPointer. */
  method ModifyValue(cfg: Config, s: Store, n: Node, hb: HashBitReader.HashBits, key: Key, value: Value, overwrite: bool)
    returns (r: Result<SetOutcome>, n': Node)
    requires cfg.Valid() && hb.b == cfg.hash(key) && hb.consumed <= 256
    requires Coherent(n) && BlockInv(cfg, Erase(n), hb.consumed)
    ensures r.Ok? ==> Coherent(n') && BlockInv(cfg, Erase(n'), hb.consumed)
    ensures r.Ok? ==> Entries(Erase(n')) == Put(Entries(Erase(n)), key, value, overwrite)
    ensures r.Ok? ==> Reports(r.value, Entries(Erase(n)), key, value, overwrite)
    ensures r.Ok? && !r.value.modified ==> Erase(n') == Erase(n) && (Clean(n) ==> Clean(n'))
    ensures r.Ok? && NodeResolvable(s, n) ==> NodeResolvable(s, n')
    ensures !r.Ok? ==> r.Err? && (r.error == MaxDepth || (r.error.CidNotFound? && !NodeResolvable(s, n)))
    ensures r == Err(MaxDepth) && cfg.Fits(hb.consumed) ==>
              |Crowd(cfg, Entries(Erase(n)), key, hb.consumed)| >= MAX_ARRAY_WIDTH
    ensures r == Err(MaxDepth) && cfg.Fits(hb.consumed) ==> Refused(cfg, n, n', hb.consumed, key)
    ensures r.Ok? ==> cfg.Fits(hb.consumed)
    decreases 256 - hb.consumed, 0
  {
    n' := n;
    ghost var at := hb.consumed;
    var next, hb' := HashBitReader.Next(hb, cfg.width);
    if !next.Ok? {
      return Err(MaxDepth), n;
    }
    var idx := next.bits;
    cfg.SlotBound(key, at);
    assert idx == cfg.Slot(key, at);
    if !n.bits.TestBit(idx) {
      n' := InsertChild(cfg, s, n, at, idx, key, value);
      assert Without(Entries(Erase(n)), key) == Entries(Erase(n));
      return Ok(SetOutcome(None, true)), n';
    }
    r, n' := ModifySlot(cfg, s, n, at, idx, hb', key, value, overwrite);
  }

  /** The child of a slot in use. */
  method ModifySlot(cfg: Config, s: Store, n: Node, ghost at: nat, idx: nat, hb: HashBitReader.HashBits,
                    key: Key, value: Value, overwrite: bool)
    returns (r: Result<SetOutcome>, n': Node)
    requires cfg.Valid() && cfg.Fits(at) && hb.b == cfg.hash(key) && hb.consumed == at + cfg.width
    requires Coherent(n) && BlockInv(cfg, Erase(n), at) && idx == cfg.Slot(key, at) < 256 && n.bits.on[idx]
    ensures r.Ok? ==> Coherent(n') && BlockInv(cfg, Erase(n'), at)
    ensures r.Ok? ==> Entries(Erase(n')) == Put(Entries(Erase(n)), key, value, overwrite)
    ensures r.Ok? ==> Reports(r.value, Entries(Erase(n)), key, value, overwrite)
    ensures r.Ok? && !r.value.modified ==> Erase(n') == Erase(n) && (Clean(n) ==> Clean(n'))
    ensures r.Ok? && NodeResolvable(s, n) ==> NodeResolvable(s, n')
    ensures !r.Ok? ==> r.Err? && (r.error == MaxDepth || (r.error.CidNotFound? && !NodeResolvable(s, n)))
    ensures r == Err(MaxDepth) ==>
              |Crowd(cfg, Entries(Erase(n)), key, at)| >= MAX_ARRAY_WIDTH && Refused(cfg, n, n', at, key)
    decreases 256 - hb.consumed, 6
  {
    var cindex := ChildIndex(cfg, n, at, idx);
    var child := n.pointers[cindex];
    var child';
    r, child' := ModifyPointer(cfg, s, child, at, idx, hb, key, value, overwrite);
    n' := n.(pointers := n.pointers[cindex := child']);
    if r.Ok? {
      ReplacedFrame(s, n, n', cindex, child');
      PointerReplaced(cfg, n, n', at, idx, child');
      PutLifts(Entries(Erase(n)), SlotEntries(ErasePtr(child)), key, value, overwrite);
      if !r.value.modified {
        PointerKept(n, n', cindex, child');
      }
    } else if r == Err(MaxDepth) {
      PointerReplaced(cfg, n, n, at, idx, child);
      SubsetSize(Crowd(cfg, SlotEntries(ErasePtr(child)), key, at), Crowd(cfg, Entries(Erase(n)), key, at));
      RefusedLifts(cfg, n, n', at, cindex, child', key);
    }
  }

  /** What is refused below a pointer is refused by its node. */
  lemma RefusedLifts(cfg: Config, n: Node, n': Node, at: nat, i: nat, q: Pointer, key: Key)
    requires cfg.Valid() && cfg.Fits(at) && Coherent(n) && BlockInv(cfg, Erase(n), at)
    requires cfg.Slot(key, at) < 256 && n.bits.on[cfg.Slot(key, at)] && i == Rank(n.bits, cfg.Slot(key, at)) < |n.pointers|
    requires n' == n.(pointers := n.pointers[i := q]) && RefusedAt(cfg, n.pointers[i], q, at, key)
    ensures Refused(cfg, n, n', at, key)
  {
    var b, p, idx := Erase(n), n.pointers[i], cfg.Slot(key, at);
    EraseAt(n, idx);
    assert At(n.bits, n.pointers, idx) == p && At(b.bits, b.ptrs, idx) == ErasePtr(p);
    SlotCrowd(cfg, b, at, key);
    var gone := GoneAt(cfg, ErasePtr(p), at, key);
    assert gone == Gone(cfg, b, at, key) && gone <= SlotEntries(ErasePtr(p));
    assert CrossesLink(cfg, n, at, key) <==> PointerCrosses(cfg, p, at + cfg.width, key);
    SeenReplaced(cfg, n, n', at, i, q, gone);
    NamedReplaced(cfg, n, n', at, i, q, if CrossesLink(cfg, n, at, key) then {} else gone);
  }

  /** The crowd of a key is in its slot. */
  lemma SlotCrowd(cfg: Config, b: Block, at: nat, key: Key)
    requires cfg.Valid() && cfg.Fits(at) && BlockInv(cfg, b, at) && cfg.Slot(key, at) < 256 && b.bits.on[cfg.Slot(key, at)]
    ensures Crowd(cfg, Entries(b), key, at) == Crowd(cfg, SlotEntries(At(b.bits, b.ptrs, cfg.Slot(key, at))), key, at)
  {
    LocateAll(cfg, b, at);
    var part := EntriesAt(b, cfg.Slot(key, at));
    forall e: Entry
      ensures e in Crowd(cfg, Entries(b), key, at) <==> e in Crowd(cfg, part, key, at)
    {
      assert e in part ==> cfg.Slot(e.key, at) == cfg.Slot(key, at);
    }
  }

  /** The three arms of modify_value's match on the child pointer. */
  method ModifyPointer(cfg: Config, s: Store, p: Pointer, ghost at: nat, ghost idx: nat,
                       hb: HashBitReader.HashBits, key: Key, value: Value, overwrite: bool)
    returns (r: Result<SetOutcome>, p': Pointer)
    requires cfg.Valid() && cfg.Fits(at) && hb.b == cfg.hash(key) && hb.consumed == at + cfg.width
    requires idx == cfg.Slot(key, at)
    requires PtrCoherent(p) && SlotInv(cfg, ErasePtr(p), at, idx)
    ensures r.Ok? ==> PtrCoherent(p') && SlotInv(cfg, ErasePtr(p'), at, idx)
    ensures r.Ok? ==> SlotEntries(ErasePtr(p')) == Put(SlotEntries(ErasePtr(p)), key, value, overwrite)
    ensures r.Ok? ==> Reports(r.value, SlotEntries(ErasePtr(p)), key, value, overwrite)
    ensures r.Ok? && !r.value.modified ==> ErasePtr(p') == ErasePtr(p) && (p'.Dirty? ==> p.Dirty?)
    ensures r.Ok? && PtrResolvable(s, p) ==> PtrResolvable(s, p')
    ensures !r.Ok? ==> r.Err? && (r.error == MaxDepth || (r.error.CidNotFound? && !PtrResolvable(s, p)))
    ensures r == Err(MaxDepth) ==> |Crowd(cfg, SlotEntries(ErasePtr(p)), key, at)| >= MAX_ARRAY_WIDTH
    ensures r == Err(MaxDepth) ==> RefusedAt(cfg, p, p', at, key)
    decreases 256 - hb.consumed, 5
  {
    p' := p;
    match p
    case Link(cid, cache) =>
      var loaded := LoadChild(s, cid, cache);
      if !loaded.Ok? {
        return Err(loaded.error), p;
      }
      var child := loaded.value;
      var child';
      r, child' := ModifyChild(cfg, s, child, at, idx, hb, key, value, overwrite);
      p' := if r.Ok? && r.value.modified then Dirty(child') else Link(cid, Some(child'));
      if r == Err(MaxDepth) {
        RefusedByLink(cfg, cid, cache, child, child', at, key);
      }
    case Dirty(child) =>
      var child';
      r, child' := ModifyChild(cfg, s, child, at, idx, hb, key, value, overwrite);
      p' := Dirty(child');
    case Values(vals) =>
      r, p' := ModifyBucket(cfg, s, vals, at, idx, hb, key, value, overwrite);
  }

  /** A block may stand behind a link in the slot. */
  ghost predicate Linkable(cfg: Config, b: Block, at: nat, idx: nat)
    requires cfg.Fits(at)
  {
    SlotInv(cfg, Ln(Cid(b)), at, idx)
  }

  /** The recursive call on a child node, seen from its parent. */
  method ModifyChild(cfg: Config, s: Store, child: Node, ghost at: nat, ghost idx: nat, hb: HashBitReader.HashBits,
                     key: Key, value: Value, overwrite: bool)
    returns (r: Result<SetOutcome>, child': Node)
    requires cfg.Valid() && cfg.Fits(at) && hb.b == cfg.hash(key) && hb.consumed == at + cfg.width
    requires idx == cfg.Slot(key, at) && Coherent(child) && Linkable(cfg, Erase(child), at, idx)
    ensures r.Ok? ==> Coherent(child') && Linkable(cfg, Erase(child'), at, idx)
    ensures r.Ok? ==> Entries(Erase(child')) == Put(Entries(Erase(child)), key, value, overwrite)
    ensures r.Ok? ==> Reports(r.value, Entries(Erase(child)), key, value, overwrite)
    ensures r.Ok? && !r.value.modified ==> Erase(child') == Erase(child) && (Clean(child) ==> Clean(child'))
    ensures r.Ok? && NodeResolvable(s, child) ==> NodeResolvable(s, child')
    ensures !r.Ok? ==> r.Err? && (r.error == MaxDepth || (r.error.CidNotFound? && !NodeResolvable(s, child)))
    ensures r == Err(MaxDepth) ==> |Crowd(cfg, Entries(Erase(child)), key, at)| >= MAX_ARRAY_WIDTH
    ensures r == Err(MaxDepth) ==> RefusedAt(cfg, Dirty(child), Dirty(child'), at, key)
    decreases 256 - hb.consumed, 4
  {
    ChildInv(cfg, Erase(child), at, idx);
    r, child' := ModifyValue(cfg, s, child, hb, key, value, overwrite);
    if r.Ok? {
      SubNodeGrew(cfg, Erase(child), Erase(child'), at, idx, key, value, overwrite);
    } else if r == Err(MaxDepth) {
      SameCrowd(cfg, Erase(child), at, idx, key);
      RefusedByChild(cfg, child, child', at, key);
    }
  }

  lemma ChildInv(cfg: Config, b: Block, at: nat, idx: nat)
    requires cfg.Fits(at) && Linkable(cfg, b, at, idx)
    ensures BlockInv(cfg, b, at + cfg.width)
  {
  }

  lemma RefusedByChild(cfg: Config, n: Node, n': Node, at: nat, key: Key)
    requires cfg.width >= 1 && Refused(cfg, n, n', at + cfg.width, key)
    requires Crowd(cfg, Entries(Erase(n)), key, at) == Crowd(cfg, Entries(Erase(n)), key, at + cfg.width)
    ensures RefusedAt(cfg, Dirty(n), Dirty(n'), at, key)
  {
  }

  lemma RefusedByLink(cfg: Config, cid: Cid, cache: Option<Node>, n: Node, n': Node, at: nat, key: Key)
    requires cfg.width >= 1 && Erase(n) == cid.block && RefusedAt(cfg, Dirty(n), Dirty(n'), at, key)
    ensures RefusedAt(cfg, Link(cid, cache), Link(cid, Some(n')), at, key)
  {
  }

  /** A sub-block stays canonical below its slot after a put. */
  lemma SubNodeGrew(cfg: Config, b: Block, b': Block, at: nat, idx: nat, k: Key, v: Value, overwrite: bool)
    requires cfg.Valid() && cfg.Fits(at) && idx == cfg.Slot(k, at)
    requires Linkable(cfg, b, at, idx) && BlockInv(cfg, b', at + cfg.width)
    requires Entries(b') == Put(Entries(b), k, v, overwrite)
    ensures Linkable(cfg, b', at, idx)
  {
    KeysAreUnique(cfg, b, at + cfg.width);
    var es, es' := Entries(b), Entries(b');
    PutGrows(cfg, es, k, v, overwrite, at, idx);
    assert SlotEntries(Ln(Cid(b'))) == es';
  }

  lemma PutGrows(cfg: Config, es: set<Entry>, k: Key, v: Value, overwrite: bool, at: nat, idx: nat)
    requires cfg.Fits(at) && idx == cfg.Slot(k, at) && UniqueKeys(es) && forall e | e in es :: cfg.Slot(e.key, at) == idx
    ensures |Put(es, k, v, overwrite)| >= |es|
    ensures forall e | e in Put(es, k, v, overwrite) :: cfg.Slot(e.key, at) == idx
  {
    PutSize(es, k, v, overwrite);
  }

  lemma SameCrowd(cfg: Config, b: Block, at: nat, idx: nat, k: Key)
    requires cfg.Valid() && cfg.Fits(at) && idx == cfg.Slot(k, at) && Linkable(cfg, b, at, idx)
    ensures Crowd(cfg, Entries(b), k, at) == Crowd(cfg, Entries(b), k, at + cfg.width)
    ensures cfg.Fits(at + cfg.width)
  {
    var p := Ln(Cid(b));
    assert SlotInv(cfg, p, at, idx) && p.cid.block == b && SlotEntries(p) == Entries(b);
    assert b.ptrs == [] ==> Entries(b) == {};
  }

  /** The Values arm: overwrite, split a full bucket, or insert in key order. */
  method ModifyBucket(cfg: Config, s: Store, vals: seq<Entry>, ghost at: nat, ghost idx: nat,
                      hb: HashBitReader.HashBits, key: Key, value: Value, overwrite: bool)
    returns (r: Result<SetOutcome>, p: Pointer)
    requires cfg.Valid() && cfg.Fits(at) && hb.b == cfg.hash(key) && hb.consumed == at + cfg.width
    requires idx == cfg.Slot(key, at) && SlotInv(cfg, Vals(vals), at, idx)
    ensures r.Ok? ==> PtrCoherent(p) && SlotInv(cfg, ErasePtr(p), at, idx)
    ensures r.Ok? ==> SlotEntries(ErasePtr(p)) == Put(ToSet(vals), key, value, overwrite)
    ensures r.Ok? ==> Reports(r.value, ToSet(vals), key, value, overwrite)
    ensures r.Ok? && !r.value.modified ==> p == Values(vals)
    ensures r.Ok? ==> PtrResolvable(s, p)
    ensures !r.Ok? ==> r == Err(MaxDepth) && |Crowd(cfg, ToSet(vals), key, at)| >= MAX_ARRAY_WIDTH
    ensures !r.Ok? ==> RefusedAt(cfg, Values(vals), p, at, key)
    decreases 256 - hb.consumed, 4
  {
    var i := Position(vals, key);
    if i < |vals| {
      assert vals[i] in ToSet(vals);
      if overwrite {
        p := Values(vals[i := Entry(vals[i].key, value)]);
        r := Ok(SetOutcome(Some(vals[i].value), vals[i].value != value));
        OverwriteInBucket(cfg, vals, i, value);
      } else {
        p := Values(vals);
        r := Ok(SetOutcome(None, false));
      }
      return;
    }
    assert !HasKey(ToSet(vals), key);
    assert Without(ToSet(vals), key) == ToSet(vals);
    if |vals| >= MAX_ARRAY_WIDTH {
      var sub, taken;
      r, sub, taken := SplitBucket(cfg, s, vals, at, idx, hb, key, value, overwrite);
      p := if r.Ok? then Dirty(sub) else if taken then Values([]) else Values(vals);
      if !r.Ok? {
        BucketGone(cfg, vals, p, at, key, taken);
      }
      return;
    }
    var vals' := InsertSorted(cfg, vals, Entry(key, value));
    r, p := Ok(SetOutcome(None, true)), Values(vals');
  }

  /** The whole bucket is the crowd. */
  lemma BucketGone(cfg: Config, vals: seq<Entry>, p: Pointer, at: nat, key: Key, taken: bool)
    requires cfg.width >= 1 && |vals| <= MAX_ARRAY_WIDTH <= |Crowd(cfg, ToSet(vals), key, at)|
    requires taken == cfg.Fits(at + cfg.width) && p == if taken then Values([]) else Values(vals)
    ensures RefusedAt(cfg, Values(vals), p, at, key)
  {
    var crowd := Crowd(cfg, ToSet(vals), key, at);
    BucketSize(vals);
    assert ToSet(vals) == crowd + (ToSet(vals) - crowd);
    assert ToSet(vals) - crowd == {};
  }

  lemma OverwriteInBucket(cfg: Config, vals: seq<Entry>, i: nat, v: Value)
    requires cfg.Valid() && Sorted(cfg, vals) && i < |vals|
    ensures var vals' := vals[i := Entry(vals[i].key, v)];
            && Sorted(cfg, vals')
            && ToSet(vals') == Without(ToSet(vals), vals[i].key) + {Entry(vals[i].key, v)}
            && (vals[i].value == v <==> Entry(vals[i].key, v) in ToSet(vals))
            && (vals[i].value == v ==> vals' == vals)
  {
    var vals' := vals[i := Entry(vals[i].key, v)];
    assert forall j | 0 <= j < |vals| && j != i :: vals[j].key != vals[i].key;
    forall e: Entry
      ensures e in vals' <==> e in Without(ToSet(vals), vals[i].key) + {Entry(vals[i].key, v)}
    {
      if e in vals' {
        var j :| 0 <= j < |vals'| && vals'[j] == e;
        assert j != i ==> vals[j] == e;
      }
      if e in Without(ToSet(vals), vals[i].key) {
        var j :| 0 <= j < |vals| && vals[j] == e;
        assert vals'[j] == e;
      }
      assert vals'[i] == Entry(vals[i].key, v);
    }
  }

  /** A full bucket becomes a sub-node; no entry is lost or duplicated. `taken`: the bucket was emptied into it. */
  method SplitBucket(cfg: Config, s: Store, vals: seq<Entry>, ghost at: nat, ghost idx: nat,
                     hb: HashBitReader.HashBits, key: Key, value: Value, overwrite: bool)
    returns (r: Result<SetOutcome>, sub: Node, taken: bool)
    requires cfg.Valid() && cfg.Fits(at) && hb.b == cfg.hash(key) && hb.consumed == at + cfg.width
    requires idx == cfg.Slot(key, at) && SlotInv(cfg, Vals(vals), at, idx) && |vals| == MAX_ARRAY_WIDTH
    requires !HasKey(ToSet(vals), key)
    ensures r.Ok? ==> r.value == SetOutcome(None, true)
    ensures r.Ok? ==> Coherent(sub) && SlotInv(cfg, Ln(Cid(Erase(sub))), at, idx) && NodeResolvable(s, sub)
    ensures r.Ok? ==> Entries(Erase(sub)) == ToSet(vals) + {Entry(key, value)}
    ensures !r.Ok? ==> r == Err(MaxDepth) && |Crowd(cfg, ToSet(vals), key, at)| >= MAX_ARRAY_WIDTH
    ensures taken == cfg.Fits(hb.consumed)
    decreases 256 - hb.consumed, 3
  {
    taken := false;
    var consumed := hb.consumed;
    EmptyNode(cfg, s, consumed);
    r, sub := ModifyValue(cfg, s, EMPTY_NODE, hb, key, value, overwrite);
    if !r.Ok? {
      assert !cfg.Fits(consumed) by {
        assert Crowd(cfg, {}, key, consumed) == {};
      }
      AllCrowd(cfg, vals, at, idx, key);
      return;
    }
    assert Entries(Erase(sub)) == {Entry(key, value)} by {
      assert Without({}, key) == {};
    }
    taken := true;
    var moved;
    moved, sub := SplitRest(cfg, s, sub, vals, at, idx, consumed, key, value, overwrite);
    r := if moved.Ok? then Ok(SetOutcome(None, true)) else Err(MaxDepth);
  }

  /** The sub-node holds the new entry; the evicted ones follow. */
  method SplitRest(cfg: Config, s: Store, n: Node, vals: seq<Entry>, ghost at: nat, ghost idx: nat, consumed: nat,
                   ghost key: Key, ghost value: Value, overwrite: bool)
    returns (r: Result<()>, sub: Node)
    requires cfg.Valid() && cfg.Fits(at) && consumed == at + cfg.width && cfg.Fits(consumed)
    requires idx == cfg.Slot(key, at) && SlotInv(cfg, Vals(vals), at, idx) && |vals| == MAX_ARRAY_WIDTH
    requires !HasKey(ToSet(vals), key)
    requires Coherent(n) && BlockInv(cfg, Erase(n), consumed) && NodeResolvable(s, n)
    requires Entries(Erase(n)) == {Entry(key, value)}
    ensures r.Ok? ==> Coherent(sub) && SlotInv(cfg, Ln(Cid(Erase(sub))), at, idx) && NodeResolvable(s, sub)
    ensures r.Ok? ==> Entries(Erase(sub)) == ToSet(vals) + {Entry(key, value)}
    ensures !r.Ok? ==> r == Err(MaxDepth) && |Crowd(cfg, ToSet(vals), key, at)| >= MAX_ARRAY_WIDTH
    decreases 256 - consumed, 2
  {
    assert forall e | e in vals :: e in ToSet(vals) && e.key != key && e in SlotEntries(Vals(vals));
    ghost var i;
    r, sub, i := Rehome(cfg, s, n, vals, consumed, overwrite);
    if r.Ok? {
      ghost var b, e := Erase(sub), Entry(key, value);
      assert Entries(b) == ToSet(vals) + {e};
      assert BlockInv(cfg, b, consumed);
      SplitIsCanonical(cfg, b, vals, e, at, consumed, idx);
    } else {
      LastOneCollides(cfg, vals, i, consumed, key, value);
      AllCrowd(cfg, vals, at, idx, key);
    }
  }

  /** The loop that re-homes evicted entries, each with a reader resumed at the bits consumed so far. */
  method Rehome(cfg: Config, s: Store, n: Node, vals: seq<Entry>, consumed: nat, overwrite: bool)
    returns (r: Result<()>, sub: Node, ghost failed: nat)
    requires cfg.Valid() && cfg.Fits(consumed) && Sorted(cfg, vals)
    requires Coherent(n) && BlockInv(cfg, Erase(n), consumed) && NodeResolvable(s, n)
    requires forall e | e in vals :: !HasKey(Entries(Erase(n)), e.key)
    ensures r.Ok? ==> Coherent(sub) && BlockInv(cfg, Erase(sub), consumed) && NodeResolvable(s, sub)
    ensures r.Ok? ==> Entries(Erase(sub)) == ToSet(vals) + Entries(Erase(n))
    ensures !r.Ok? ==> r == Err(MaxDepth) && failed < |vals|
    ensures !r.Ok? ==>
              |Crowd(cfg, ToSet(vals[..failed]) + Entries(Erase(n)), vals[failed].key, consumed)| >= MAX_ARRAY_WIDTH
    decreases 256 - consumed, 1
  {
    sub := n;
    for i := 0 to |vals|
      invariant Coherent(sub) && BlockInv(cfg, Erase(sub), consumed) && NodeResolvable(s, sub)
      invariant Entries(Erase(sub)) == ToSet(vals[..i]) + Entries(Erase(n))
    {
      var p := vals[i];
      ghost var es := Entries(Erase(sub));
      FreshInPrefix(cfg, vals, i, Entries(Erase(n)));
      var moved;
      moved, sub := ModifyValue(cfg, s, sub, HashBitReader.NewAtIndex(cfg.hash(p.key), consumed), p.key, p.value, overwrite);
      if !moved.Ok? {
        return Err(MaxDepth), n, i;
      }
      assert Without(es, p.key) == es;
      assert vals[..i + 1] == vals[..i] + [p];
    }
    assert vals[..|vals|] == vals;
    r, failed := Ok(()), 0;
  }

  lemma SplitIsCanonical(cfg: Config, b: Block, vals: seq<Entry>, e: Entry, at: nat, next: nat, idx: nat)
    requires cfg.Valid() && cfg.Fits(at) && next == at + cfg.width && BlockInv(cfg, b, next)
    requires Sorted(cfg, vals) && |vals| == MAX_ARRAY_WIDTH && forall f | f in vals :: cfg.Slot(f.key, at) == idx
    requires cfg.Slot(e.key, at) == idx && !HasKey(ToSet(vals), e.key)
    requires Entries(b) == ToSet(vals) + {e}
    ensures SlotInv(cfg, Ln(Cid(b)), at, idx)
  {
    OneMore(cfg, vals, e);
    assert forall f | f in Entries(b) :: cfg.Slot(f.key, at) == idx;
    CanonicalLink(cfg, b, at, next, idx);
  }

  lemma OneMore(cfg: Config, vals: seq<Entry>, e: Entry)
    requires cfg.Valid() && Sorted(cfg, vals) && !HasKey(ToSet(vals), e.key)
    ensures |ToSet(vals) + {e}| == |vals| + 1
  {
    SortedSize(cfg, vals);
    assert e !in ToSet(vals);
  }

  lemma CanonicalLink(cfg: Config, b: Block, at: nat, next: nat, idx: nat)
    requires cfg.Fits(at) && next == at + cfg.width && BlockInv(cfg, b, next) && |Entries(b)| > MAX_ARRAY_WIDTH
    requires forall f | f in Entries(b) :: cfg.Slot(f.key, at) == idx
    ensures SlotInv(cfg, Ln(Cid(b)), at, idx)
  {
    var p := Ln(Cid(b));
    assert p.cid.block == b && SlotEntries(p) == Entries(b);
    assert BlockInv(cfg, p.cid.block, at + cfg.width);
  }

  lemma EmptyNode(cfg: Config, s: Store, at: nat)
    ensures Coherent(EMPTY_NODE) && NodeResolvable(s, EMPTY_NODE) && Clean(EMPTY_NODE)
    ensures BlockInv(cfg, Erase(EMPTY_NODE), at) && Entries(Erase(EMPTY_NODE)) == {}
  {
    PopCountFill(256, false);
  }

  lemma FreshInPrefix(cfg: Config, vals: seq<Entry>, i: nat, es: set<Entry>)
    requires cfg.Valid() && Sorted(cfg, vals) && i < |vals|
    requires forall e | e in vals :: !HasKey(es, e.key)
    ensures !HasKey(ToSet(vals[..i]) + es, vals[i].key)
  {
    assert forall e | e in vals[..i] :: cfg.less(e.key, vals[i].key);
    assert vals[i] in vals;
  }

  lemma {:induction false} SortedSize(cfg: Config, vals: seq<Entry>)
    requires cfg.Valid() && Sorted(cfg, vals)
    ensures |ToSet(vals)| == |vals|
  {
    if vals == [] {
    } else {
      TailIsRest(cfg, vals);
      SortedSize(cfg, vals[1..]);
    }
  }

  /** With no bits left the whole bucket collides with the new key. */
  lemma AllCrowd(cfg: Config, vals: seq<Entry>, at: nat, idx: nat, k: Key)
    requires cfg.Valid() && cfg.Fits(at) && idx == cfg.Slot(k, at) && SlotInv(cfg, Vals(vals), at, idx)
    requires !HasKey(ToSet(vals), k) && forall e | e in vals :: Agree(cfg, k, e.key, at + cfg.width)
    ensures |Crowd(cfg, ToSet(vals), k, at)| == |vals|
  {
    assert forall e | e in vals :: e in SlotEntries(Vals(vals)) && e.key != k;
    assert Crowd(cfg, ToSet(vals), k, at) == ToSet(vals);
    SortedSize(cfg, vals);
  }

  /** Re-homing an evicted entry fails only when all four keys collide. */
  lemma LastOneCollides(cfg: Config, vals: seq<Entry>, i: nat, at: nat, k: Key, v: Value)
    requires cfg.width >= 1 && |vals| == MAX_ARRAY_WIDTH && i < |vals|
    requires |Crowd(cfg, ToSet(vals[..i]) + {Entry(k, v)}, vals[i].key, at)| >= MAX_ARRAY_WIDTH
    ensures forall e | e in vals :: Agree(cfg, k, e.key, at)
  {
    var es := ToSet(vals[..i]) + {Entry(k, v)};
    var crowd := Crowd(cfg, es, vals[i].key, at);
    BucketSize(vals[..i]);
    assert |es| <= |ToSet(vals[..i])| + 1;
    SubsetSize(crowd, es);
    SubsetSame(crowd, es);
    assert Entry(k, v) in crowd && i == 2;
    assert vals == vals[..i] + [vals[i]];
    forall e | e in vals
      ensures Agree(cfg, k, e.key, at)
    {
      if e in vals[..i] {
        assert e in crowd;
        AgreeTransitive(cfg, vals[i].key, k, e.key, at);
      } else {
        AgreeTransitive(cfg, vals[i].key, k, k, at);
      }
    }
  }

  lemma SubsetSame<T>(a: set<T>, b: set<T>)
    requires a <= b && |a| == |b|
    ensures a == b
  {
    assert b == a + (b - a);
  }
}
