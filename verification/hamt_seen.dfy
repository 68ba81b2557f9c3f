/** What reads of a HAMT meet, which is not what its CIDs name once an error has left a cache changed. */
module HamtSeen {

  import opened Bitfields
  import opened HamtModel

  /** The entries below a pointer as `get` reads them: caches before CIDs. */
  ghost function SeenAt(p: Pointer): set<Entry>
    decreases p
  {
    match p
    case Values(es) => ToSet(es)
    case Link(c, None) => Entries(c.block)
    case Link(_, Some(n)) => SeenEntries(n)
    case Dirty(n) => SeenEntries(n)
  }

  ghost function SeenEntries(n: Node): set<Entry>
    decreases n
  {
    set i, e | 0 <= i < |n.pointers| && e in SeenAt(n.pointers[i]) :: e
  }

  lemma {:induction false} SeenCoherent(n: Node)
    requires Coherent(n)
    ensures SeenEntries(n) == Entries(Erase(n))
    decreases n
  {
    forall i | 0 <= i < |n.pointers|
      ensures SeenAt(n.pointers[i]) == SlotEntries(Erase(n).ptrs[i])
    {
      SeenAtCoherent(n.pointers[i]);
    }
  }

  lemma {:induction false} SeenAtCoherent(p: Pointer)
    requires PtrCoherent(p)
    ensures SeenAt(p) == SlotEntries(ErasePtr(p))
    decreases p
  {
    match p
    case Values(_) =>
    case Link(_, None) =>
    case Link(_, Some(n)) => SeenCoherent(n);
    case Dirty(n) => SeenCoherent(n);
  }

  /** The path of `key` meets a link that has not been modified since the last flush. */
  ghost predicate CrossesLink(cfg: Config, n: Node, at: nat, key: Key)
    decreases n
  {
    && cfg.Fits(at) && cfg.Slot(key, at) < 256 && n.bits.on[cfg.Slot(key, at)] && |n.pointers| == Size(n.bits)
    && PointerCrosses(cfg, At(n.bits, n.pointers, cfg.Slot(key, at)), at + cfg.width, key)
  }

  ghost predicate PointerCrosses(cfg: Config, p: Pointer, at: nat, key: Key)
    decreases p
  {
    match p
    case Values(_) => false
    case Link(_, _) => true
    case Dirty(n) => CrossesLink(cfg, n, at, key)
  }

  /** The pointers of a canonical node hold different entries. */
  lemma SlotsDiffer(cfg: Config, b: Block, at: nat, i: nat, j: nat)
    requires cfg.Valid() && cfg.Fits(at) && BlockInv(cfg, b, at) && i < |b.ptrs| && j < |b.ptrs| && i != j
    ensures SlotEntries(b.ptrs[i]) !! SlotEntries(b.ptrs[j])
  {
    assert b.bits.on[..256] == b.bits.on;
    var p := Select(b.bits, i, 256);
    var q := Select(b.bits, j, 256);
    assert At(b.bits, b.ptrs, p) == b.ptrs[i] && At(b.bits, b.ptrs, q) == b.ptrs[j];
    assert SlotInv(cfg, b.ptrs[i], at, p) && SlotInv(cfg, b.ptrs[j], at, q);
  }

  /** What is taken out of one pointer was in no other. */
  lemma OthersKeep(cfg: Config, b: Block, at: nat, i: nat, j: nat, gone: set<Entry>)
    requires cfg.Valid() && cfg.Fits(at) && BlockInv(cfg, b, at) && i < |b.ptrs| && j < |b.ptrs| && i != j
    requires gone <= SlotEntries(b.ptrs[i])
    ensures SlotEntries(b.ptrs[j]) == SlotEntries(b.ptrs[j]) - gone
  {
    SlotsDiffer(cfg, b, at, i, j);
  }

  /** If every pointer of `n` shows what `b` holds there less what is gone, so does the node. */
  lemma SeenWithout(n: Node, b: Block, gone: set<Entry>)
    requires |n.pointers| == |b.ptrs| && forall j | 0 <= j < |b.ptrs| :: SeenAt(n.pointers[j]) == SlotEntries(b.ptrs[j]) - gone
    ensures SeenEntries(n) == Entries(b) - gone
  {
    forall e: Entry
      ensures e in SeenEntries(n) <==> e in Entries(b) && e !in gone
    {
      if e in SeenEntries(n) {
        var j :| 0 <= j < |n.pointers| && e in SeenAt(n.pointers[j]);
        assert e in SlotEntries(b.ptrs[j]);
      }
      if e in Entries(b) && e !in gone {
        var j :| 0 <= j < |b.ptrs| && e in SlotEntries(b.ptrs[j]);
        assert e in SeenAt(n.pointers[j]);
      }
    }
  }

  lemma NamedWithout(b': Block, b: Block, gone: set<Entry>)
    requires |b'.ptrs| == |b.ptrs| && forall j | 0 <= j < |b.ptrs| :: SlotEntries(b'.ptrs[j]) == SlotEntries(b.ptrs[j]) - gone
    ensures Entries(b') == Entries(b) - gone
  {
    forall e: Entry
      ensures e in Entries(b') <==> e in Entries(b) && e !in gone
    {
      if e in Entries(b') {
        var j :| 0 <= j < |b'.ptrs| && e in SlotEntries(b'.ptrs[j]);
        assert e in SlotEntries(b.ptrs[j]);
      }
      if e in Entries(b) && e !in gone {
        var j :| 0 <= j < |b.ptrs| && e in SlotEntries(b.ptrs[j]);
        assert e in SlotEntries(b'.ptrs[j]);
      }
    }
  }

  /** Taking entries out of one pointer takes them out of what the node's reads meet, and no others. */
  lemma SeenReplaced(cfg: Config, n: Node, n': Node, at: nat, i: nat, q: Pointer, gone: set<Entry>)
    requires cfg.Valid() && cfg.Fits(at) && Coherent(n) && BlockInv(cfg, Erase(n), at)
    requires i < |n.pointers| && n' == n.(pointers := n.pointers[i := q])
    requires gone <= SlotEntries(ErasePtr(n.pointers[i])) && SeenAt(q) == SlotEntries(ErasePtr(n.pointers[i])) - gone
    ensures SeenEntries(n') == Entries(Erase(n)) - gone
  {
    var b := Erase(n);
    forall j | 0 <= j < |n.pointers|
      ensures SeenAt(n'.pointers[j]) == SlotEntries(b.ptrs[j]) - gone
    {
      assert b.ptrs[j] == ErasePtr(n.pointers[j]);
      if j != i {
        SeenAtCoherent(n.pointers[j]);
        OthersKeep(cfg, b, at, i, j, gone);
      }
    }
    SeenWithout(n', b, gone);
  }

  /** The same for what the CIDs name. */
  lemma NamedReplaced(cfg: Config, n: Node, n': Node, at: nat, i: nat, q: Pointer, gone: set<Entry>)
    requires cfg.Valid() && cfg.Fits(at) && BlockInv(cfg, Erase(n), at)
    requires i < |n.pointers| && n' == n.(pointers := n.pointers[i := q])
    requires gone <= SlotEntries(ErasePtr(n.pointers[i]))
    requires SlotEntries(ErasePtr(q)) == SlotEntries(ErasePtr(n.pointers[i])) - gone
    ensures Entries(Erase(n')) == Entries(Erase(n)) - gone
  {
    var b, b' := Erase(n), Erase(n');
    forall j | 0 <= j < |b.ptrs|
      ensures SlotEntries(b'.ptrs[j]) == SlotEntries(b.ptrs[j]) - gone
    {
      assert b.ptrs[j] == ErasePtr(n.pointers[j]) && b'.ptrs[j] == ErasePtr(n'.pointers[j]);
      if j != i {
        OthersKeep(cfg, b, at, i, j, gone);
      }
    }
    NamedWithout(b', b, gone);
  }
}
