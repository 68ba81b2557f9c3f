/**
 The HAMT's data: tree nodes in memory, blocks in the store, and what both of them mean.
 A CID stands for the block it is the digest of, so equal CIDs are equal blocks.
 */
module HamtModel {
  import opened Common
  import opened Bitfields
  import HashBitReader

  type Key(==, !new)
  type Value(==, !new)

  const MAX_ARRAY_WIDTH := 3

  datatype Entry = Entry(key: Key, value: Value)

  /** What the blockstore holds: a bitfield and, per set bit, a bucket or the CID of a sub-block. */
  datatype Cid = Cid(block: Block)
  datatype Block = Block(bits: Bitfield, ptrs: seq<Stored>)
  datatype Stored = Vals(entries: seq<Entry>) | Ln(cid: Cid)

  /** What a `Hamt` holds in memory. Boxes are uniquely owned, so nodes are values. */
  datatype Node = Node(bits: Bitfield, pointers: seq<Pointer>)
  datatype Pointer =
    | Values(entries: seq<Entry>)
    | Link(cid: Cid, cache: Option<Node>)
    | Dirty(node: Node)

  const EMPTY_NODE: Node := Node(ZERO, [])

  /** A content-addressed store: every block sits under its own CID. */
  type Store = s: map<Cid, Block> | forall c | c in s :: s[c] == c.block witness map[]

  /** The hash algorithm, the key order and the bit width a `Hamt` is used with. */
  datatype Config = Config(hash: Key -> HashBitReader.HashedKey, less: (Key, Key) -> bool, width: nat) {

    ghost predicate Valid() {
      && 1 <= width <= 8
      && (forall a: Key :: !less(a, a))
      && (forall a: Key, b: Key, c: Key :: less(a, b) && less(b, c) ==> less(a, c))
      && (forall a: Key, b: Key :: less(a, b) || a == b || less(b, a))
    }

    /** Another chunk is left in a key of which `at` bits are consumed. */
    predicate Fits(at: nat) {
      at + width <= 256
    }

    function Slot(k: Key, at: nat): nat
      requires Fits(at)
    {
      HashBitReader.Chunk(hash(k), at, width)
    }

    lemma SlotBound(k: Key, at: nat)
      requires Valid() && Fits(at)
      ensures Slot(k, at) < 256
    {
      HashBitReader.ChunkBound(hash(k), at, width);
      Pow2Monotone(width, 8);
      assert Pow2(8) == 256;
    }
  }

  // ---- meaning of blocks ----

  ghost function ToSet(es: seq<Entry>): (s: set<Entry>)
    ensures forall e :: e in s <==> e in es
  {
    set e | e in es
  }

  ghost function SlotEntries(p: Stored): set<Entry>
    decreases p
  {
    match p
    case Vals(es) => ToSet(es)
    case Ln(c) => Entries(c.block)
  }

  /** Every key-value pair stored below a block. */
  ghost function Entries(b: Block): set<Entry>
    decreases b
  {
    set i, e | 0 <= i < |b.ptrs| && e in SlotEntries(b.ptrs[i]) :: e
  }

  predicate Sorted(cfg: Config, es: seq<Entry>) {
    forall i, j | 0 <= i < j < |es| :: cfg.less(es[i].key, es[j].key)
  }

  /** A pointer of a canonical node: a sorted bucket of 1..3 entries, or a sub-block of at least 4. */
  ghost predicate SlotInv(cfg: Config, p: Stored, at: nat, idx: nat)
    requires cfg.Fits(at)
    decreases p
  {
    && (match p
        case Vals(es) => 1 <= |es| <= MAX_ARRAY_WIDTH && Sorted(cfg, es)
        case Ln(c) => BlockInv(cfg, c.block, at + cfg.width) && |Entries(c.block)| > MAX_ARRAY_WIDTH)
    && forall e | e in SlotEntries(p) :: cfg.Slot(e.key, at) == idx
  }

  /** A canonical node, reached after consuming `at` bits of the keys below it. */
  ghost predicate BlockInv(cfg: Config, b: Block, at: nat)
    decreases b
  {
    && |b.ptrs| == Size(b.bits)
    && (b.ptrs != [] ==> cfg.Fits(at))
    && forall j | 0 <= j < 256 && b.bits.on[j] :: cfg.Fits(at) && SlotInv(cfg, At(b.bits, b.ptrs, j), at, j)
  }

  /** The entries in the slot of bit `idx`. */
  ghost function EntriesAt(b: Block, idx: nat): set<Entry>
    requires idx < 256 && |b.ptrs| == Size(b.bits)
  {
    if b.bits.on[idx] then SlotEntries(At(b.bits, b.ptrs, idx)) else {}
  }

  /** An entry is below a canonical node exactly when it is in the slot its hash selects. */
  lemma Locate(cfg: Config, b: Block, at: nat, e: Entry)
    requires cfg.Valid() && BlockInv(cfg, b, at) && cfg.Fits(at)
    ensures cfg.Slot(e.key, at) < 256
    ensures e in Entries(b) <==> e in EntriesAt(b, cfg.Slot(e.key, at))
  {
    cfg.SlotBound(e.key, at);
    var s := cfg.Slot(e.key, at);
    if e in Entries(b) {
      var i :| 0 <= i < |b.ptrs| && e in SlotEntries(b.ptrs[i]);
      assert b.bits.on[..256] == b.bits.on;
      var j := Select(b.bits, i, 256);
      assert At(b.bits, b.ptrs, j) == b.ptrs[i];
    }
    if e in EntriesAt(b, s) {
      RankBelowSize(b.bits, s);
      assert At(b.bits, b.ptrs, s) == b.ptrs[Rank(b.bits, s)];
    }
  }

  lemma LocateAll(cfg: Config, b: Block, at: nat)
    requires cfg.Valid() && BlockInv(cfg, b, at) && cfg.Fits(at)
    ensures forall e: Entry :: cfg.Slot(e.key, at) < 256
    ensures forall e :: e in Entries(b) <==> e in EntriesAt(b, cfg.Slot(e.key, at))
  {
    forall e: Entry
      ensures cfg.Slot(e.key, at) < 256
      ensures e in Entries(b) <==> e in EntriesAt(b, cfg.Slot(e.key, at))
    {
      Locate(cfg, b, at, e);
    }
  }

  /** At most one value per key. */
  ghost predicate UniqueKeys(es: set<Entry>) {
    forall e, f | e in es && f in es && e.key == f.key :: e == f
  }

  lemma {:induction false} KeysAreUnique(cfg: Config, b: Block, at: nat)
    requires cfg.Valid() && BlockInv(cfg, b, at)
    ensures UniqueKeys(Entries(b))
    decreases b
  {
    forall e, f | e in Entries(b) && f in Entries(b) && e.key == f.key
      ensures e == f
    {
      assert b.ptrs != [];
      Locate(cfg, b, at, e);
      Locate(cfg, b, at, f);
      SlotKeysAreUnique(cfg, At(b.bits, b.ptrs, cfg.Slot(e.key, at)), at, cfg.Slot(e.key, at));
    }
  }

  lemma {:induction false} SlotKeysAreUnique(cfg: Config, p: Stored, at: nat, idx: nat)
    requires cfg.Valid() && cfg.Fits(at) && SlotInv(cfg, p, at, idx)
    ensures UniqueKeys(SlotEntries(p))
    decreases p
  {
    match p
    case Ln(c) => KeysAreUnique(cfg, c.block, at + cfg.width);
    case Vals(es) =>
  }

  // ---- abstract operations on entry sets ----

  ghost predicate HasKey(es: set<Entry>, k: Key) {
    exists e :: e in es && e.key == k
  }

  ghost function Without(es: set<Entry>, k: Key): set<Entry> {
    set e | e in es && e.key != k
  }

  ghost function Put(es: set<Entry>, k: Key, v: Value, overwrite: bool): set<Entry> {
    if overwrite || !HasKey(es, k) then Without(es, k) + {Entry(k, v)} else es
  }

  lemma WithoutSize(es: set<Entry>, k: Key)
    requires UniqueKeys(es)
    ensures |Without(es, k)| == |es| - (if HasKey(es, k) then 1 else 0)
  {
    if HasKey(es, k) {
      var e :| e in es && e.key == k;
      assert Without(es, k) == es - {e};
    } else {
      assert Without(es, k) == es;
    }
  }

  lemma PutSize(es: set<Entry>, k: Key, v: Value, overwrite: bool)
    requires UniqueKeys(es)
    ensures |Put(es, k, v, overwrite)| == |es| + (if HasKey(es, k) then 0 else 1)
  {
    WithoutSize(es, k);
  }

  /** Changing one slot changes exactly that slot's entries. */
  lemma SlotUpdate(cfg: Config, b: Block, b': Block, at: nat, idx: nat)
    requires cfg.Valid() && cfg.Fits(at) && idx < 256
    requires BlockInv(cfg, b, at) && BlockInv(cfg, b', at)
    requires forall j | 0 <= j < 256 && j != idx :: EntriesAt(b', j) == EntriesAt(b, j)
    ensures EntriesAt(b, idx) <= Entries(b)
    ensures forall e | e in Entries(b) && cfg.Slot(e.key, at) == idx :: e in EntriesAt(b, idx)
    ensures Entries(b') == Entries(b) - EntriesAt(b, idx) + EntriesAt(b', idx)
  {
    LocateAll(cfg, b, at);
    LocateAll(cfg, b', at);
  }

  lemma PutLifts(es: set<Entry>, part: set<Entry>, k: Key, v: Value, overwrite: bool)
    requires part <= es && forall e | e in es && e.key == k :: e in part
    ensures es - part + Put(part, k, v, overwrite) == Put(es, k, v, overwrite)
    ensures HasKey(es, k) <==> HasKey(part, k)
  {
  }

  lemma WithoutLifts(es: set<Entry>, part: set<Entry>, k: Key)
    requires part <= es && forall e | e in es && e.key == k :: e in part
    ensures es - part + Without(part, k) == Without(es, k)
    ensures HasKey(es, k) <==> HasKey(part, k)
  {
  }

  // ---- canonical form ----

  /**
   History independence: two canonical trees with the same entries are the same tree, so the
   shape, and with it the CID, is a function of the contents.
   */
  lemma {:induction false} CanonicalIsUnique(cfg: Config, b: Block, c: Block, at: nat)
    requires cfg.Valid() && BlockInv(cfg, b, at) && BlockInv(cfg, c, at)
    requires Entries(b) == Entries(c)
    ensures b == c
    decreases b
  {
    SameBits(cfg, b, c, at);
    SameBits(cfg, c, b, at);
    assert b.bits.on == c.bits.on;
    forall i | 0 <= i < |b.ptrs|
      ensures b.ptrs[i] == c.ptrs[i]
    {
      assert b.bits.on[..256] == b.bits.on;
      var j := Select(b.bits, i, 256);
      assert At(b.bits, b.ptrs, j) == b.ptrs[i] && At(c.bits, c.ptrs, j) == c.ptrs[i];
      SlotEntriesAgree(cfg, b, c, at, j);
      CanonicalSlotIsUnique(cfg, b.ptrs[i], c.ptrs[i], at, j);
    }
  }

  lemma SameBits(cfg: Config, b: Block, c: Block, at: nat)
    requires cfg.Valid() && BlockInv(cfg, b, at) && BlockInv(cfg, c, at)
    requires Entries(b) == Entries(c)
    ensures forall j | 0 <= j < 256 && b.bits.on[j] :: c.bits.on[j]
  {
    forall j | 0 <= j < 256 && b.bits.on[j]
      ensures c.bits.on[j]
    {
      var p := At(b.bits, b.ptrs, j);
      var e := SomeEntry(cfg, p, at, j);
      Locate(cfg, b, at, e);
      assert c.ptrs != [];
      Locate(cfg, c, at, e);
    }
  }

  lemma SomeEntry(cfg: Config, p: Stored, at: nat, idx: nat) returns (e: Entry)
    requires cfg.Fits(at) && SlotInv(cfg, p, at, idx)
    ensures e in SlotEntries(p)
  {
    match p
    case Vals(es) => e := es[0];
    case Ln(c) =>
      assert Entries(c.block) != {};
      e :| e in Entries(c.block);
  }

  lemma SlotEntriesAgree(cfg: Config, b: Block, c: Block, at: nat, j: nat)
    requires cfg.Valid() && BlockInv(cfg, b, at) && BlockInv(cfg, c, at)
    requires Entries(b) == Entries(c)
    requires j < 256 && b.bits.on[j] && c.bits.on[j]
    ensures SlotEntries(At(b.bits, b.ptrs, j)) == SlotEntries(At(c.bits, c.ptrs, j))
  {
    LocateAll(cfg, b, at);
    LocateAll(cfg, c, at);
    forall e: Entry
      ensures e in EntriesAt(b, j) <==> e in EntriesAt(c, j)
    {
    }
  }

  lemma {:induction false} CanonicalSlotIsUnique(cfg: Config, p: Stored, q: Stored, at: nat, idx: nat)
    requires cfg.Valid() && cfg.Fits(at) && SlotInv(cfg, p, at, idx) && SlotInv(cfg, q, at, idx)
    requires SlotEntries(p) == SlotEntries(q)
    ensures p == q
    decreases p
  {
    match (p, q)
    case (Vals(es), Vals(fs)) => SortedIsUnique(cfg, es, fs);
    case (Ln(c), Ln(d)) => CanonicalIsUnique(cfg, c.block, d.block, at + cfg.width);
    case (Vals(es), Ln(d)) => BucketSize(es);
    case (Ln(c), Vals(fs)) => BucketSize(fs);
  }

  lemma {:induction false} BucketSize(es: seq<Entry>)
    ensures |ToSet(es)| <= |es|
  {
    if es == [] {
    } else {
      BucketSize(es[1..]);
      assert ToSet(es) == {es[0]} + ToSet(es[1..]);
    }
  }

  lemma TailIsRest(cfg: Config, es: seq<Entry>)
    requires cfg.Valid() && Sorted(cfg, es) && es != []
    ensures ToSet(es[1..]) == ToSet(es) - {es[0]}
  {
    assert es[0] !in es[1..];
    assert es == [es[0]] + es[1..];
  }

  lemma {:induction false} SortedIsUnique(cfg: Config, es: seq<Entry>, fs: seq<Entry>)
    requires cfg.Valid() && Sorted(cfg, es) && Sorted(cfg, fs)
    requires ToSet(es) == ToSet(fs)
    ensures es == fs
  {
    assert forall e :: e in es <==> e in ToSet(es);
    assert forall e :: e in fs <==> e in ToSet(fs);
    assert |es| > 0 ==> es[0] in fs;
    assert |fs| > 0 ==> fs[0] in es;
    if es == [] {
    } else {
      assert es[0] == fs[0];
      TailIsRest(cfg, es);
      TailIsRest(cfg, fs);
      SortedIsUnique(cfg, es[1..], fs[1..]);
    }
  }

  // ---- meaning of nodes ----

  /** The block a pointer stands for, whether it is loaded, cached or modified. */
  ghost function ErasePtr(p: Pointer): Stored
    decreases p
  {
    match p
    case Values(es) => Vals(es)
    case Link(c, _) => Ln(c)
    case Dirty(n) => Ln(Cid(Erase(n)))
  }

  ghost function Erase(n: Node): (b: Block)
    ensures b.bits == n.bits && |b.ptrs| == |n.pointers|
    decreases n
  {
    Block(n.bits, seq(|n.pointers|, i requires 0 <= i < |n.pointers| => ErasePtr(n.pointers[i])))
  }

  /** No modified child directly below. */
  predicate Clean(n: Node) {
    forall i | 0 <= i < |n.pointers| :: !n.pointers[i].Dirty?
  }

  /** Every cached node is the node its link's CID names. */
  ghost predicate PtrCoherent(p: Pointer)
    decreases p
  {
    match p
    case Values(_) => true
    case Link(c, cache) => cache.Some? ==> Erase(cache.value) == c.block && Clean(cache.value) && Coherent(cache.value)
    case Dirty(n) => Coherent(n)
  }

  ghost predicate Coherent(n: Node)
    decreases n
  {
    forall i | 0 <= i < |n.pointers| :: PtrCoherent(n.pointers[i])
  }

  /** Every block below is present in the store. */
  ghost predicate Resolvable(s: Store, b: Block)
    decreases b
  {
    forall i | 0 <= i < |b.ptrs| && b.ptrs[i].Ln? :: b.ptrs[i].cid in s && Resolvable(s, b.ptrs[i].cid.block)
  }

  ghost predicate PtrResolvable(s: Store, p: Pointer)
    decreases p
  {
    match p
    case Values(_) => true
    case Link(c, _) => c in s && Resolvable(s, c.block)
    case Dirty(n) => NodeResolvable(s, n)
  }

  /** Every block a walk of this node could load is present in the store. */
  ghost predicate NodeResolvable(s: Store, n: Node)
    decreases n
  {
    forall i | 0 <= i < |n.pointers| :: PtrResolvable(s, n.pointers[i])
  }

  lemma CleanResolvable(s: Store, n: Node)
    requires Clean(n) && Resolvable(s, Erase(n))
    ensures NodeResolvable(s, n)
  {
    forall i | 0 <= i < |n.pointers|
      ensures PtrResolvable(s, n.pointers[i])
    {
      assert Erase(n).ptrs[i] == ErasePtr(n.pointers[i]);
    }
  }

  /** Deserialising a block: links come back with empty caches. */
  function FromBlock(b: Block): (n: Node)
    ensures Erase(n) == b && Clean(n) && Coherent(n)
  {
    var n := Node(b.bits, seq(|b.ptrs|, i requires 0 <= i < |b.ptrs| => FromStored(b.ptrs[i])));
    assert Erase(n).ptrs == b.ptrs;
    n
  }

  function FromStored(p: Stored): (q: Pointer)
    ensures ErasePtr(q) == p && !q.Dirty? && PtrCoherent(q)
  {
    match p
    case Vals(es) => Values(es)
    case Ln(c) => Link(c, None)
  }

  lemma EraseAt(n: Node, j: nat)
    requires j < 256 && n.bits.on[j] && |n.pointers| == Size(n.bits)
    ensures At(Erase(n).bits, Erase(n).ptrs, j) == ErasePtr(At(n.bits, n.pointers, j))
  {
    RankBelowSize(n.bits, j);
  }
}
