/** What a refused insertion costs: the bucket it would have split. */
module HamtRefuse {

  import opened Common
  import opened Bitfields
  import opened HamtModel
  import opened HamtSeen
  import opened HamtSet
  import opened HamtApi

  /** The two keys take the same slot at every depth but the last. */
  ghost predicate AgreeEarly(cfg: Config, a: Key, b: Key, at: nat)
    requires cfg.width >= 1
    decreases 256 - at
  {
    cfg.Fits(at + cfg.width) ==> cfg.Slot(a, at) == cfg.Slot(b, at) && AgreeEarly(cfg, a, b, at + cfg.width)
  }

  /** The entries that only the last chunk may separate from `key`. */
  ghost function Near(cfg: Config, es: set<Entry>, key: Key, at: nat): set<Entry>
    requires cfg.width >= 1
  {
    set e | e in es && AgreeEarly(cfg, key, e.key, at)
  }

  lemma NearSlot(cfg: Config, b: Block, at: nat, key: Key)
    requires cfg.Valid() && BlockInv(cfg, b, at) && cfg.Fits(at + cfg.width)
    ensures cfg.Fits(at) && cfg.Slot(key, at) < 256
    ensures Near(cfg, Entries(b), key, at) == Near(cfg, EntriesAt(b, cfg.Slot(key, at)), key, at + cfg.width)
  {
    cfg.SlotBound(key, at);
    LocateAll(cfg, b, at);
    var part := EntriesAt(b, cfg.Slot(key, at));
    forall e: Entry
      ensures e in Near(cfg, Entries(b), key, at) <==> e in Near(cfg, part, key, at + cfg.width)
    {
      if e in part {
        assert SlotInv(cfg, At(b.bits, b.ptrs, cfg.Slot(key, at)), at, cfg.Slot(key, at));
      }
    }
  }

  /** A bucket is at the bottom exactly if more than three keys agree on every chunk but the last. */
  lemma {:induction false} BottomIff(cfg: Config, b: Block, at: nat, key: Key)
    requires cfg.Valid() && BlockInv(cfg, b, at) && cfg.Fits(at + cfg.width) && Crowd(cfg, Entries(b), key, at) != {}
    ensures AtBottom(cfg, b, at, key) <==> |Near(cfg, Entries(b), key, at)| > MAX_ARRAY_WIDTH
    decreases b
  {
    NearSlot(cfg, b, at, key);
    CrowdBelow(cfg, b, at, key);
    var idx, next := cfg.Slot(key, at), at + cfg.width;
    var p := At(b.bits, b.ptrs, idx);
    RankBelowSize(b.bits, idx);
    SlotBottom(cfg, p, at, next, idx, key);
  }

  /** A key with a crowd has its slot in use, and the crowd in it. */
  lemma CrowdBelow(cfg: Config, b: Block, at: nat, key: Key)
    requires cfg.Valid() && BlockInv(cfg, b, at) && cfg.Fits(at) && Crowd(cfg, Entries(b), key, at) != {}
    ensures cfg.Slot(key, at) < 256 && b.bits.on[cfg.Slot(key, at)]
    ensures SlotInv(cfg, At(b.bits, b.ptrs, cfg.Slot(key, at)), at, cfg.Slot(key, at))
    ensures Crowd(cfg, SlotEntries(At(b.bits, b.ptrs, cfg.Slot(key, at))), key, at + cfg.width) != {}
  {
    var e := CrowdMember(cfg, Entries(b), at, key);
    Locate(cfg, b, at, e);
    InCrowd(cfg, EntriesAt(b, cfg.Slot(key, at)), key, at + cfg.width, e);
  }

  lemma CrowdMember(cfg: Config, es: set<Entry>, at: nat, key: Key) returns (e: Entry)
    requires cfg.width >= 1 && cfg.Fits(at) && Crowd(cfg, es, key, at) != {}
    ensures e in es && e.key != key && cfg.Slot(e.key, at) == cfg.Slot(key, at)
    ensures Agree(cfg, key, e.key, at + cfg.width)
  {
    e :| e in Crowd(cfg, es, key, at);
  }

  lemma InCrowd(cfg: Config, es: set<Entry>, key: Key, at: nat, e: Entry)
    requires cfg.width >= 1 && e in es && e.key != key && Agree(cfg, key, e.key, at)
    ensures e in Crowd(cfg, es, key, at)
  {
  }

  /** There is no node behind the last chunk. */
  lemma EmptyBeyond(cfg: Config, b: Block, at: nat)
    requires BlockInv(cfg, b, at) && !cfg.Fits(at)
    ensures Entries(b) == {}
  {
  }

  lemma {:induction false} SlotBottom(cfg: Config, p: Stored, at: nat, next: nat, idx: nat, key: Key)
    requires cfg.Valid() && next == at + cfg.width && cfg.Fits(next) && SlotInv(cfg, p, at, idx)
    requires Crowd(cfg, SlotEntries(p), key, next) != {}
    ensures BottomAt(cfg, p, next, key) <==> |Near(cfg, SlotEntries(p), key, next)| > MAX_ARRAY_WIDTH
    decreases p
  {
    match p
    case Vals(es) =>
      BucketSize(es);
      SubsetSize(Near(cfg, SlotEntries(p), key, next), ToSet(es));
    case Ln(c) =>
      if cfg.Fits(next + cfg.width) {
        BottomIff(cfg, c.block, next, key);
      } else {
        assert Near(cfg, SlotEntries(p), key, next) == SlotEntries(p);
        LastLevel(cfg, c.block, next, key);
      }
  }

  /** Behind the last chunk there are only buckets. */
  lemma LastLevel(cfg: Config, b: Block, at: nat, key: Key)
    requires cfg.Valid() && BlockInv(cfg, b, at) && cfg.Fits(at) && !cfg.Fits(at + cfg.width)
    requires Crowd(cfg, Entries(b), key, at) != {}
    ensures AtBottom(cfg, b, at, key)
  {
    CrowdBelow(cfg, b, at, key);
    var p := At(b.bits, b.ptrs, cfg.Slot(key, at));
    if p.Ln? {
      EmptyBeyond(cfg, p.cid.block, at + cfg.width);
    }
  }

  /** The entries that a refused insertion drops, by the contents alone. */
  lemma GoneIs(cfg: Config, b: Block, key: Key)
    requires cfg.Valid() && BlockInv(cfg, b, 0) && |Crowd(cfg, Entries(b), key, 0)| >= MAX_ARRAY_WIDTH
    ensures var es := Entries(b);
            Gone(cfg, b, 0, key) ==
            if |Near(cfg, es, key, 0)| > MAX_ARRAY_WIDTH then {} else Crowd(cfg, es, key, 0)
  {
    BottomIff(cfg, b, 0, key);
  }

  /** Three keys that no depth separates from a fourth are lost when the fourth is set. */
  method SetLosesThree(store: BlockStore, cfg: Config, a: Key, b: Key, c: Key, d: Key, v: Value)
    returns (h: Hamt, r: Result<Option<Value>>)
    requires cfg.Valid() && Distinct4(a, b, c, d)
    requires Agree(cfg, d, a, 0) && Agree(cfg, d, b, 0) && Agree(cfg, d, c, 0)
    modifies store
    ensures fresh(h) && r == Err(MaxDepth) && SeenEntries(h.root) == {}
  {
    h := new Hamt.NewWithConfig(store, cfg);
    SetTwo(h, a, b, v);
    SetOk(h, c, v, {a, b});
    assert h.Contents() == map[a := v, b := v, c := v];
    KeysAreUnique(cfg, Erase(h.root), 0);
    ghost var es := Entries(Erase(h.root));
    EntriesOfMap(es);
    AllAgree(cfg, es, a, b, c, d, v);
    ghost var block := Erase(h.root);
    GoneIs(cfg, block, d);
    SubsetSize(Near(cfg, es, d, 0), es);
    r := h.Set(d, v);
  }

  lemma AllAgree(cfg: Config, es: set<Entry>, a: Key, b: Key, c: Key, d: Key, v: Value)
    requires cfg.Valid() && Distinct4(a, b, c, d) && es == EntriesOf(map[a := v, b := v, c := v])
    requires Agree(cfg, d, a, 0) && Agree(cfg, d, b, 0) && Agree(cfg, d, c, 0)
    ensures Crowd(cfg, es, d, 0) == es && |es| == MAX_ARRAY_WIDTH
  {
    var m := map[a := v, b := v, c := v];
    assert es == {Entry(a, m[a]), Entry(b, m[b]), Entry(c, m[c])};
  }
}
