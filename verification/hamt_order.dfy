/** The order in which `for_each` meets the entries: by the slots on their way down, within a bucket by key. */
module HamtOrder {
  import opened Common
  import opened Bitfields
  import opened HamtModel
  import opened HamtTree

  /** `e` comes before `f` below a node: its slot is lower, or in their common slot it comes before. */
  ghost predicate Before(cfg: Config, b: Block, at: nat, e: Entry, f: Entry)
    requires cfg.Valid() && BlockInv(cfg, b, at) && cfg.Fits(at)
    decreases b
  {
    var i, j := cfg.Slot(e.key, at), cfg.Slot(f.key, at);
    || i < j
    || (i == j < 256 && b.bits.on[i] && BeforeIn(cfg, At(b.bits, b.ptrs, i), at, i, e, f))
  }

  ghost predicate BeforeIn(cfg: Config, p: Stored, at: nat, idx: nat, e: Entry, f: Entry)
    requires cfg.Valid() && cfg.Fits(at) && SlotInv(cfg, p, at, idx)
    decreases p
  {
    match p
    case Vals(_) => cfg.less(e.key, f.key)
    case Ln(c) => cfg.Fits(at + cfg.width) && Before(cfg, c.block, at + cfg.width, e, f)
  }

  /** Two entries below a node are met in that order. */
  ghost predicate InOrder(cfg: Config, b: Block, at: nat, e: Entry, f: Entry)
    requires cfg.Valid() && BlockInv(cfg, b, at)
  {
    cfg.Fits(at) && Before(cfg, b, at, e, f)
  }

  /** Every pair of entries of a canonical node is listed in order. */
  lemma {:induction false} ListedInOrder(cfg: Config, b: Block, at: nat, i: nat, j: nat)
    requires cfg.Valid() && BlockInv(cfg, b, at) && i < j < |Listing(b.ptrs)|
    ensures InOrder(cfg, b, at, Listing(b.ptrs)[i], Listing(b.ptrs)[j])
    decreases b, 1, |b.ptrs|
  {
    assert b.ptrs[..|b.ptrs|] == b.ptrs;
    PrefixInOrder(cfg, b, at, |b.ptrs|, i, j);
  }

  lemma CalledInOrder(cfg: Config, b: Block, calls: seq<Entry>)
    requires cfg.Valid() && BlockInv(cfg, b, 0) && calls <= Listing(b.ptrs)
    ensures forall i, j | 0 <= i < j < |calls| :: InOrder(cfg, b, 0, calls[i], calls[j])
  {
    forall i, j | 0 <= i < j < |calls|
      ensures InOrder(cfg, b, 0, calls[i], calls[j])
    {
      ListedInOrder(cfg, b, 0, i, j);
    }
  }

  lemma {:induction false} PrefixInOrder(cfg: Config, b: Block, at: nat, n: nat, i: nat, j: nat)
    requires cfg.Valid() && BlockInv(cfg, b, at) && n <= |b.ptrs| && i < j < |Listing(b.ptrs[..n])|
    ensures InOrder(cfg, b, at, Listing(b.ptrs[..n])[i], Listing(b.ptrs[..n])[j])
    decreases b, 0, n
  {
    var init, p := b.ptrs[..n - 1], b.ptrs[n - 1];
    TakeSnoc(b.ptrs, n - 1);
    ListingSnoc(init, p);
    if j < |Listing(init)| {
      PrefixInOrder(cfg, b, at, n - 1, i, j);
    } else {
      LastInOrder(cfg, b, at, n - 1, i, j);
    }
  }

  lemma {:induction false} LastInOrder(cfg: Config, b: Block, at: nat, n: nat, i: nat, j: nat)
    requires cfg.Valid() && BlockInv(cfg, b, at) && n < |b.ptrs| && i < j
    requires |Listing(b.ptrs[..n])| <= j < |Listing(b.ptrs[..n]) + SlotListing(b.ptrs[n])|
    ensures var l := Listing(b.ptrs[..n]) + SlotListing(b.ptrs[n]); InOrder(cfg, b, at, l[i], l[j])
    decreases b, 0, n
  {
    var idx := SlotOf(cfg, b, at, n);
    var m, here := |Listing(b.ptrs[..n])|, SlotListing(b.ptrs[n]);
    if i < m {
      AcrossSlots(cfg, b, at, n, idx, Listing(b.ptrs[..n])[i], here[j - m]);
    } else {
      SlotInOrder(cfg, b.ptrs[n], at, idx, i - m, j - m);
      WithinSlot(cfg, b, at, idx, here[i - m], here[j - m]);
    }
  }

  lemma AcrossSlots(cfg: Config, b: Block, at: nat, n: nat, idx: nat, e: Entry, f: Entry)
    requires cfg.Valid() && cfg.Fits(at) && BlockInv(cfg, b, at) && n < |b.ptrs| && e in Listing(b.ptrs[..n])
    requires idx < 256 && Rank(b.bits, idx) == n && SlotInv(cfg, b.ptrs[n], at, idx) && f in SlotListing(b.ptrs[n])
    ensures InOrder(cfg, b, at, e, f)
  {
    SlotsAscend(cfg, b, at, n, idx, e);
    InItsSlot(cfg, b.ptrs[n], at, idx, f);
  }

  lemma WithinSlot(cfg: Config, b: Block, at: nat, idx: nat, e: Entry, f: Entry)
    requires cfg.Valid() && cfg.Fits(at) && BlockInv(cfg, b, at) && idx < 256 && b.bits.on[idx]
    requires e in SlotListing(At(b.bits, b.ptrs, idx)) && f in SlotListing(At(b.bits, b.ptrs, idx))
    requires BeforeIn(cfg, At(b.bits, b.ptrs, idx), at, idx, e, f)
    ensures InOrder(cfg, b, at, e, f)
  {
    InItsSlot(cfg, At(b.bits, b.ptrs, idx), at, idx, e);
    InItsSlot(cfg, At(b.bits, b.ptrs, idx), at, idx, f);
  }

  lemma {:induction false} SlotInOrder(cfg: Config, p: Stored, at: nat, idx: nat, i: nat, j: nat)
    requires cfg.Valid() && cfg.Fits(at) && SlotInv(cfg, p, at, idx) && i < j < |SlotListing(p)|
    ensures BeforeIn(cfg, p, at, idx, SlotListing(p)[i], SlotListing(p)[j])
    decreases p, 0, 0
  {
    match p
    case Vals(es) =>
    case Ln(c) => ListedInOrder(cfg, c.block, at + cfg.width, i, j);
  }

  /** The bit that a pointer belongs to. */
  lemma SlotOf(cfg: Config, b: Block, at: nat, n: nat) returns (idx: nat)
    requires BlockInv(cfg, b, at) && n < |b.ptrs|
    ensures idx < 256 && b.bits.on[idx] && Rank(b.bits, idx) == n && At(b.bits, b.ptrs, idx) == b.ptrs[n]
    ensures cfg.Fits(at) && SlotInv(cfg, b.ptrs[n], at, idx)
  {
    assert b.bits.on[..256] == b.bits.on;
    idx := Select(b.bits, n, 256);
    assert At(b.bits, b.ptrs, idx) == b.ptrs[n];
  }

  lemma InItsSlot(cfg: Config, p: Stored, at: nat, idx: nat, e: Entry)
    requires cfg.Valid() && cfg.Fits(at) && SlotInv(cfg, p, at, idx) && e in SlotListing(p)
    ensures cfg.Slot(e.key, at) == idx
  {
    SlotListingIsComplete(cfg, p, at, idx);
    assert e in ToSet(SlotListing(p));
  }

  /** What is listed before a pointer is in lower slots. */
  lemma SlotsAscend(cfg: Config, b: Block, at: nat, n: nat, idx: nat, e: Entry)
    requires cfg.Valid() && cfg.Fits(at) && BlockInv(cfg, b, at) && n <= |b.ptrs| && e in Listing(b.ptrs[..n])
    requires idx < 256 && Rank(b.bits, idx) == n
    ensures cfg.Slot(e.key, at) < idx
  {
    var m := ListedUnder(b.ptrs[..n], e);
    var lower := SlotOf(cfg, b, at, m);
    InItsSlot(cfg, b.ptrs[m], at, lower, e);
    RankMonotone(b.bits, if lower < idx then lower else idx, if lower < idx then idx else lower);
  }

  lemma {:induction false} ListedUnder(ps: seq<Stored>, e: Entry) returns (m: nat)
    requires e in Listing(ps)
    ensures m < |ps| && e in SlotListing(ps[m])
  {
    var n := |ps| - 1;
    if e in SlotListing(ps[n]) {
      m := n;
    } else {
      m := ListedUnder(ps[..n], e);
    }
  }
}
