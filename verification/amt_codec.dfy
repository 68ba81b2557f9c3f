/**
 The stored form of an AMT node: a bitmap of occupied slots and the occupants in order.
 A bitmap byte is represented by its eight bits, least significant first.
 */
module AmtCodec {
  import opened Common
  import opened AmtIndex

  type Value(==, !new)

  type Byte = b: seq<bool> | |b| == 8 witness ZeroByte()

  function ZeroByte(): (b: seq<bool>)
    ensures |b| == 8
  {
    [false, false, false, false, false, false, false, false]
  }

  /** A node with every modification flushed; a CID stands for the node its block encodes. */
  datatype Flat = Links(links: seq<Option<Cid>>) | Leaf(vals: seq<Option<Value>>)
  datatype Cid = Cid(node: Flat)

  /** `CollapsedNode`: what is written to and read from the blockstore. */
  datatype Collapsed = Collapsed(bmap: seq<Byte>, cids: seq<Cid>, vals: seq<Value>)

  datatype Error = Cached | LinksAndValues | BitmapLength | MoreBitsThanItems | FewerBitsThanItems |
                   CidNotFound(cid: Cid) | OutOfRange(i: nat) | MaxHeight | RootNotFound |
                   CallbackFailed
  datatype Result<+T> = Ok(value: T) | Err(error: Error)

  /** `bmap_bytes`. */
  function BmapBytes(w: nat): nat {
    if w <= 3 then 1 else Pow2(w - 3)
  }

  /** The occupants of a slot vector, in order. */
  function Somes<T>(slots: seq<Option<T>>): seq<T> {
    if slots == [] then []
    else
      var last := slots[|slots| - 1];
      Somes(slots[..|slots| - 1]) + (if last.Some? then [last.value] else [])
  }

  /** The occupant of a slot comes behind those of the slots before. */
  lemma {:induction false} SomesInOrder<T>(slots: seq<Option<T>>, i: nat)
    requires i < |slots| && slots[i].Some?
    ensures |Somes(slots[..i])| < |Somes(slots)| && Somes(slots)[|Somes(slots[..i])|] == slots[i].value
  {
    var n := |slots| - 1;
    if i == n {
    } else {
      SomesInOrder(slots[..n], i);
      assert slots[..n][..i] == slots[..i];
    }
  }

  predicate BitSet(bmap: seq<Byte>, i: nat)
    requires i < 8 * |bmap|
  {
    bmap[i / 8][i % 8]
  }

  /** The bitmap length `((len - 1) saturating / 8) + 1` used when writing. */
  function BytesFor(len: nat): nat {
    (if len == 0 then len else len - 1) / 8 + 1
  }

  /** The length written is the length `bmap_bytes` expects back: the least that holds a bit for each slot. */
  lemma BytesForWidth(w: nat)
    ensures BytesFor(Width(w)) == BmapBytes(w)
    ensures 8 * (BmapBytes(w) - 1) < Width(w) <= 8 * BmapBytes(w)
  {
    if w <= 3 {
      assert Pow2(0) == 1 && Pow2(1) == 2 && Pow2(2) == 4 && Pow2(3) == 8;
    } else {
      Pow2Add(3, w - 3);
      assert Pow2(3) == 8;
    }
  }

  /** `bmap` marks exactly the occupied slots. */
  ghost predicate Marks<T>(bmap: seq<Byte>, slots: seq<Option<T>>) {
    && |bmap| == BytesFor(|slots|)
    && forall i | 0 <= i < 8 * |bmap| :: BitSet(bmap, i) <==> i < |slots| && slots[i].Some?
  }

  /** A bitmap of given length is determined by the slots it marks. */
  lemma MarksUnique<T>(a: seq<Byte>, b: seq<Byte>, slots: seq<Option<T>>)
    requires Marks(a, slots) && Marks(b, slots)
    ensures a == b
  {
    forall k | 0 <= k < |a|
      ensures a[k] == b[k]
    {
      forall j | 0 <= j < 8
        ensures a[k][j] == b[k][j]
      {
        var i := 8 * k + j;
        assert i / 8 == k && i % 8 == j;
        assert BitSet(a, i) == BitSet(b, i);
      }
    }
  }

  /** Occupancy pattern and occupants determine a slot vector. */
  lemma {:induction false} SomesUnique<T>(a: seq<Option<T>>, b: seq<Option<T>>)
    requires |a| == |b| && Somes(a) == Somes(b)
    requires forall i | 0 <= i < |a| :: a[i].Some? <==> b[i].Some?
    ensures a == b
  {
    if a == [] {
    } else {
      var n := |a| - 1;
      if a[n].Some? {
        assert Somes(a)[..|Somes(a)| - 1] == Somes(a[..n]);
        assert Somes(b)[..|Somes(b)| - 1] == Somes(b[..n]);
        assert Somes(a)[|Somes(a)| - 1] == a[n].value;
        assert Somes(b)[|Somes(b)| - 1] == b[n].value;
      } else {
        assert Somes(a) == Somes(a[..n]) && Somes(b) == Somes(b[..n]);
      }
      SomesUnique(a[..n], b[..n]);
      assert a == a[..n] + [a[n]] && b == b[..n] + [b[n]];
    }
  }

  /** The loop of Node::serialize over one slot vector. */
  method PackSlots<T>(slots: seq<Option<T>>) returns (bmap: seq<Byte>, items: seq<T>)
    ensures Marks(bmap, slots) && items == Somes(slots)
    ensures |slots| <= 8 * |bmap| && (|bmap| == 1 || 8 * (|bmap| - 1) < |slots|)
    ensures forall i | 0 <= i < |slots| :: slots[i].Some? <==> bmap[i / 8][i % 8]
  {
    items := [];
    bmap := seq(BytesFor(|slots|), _ => ZeroByte());
    for i := 0 to |slots|
      invariant |bmap| == BytesFor(|slots|)
      invariant items == Somes(slots[..i])
      invariant forall k | 0 <= k < 8 * |bmap| :: BitSet(bmap, k) <==> k < i && slots[k].Some?
    {
      assert slots[..i + 1][..i] == slots[..i];
      if slots[i].Some? {
        items := items + [slots[i].value];
        bmap := SetBit(bmap, i);
      }
    }
    assert slots[..|slots|] == slots;
  }

  /** `bmap[i / 8] |= 1 << (i % 8)`. */
  function SetBit(bmap: seq<Byte>, i: nat): (r: seq<Byte>)
    requires i < 8 * |bmap|
    ensures |r| == |bmap|
    ensures forall k | 0 <= k < 8 * |bmap| :: BitSet(r, k) <==> k == i || BitSet(bmap, k)
  {
    bmap[i / 8 := bmap[i / 8][i % 8 := true]]
  }

  /** How many of the first `n` bits are set. */
  function BitsSet(bmap: seq<Byte>, n: nat): nat
    requires n <= 8 * |bmap|
  {
    if n == 0 then 0 else BitsSet(bmap, n - 1) + (if BitSet(bmap, n - 1) then 1 else 0)
  }

  /** The loop of CollapsedNode::expand: items are dealt to the marked slots, and must be used up. */
  method DealSlots<T>(w: nat, bmap: seq<Byte>, items: seq<T>) returns (r: Result<seq<Option<T>>>)
    requires |bmap| == BmapBytes(w) && Width(w) <= 8 * |bmap|
    ensures r.Ok? <==> BitsSet(bmap, Width(w)) == |items|
    ensures r.Ok? ==> |r.value| == Width(w) && Somes(r.value) == items
    ensures r.Ok? ==> forall i | 0 <= i < Width(w) :: r.value[i].Some? <==> bmap[i / 8][i % 8]
    ensures BitsSet(bmap, Width(w)) > |items| ==> r == Err(MoreBitsThanItems)
    ensures BitsSet(bmap, Width(w)) < |items| ==> r == Err(FewerBitsThanItems)
  {
    var slots := [];
    var next := 0;
    for i := 0 to Width(w)
      invariant |slots| == i && next == BitsSet(bmap, i) <= |items|
      invariant Somes(slots) == items[..next]
      invariant forall k | 0 <= k < i :: slots[k].Some? <==> BitSet(bmap, k)
    {
      var slot := None;
      if BitSet(bmap, i) {
        if next == |items| {
          BitsSetMonotone(bmap, i + 1, Width(w));
          return Err(MoreBitsThanItems);
        }
        slot := Some(items[next]);
        assert items[..next + 1] == items[..next] + [items[next]];
        next := next + 1;
      }
      assert (slots + [slot])[..i] == slots;
      slots := slots + [slot];
    }
    if next < |items| {
      return Err(FewerBitsThanItems);
    }
    assert items[..next] == items;
    r := Ok(slots);
  }

  lemma {:induction false} BitsSetMonotone(bmap: seq<Byte>, m: nat, n: nat)
    requires m <= n <= 8 * |bmap|
    ensures BitsSet(bmap, m) <= BitsSet(bmap, n)
    decreases n
  {
    if m >= n {
    } else {
      BitsSetMonotone(bmap, m, n - 1);
    }
  }

  lemma {:induction false} MarkedCount<T>(bmap: seq<Byte>, slots: seq<Option<T>>, n: nat)
    requires Marks(bmap, slots) && n <= |slots| <= 8 * |bmap|
    ensures BitsSet(bmap, n) == |Somes(slots[..n])|
  {
    if n == 0 {
    } else {
      MarkedCount(bmap, slots, n - 1);
      assert slots[..n][..n - 1] == slots[..n - 1];
    }
  }

  /** Node::serialize of a node without modified links. */
  ghost predicate Encodes(c: Collapsed, f: Flat) {
    match f
    case Leaf(vals) => Marks(c.bmap, vals) && c.vals == Somes(vals) && c.cids == []
    case Links(links) => Marks(c.bmap, links) && c.cids == Somes(links) && c.vals == []
  }

  /** One node has one encoding. */
  lemma EncodingUnique(c: Collapsed, d: Collapsed, f: Flat)
    requires Encodes(c, f) && Encodes(d, f)
    ensures c == d
  {
    match f
    case Leaf(vals) => MarksUnique(c.bmap, d.bmap, vals);
    case Links(links) => MarksUnique(c.bmap, d.bmap, links);
  }

  /** An empty node of links, which the stored form cannot tell from an empty leaf. */
  predicate EmptyLinks(f: Flat) {
    f.Links? && forall i | 0 <= i < |f.links| :: f.links[i].None?
  }

  function SlotCount(f: Flat): nat {
    if f.Links? then |f.links| else |f.vals|
  }

  /** CollapsedNode::expand: the order of its checks, and the one node it can return. */
  method Expand(w: nat, c: Collapsed) returns (r: Result<Flat>)
    ensures c.cids != [] && c.vals != [] ==> r == Err(LinksAndValues)
    ensures (c.cids == [] || c.vals == []) && |c.bmap| != BmapBytes(w) ==> r == Err(BitmapLength)
    ensures r.Ok? ==> SlotCount(r.value) == Width(w) && (r.value.Links? <==> c.cids != [])
    ensures r.Ok? ==> |c.bmap| == BmapBytes(w) && Width(w) <= 8 * |c.bmap|
    ensures r.Ok? ==> BitsSet(c.bmap, Width(w)) == |c.cids| + |c.vals|
    ensures r.Ok? ==> match r.value
                      case Links(links) =>
                        Somes(links) == c.cids && forall i | 0 <= i < Width(w) :: links[i].Some? <==> BitSet(c.bmap, i)
                      case Leaf(vals) =>
                        Somes(vals) == c.vals && forall i | 0 <= i < Width(w) :: vals[i].Some? <==> BitSet(c.bmap, i)
    ensures forall f | Encodes(c, f) && SlotCount(f) == Width(w) && !EmptyLinks(f) :: r == Ok(f)
  {
    if c.cids != [] && c.vals != [] {
      return Err(LinksAndValues);
    }
    BytesForWidth(w);
    if BmapBytes(w) != |c.bmap| {
      return Err(BitmapLength);
    }
    if c.cids != [] {
      var links := DealSlots(w, c.bmap, c.cids);
      r := if links.Ok? then Ok(Links(links.value)) else Err(links.error);
    } else {
      var vals := DealSlots(w, c.bmap, c.vals);
      r := if vals.Ok? then Ok(Leaf(vals.value)) else Err(vals.error);
    }
    forall f | Encodes(c, f) && SlotCount(f) == Width(w) && !EmptyLinks(f)
      ensures r == Ok(f)
    {
      RoundTripStep(w, c, f);
      match f
      case Leaf(vals) => SomesUnique(r.value.vals, vals);
      case Links(links) => SomesUnique(r.value.links, links);
    }
  }

  lemma RoundTripStep(w: nat, c: Collapsed, f: Flat)
    requires Encodes(c, f) && SlotCount(f) == Width(w) && !EmptyLinks(f)
    ensures |c.bmap| == BmapBytes(w) && Width(w) <= 8 * |c.bmap|
    ensures BitsSet(c.bmap, Width(w)) == |c.cids| + |c.vals|
    ensures f.Links? <==> c.cids != []
  {
    BytesForWidth(w);
    match f
    case Leaf(vals) =>
      MarkedCount(c.bmap, vals, |vals|);
      assert vals[..|vals|] == vals;
    case Links(links) =>
      MarkedCount(c.bmap, links, |links|);
      assert links[..|links|] == links;
      var i :| 0 <= i < |links| && links[i].Some?;
      SomesNonEmpty(links, i);
  }

  lemma {:induction false} SomesNonEmpty<T>(slots: seq<Option<T>>, i: nat)
    requires i < |slots| && slots[i].Some?
    ensures Somes(slots) != []
  {
    if i >= |slots| - 1 {
    } else {
      SomesNonEmpty(slots[..|slots| - 1], i);
    }
  }

  lemma KindOfBlock(c: Collapsed, f: Flat)
    requires Encodes(c, f) && !EmptyLinks(f)
    ensures f.Links? <==> c.cids != []
  {
    if f.Links? {
      var i :| 0 <= i < |f.links| && f.links[i].Some?;
      SomesNonEmpty(f.links, i);
    }
  }

  lemma SlotsOfBlock<T>(bmap: seq<Byte>, a: seq<Option<T>>, b: seq<Option<T>>)
    requires Marks(bmap, a) && Marks(bmap, b) && |a| == |b| && Somes(a) == Somes(b)
    ensures a == b
  {
    forall i | 0 <= i < |a|
      ensures a[i].Some? <==> b[i].Some?
    {
      assert i < 8 * |bmap|;
      assert BitSet(bmap, i) <==> a[i].Some?;
    }
    SomesUnique(a, b);
  }

  /** A block encodes one node of a given size, save that an empty node of links reads as an empty leaf. */
  lemma DecodingUnique(c: Collapsed, f: Flat, g: Flat)
    requires Encodes(c, f) && Encodes(c, g) && SlotCount(f) == SlotCount(g)
    ensures f == g || EmptyLinks(f) || EmptyLinks(g)
  {
    if !EmptyLinks(f) && !EmptyLinks(g) {
      KindOfBlock(c, f);
      KindOfBlock(c, g);
      if f.Links? {
        SlotsOfBlock(c.bmap, f.links, g.links);
      } else {
        SlotsOfBlock(c.bmap, f.vals, g.vals);
      }
    }
  }

  /** An empty node of links and an empty leaf have one encoding. */
  lemma EmptyNodesShareBlock(c: Collapsed, vals: seq<Option<Value>>, links: seq<Option<Cid>>)
    requires |vals| == |links| && (forall i | 0 <= i < |vals| :: vals[i].None? && links[i].None?)
    requires Encodes(c, Leaf(vals))
    ensures Encodes(c, Links(links)) && EmptyLinks(Links(links))
  {
    NoneGiveNothing(vals);
    NoneGiveNothing(links);
  }

  lemma {:induction false} NoneGiveNothing<T>(slots: seq<Option<T>>)
    requires forall i | 0 <= i < |slots| :: slots[i].None?
    ensures Somes(slots) == []
  {
    if slots == [] {
    } else {
      NoneGiveNothing(slots[..|slots| - 1]);
    }
  }
}
