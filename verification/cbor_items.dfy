/** What the scan recognises: the nested items behind the flat counter, both ways. */
module CborItems {

  import opened Common
  import opened CborHeader
  import opened IpldModel
  import opened CborScan

  datatype Item =
    | Prim(maj: nat, n: nat)
    | Blob(text: bool, bytes: seq<Byte>)
    | Arr(items: seq<Item>)
    | Dict(members: seq<Item>)
    | Tag(tag: nat, item: Item)
    | Ref(mark: Byte, cid: seq<Byte>)

  ghost predicate WellFormed(parse: CidParser, it: Item) {
    match it
    case Prim(maj, n) => maj in {0, 1, 7} && n < U64
    case Blob(_, bytes) => |bytes| < I64
    case Arr(items) => |items| < U64 && AllWellFormed(parse, items)
    case Dict(members) => |members| < U64 && |members| % 2 == 0 && AllWellFormed(parse, members)
    case Tag(tag, item) => tag != 42 && tag < U64 && WellFormed(parse, item)
    case Ref(_, cid) => |cid| < 100 && parse(cid).Some?
  }

  ghost predicate AllWellFormed(parse: CidParser, its: seq<Item>) {
    its != [] ==> WellFormed(parse, its[0]) && AllWellFormed(parse, its[1..])
  }

  /** The header of an item, the items nested in it, and what else follows the header. */
  function Head(it: Item): seq<Byte> {
    match it
    case Prim(maj, n) => if maj < 8 then EncodeHeader(maj, n) else []
    case Blob(text, bytes) => EncodeHeader(if text then 3 else 2, |bytes|) + bytes
    case Arr(items) => EncodeHeader(4, |items|)
    case Dict(members) => EncodeHeader(5, |members| / 2)
    case Tag(tag, _) => EncodeHeader(6, tag)
    case Ref(mark, cid) => EncodeHeader(6, 42) + (EncodeHeader(2, 1 + |cid|) + ([mark] + cid))
  }

  function Inner(it: Item): seq<Item> {
    match it
    case Arr(items) => items
    case Dict(members) => members
    case Tag(_, item) => [item]
    case _ => []
  }

  function Encode(it: Item): seq<Byte> {
    match it
    case Arr(items) => Head(it) + EncodeAll(items)
    case Dict(members) => Head(it) + EncodeAll(members)
    case Tag(_, item) => Head(it) + Encode(item)
    case _ => Head(it)
  }

  function EncodeAll(its: seq<Item>): seq<Byte> {
    if its == [] then [] else Encode(its[0]) + EncodeAll(its[1..])
  }

  /** The identifiers in an item, in the order they are written. */
  function Refs(parse: CidParser, it: Item): seq<Cid> {
    match it
    case Ref(_, cid) => if parse(cid).Some? then [parse(cid).value] else []
    case Arr(items) => AllRefs(parse, items)
    case Dict(members) => AllRefs(parse, members)
    case Tag(_, item) => Refs(parse, item)
    case _ => []
  }

  function AllRefs(parse: CidParser, its: seq<Item>): seq<Cid> {
    if its == [] then [] else Refs(parse, its[0]) + AllRefs(parse, its[1..])
  }

  // ---- flattening one level ----

  lemma {:induction false} EncodeConcat(a: seq<Item>, b: seq<Item>)
    ensures EncodeAll(a + b) == EncodeAll(a) + EncodeAll(b)
  {
    if a == [] {
      assert a + b == b;
    } else {
      EncodeConcat(a[1..], b);
      assert (a + b)[1..] == a[1..] + b;
      ConcatAssoc(Encode(a[0]), EncodeAll(a[1..]), EncodeAll(b));
    }
  }

  lemma {:induction false} RefsConcat(parse: CidParser, a: seq<Item>, b: seq<Item>)
    ensures AllRefs(parse, a + b) == AllRefs(parse, a) + AllRefs(parse, b)
  {
    if a == [] {
      assert a + b == b;
    } else {
      RefsConcat(parse, a[1..], b);
      assert (a + b)[1..] == a[1..] + b;
      ConcatAssoc(Refs(parse, a[0]), AllRefs(parse, a[1..]), AllRefs(parse, b));
    }
  }

  lemma {:induction false} WellFormedConcat(parse: CidParser, a: seq<Item>, b: seq<Item>)
    ensures AllWellFormed(parse, a + b) <==> AllWellFormed(parse, a) && AllWellFormed(parse, b)
  {
    if a == [] {
      assert a + b == b;
    } else {
      WellFormedConcat(parse, a[1..], b);
      assert (a + b)[1..] == a[1..] + b;
    }
  }

  lemma SingleItem(parse: CidParser, it: Item)
    ensures EncodeAll([it]) == Encode(it) && AllRefs(parse, [it]) == Refs(parse, it)
    ensures AllWellFormed(parse, [it]) <==> WellFormed(parse, it)
  {
    assert [it][1..] == [];
  }

  /** The link an item holds itself. */
  function Own(parse: CidParser, it: Item): seq<Cid> {
    match it
    case Ref(_, cid) => if parse(cid).Some? then [parse(cid).value] else []
    case _ => []
  }

  /** An item is its head followed by the items nested in it. */
  lemma Unnest(parse: CidParser, it: Item)
    ensures Encode(it) == Head(it) + EncodeAll(Inner(it))
    ensures Refs(parse, it) == Own(parse, it) + AllRefs(parse, Inner(it))
    ensures WellFormed(parse, it) ==> AllWellFormed(parse, Inner(it)) && |Head(it)| >= 1
  {
    if it.Tag? {
      SingleItem(parse, it.item);
    }
  }

  /** The items still to be read once the head of the first was. */
  function Next(its: seq<Item>): seq<Item>
    requires its != []
  {
    Inner(its[0]) + its[1..]
  }

  lemma FlattenBytes(parse: CidParser, its: seq<Item>, rest: seq<Byte>)
    requires its != []
    ensures EncodeAll(its) == Head(its[0]) + EncodeAll(Next(its))
    ensures EncodeAll(its) + rest == Head(its[0]) + (EncodeAll(Next(its)) + rest)
  {
    Unnest(parse, its[0]);
    EncodeConcat(Inner(its[0]), its[1..]);
    var h, i, r := Head(its[0]), EncodeAll(Inner(its[0])), EncodeAll(its[1..]);
    ConcatAssoc(h, i, r);
    ConcatAssoc(h, i + r, rest);
  }

  lemma FlattenRefs(parse: CidParser, its: seq<Item>)
    requires its != [] && AllWellFormed(parse, its)
    ensures AllWellFormed(parse, Next(its)) && WellFormed(parse, its[0]) && |Head(its[0])| >= 1
    ensures AllRefs(parse, its) == Own(parse, its[0]) + AllRefs(parse, Next(its))
  {
    Unnest(parse, its[0]);
    WellFormedConcat(parse, Inner(its[0]), its[1..]);
    RefsConcat(parse, Inner(its[0]), its[1..]);
    var o, i, r := Own(parse, its[0]), AllRefs(parse, Inner(its[0])), AllRefs(parse, its[1..]);
    ConcatAssoc(o, i, r);
  }

  lemma StepAfter(parse: CidParser, maj: nat, n: nat, tail: seq<Byte>, pending: nat)
    requires maj < 8 && n < U64
    ensures StepOver(parse, EncodeHeader(maj, n) + tail, pending) == StepBody(parse, maj, n, tail, pending)
  {
    HeaderDecodes(maj, n, tail);
  }

  /** Reading the head of an item leaves the scan waiting for the items nested in it. */
  lemma HeadSteps(parse: CidParser, it: Item, tail: seq<Byte>, pending: nat)
    requires WellFormed(parse, it) && pending + 1 + |Inner(it)| < U64
    ensures StepOver(parse, Head(it) + tail, pending) == Go(Own(parse, it), tail, pending + |Inner(it)|)
  {
    match it
    case Prim(maj, n) => StepAfter(parse, maj, n, tail, pending);
    case Blob(text, bytes) => BlobSteps(parse, text, bytes, tail, pending);
    case Arr(items) => StepAfter(parse, 4, |items|, tail, pending);
    case Dict(members) => StepAfter(parse, 5, |members| / 2, tail, pending);
    case Tag(tag, _) => StepAfter(parse, 6, tag, tail, pending);
    case Ref(mark, cid) => RefSteps(parse, mark, cid, tail, pending);
  }

  lemma BlobSteps(parse: CidParser, text: bool, bytes: seq<Byte>, tail: seq<Byte>, pending: nat)
    requires |bytes| < I64
    ensures StepOver(parse, Head(Blob(text, bytes)) + tail, pending) == Go([], tail, pending)
  {
    var maj := if text then 3 else 2;
    StepAfter(parse, maj, |bytes|, bytes + tail, pending);
    ConcatAssoc(EncodeHeader(maj, |bytes|), bytes, tail);
    DropPrefix(bytes, tail);
  }

  lemma RefSteps(parse: CidParser, mark: Byte, cid: seq<Byte>, tail: seq<Byte>, pending: nat)
    requires |cid| < 100 && parse(cid).Some?
    ensures StepOver(parse, Head(Ref(mark, cid)) + tail, pending) == Go([parse(cid).value], tail, pending)
  {
    var body := [mark] + cid;
    var n := |body|;
    var link := EncodeHeader(2, n) + (body + tail);
    assert Head(Ref(mark, cid)) + tail == EncodeHeader(6, 42) + link;
    StepAfter(parse, 6, 42, link, pending);
    HeaderDecodes(2, n, body + tail);
    assert (body + tail)[1..n] == cid && (body + tail)[n..] == tail;
  }

  lemma {:induction false} CountAtMostBytes(parse: CidParser, its: seq<Item>)
    requires AllWellFormed(parse, its)
    ensures |its| <= |EncodeAll(its)|
  {
    if its == [] {
    } else {
      CountAtMostBytes(parse, its[1..]);
      Unnest(parse, its[0]);
    }
  }

  lemma ScanUnfolds(parse: CidParser, data: seq<Byte>, remaining: nat, links: seq<Cid>, rest: seq<Byte>, left: nat)
    requires remaining > 0 && StepOver(parse, data, remaining - 1) == Go(links, rest, left)
    ensures ScanFrom(parse, data, remaining) == After(links, ScanFrom(parse, rest, left))
  {
  }

  /** The scan reads the encoding of well-formed items to its end and reports their links in order. */
  lemma {:induction false} ScanReadsItems(parse: CidParser, its: seq<Item>, rest: seq<Byte>)
    requires AllWellFormed(parse, its) && |EncodeAll(its)| < I64
    ensures ScanFrom(parse, EncodeAll(its) + rest, |its|) == Scan(AllRefs(parse, its), Done(rest))
    decreases |EncodeAll(its)|
  {
    if its == [] {
      assert EncodeAll(its) + rest == rest;
    } else {
      var next := Next(its);
      FlattenBytes(parse, its, rest);
      FlattenRefs(parse, its);
      CountAtMostBytes(parse, next);
      var data := EncodeAll(next) + rest;
      HeadSteps(parse, its[0], data, |its| - 1);
      ScanUnfolds(parse, Head(its[0]) + data, |its|, Own(parse, its[0]), data, |next|);
      ScanReadsItems(parse, next, rest);
    }
  }

  /** Any step the scan takes is over the head of an item whose members it then waits for. */
  lemma HeadBehind(parse: CidParser, data: seq<Byte>, pending: nat, more: seq<Item>) returns (it: Item)
    requires StepOver(parse, data, pending).Go? && StepOver(parse, data, pending).remaining == |more|
    requires AllWellFormed(parse, more) && pending + 1 < U64
    ensures WellFormed(parse, it) && Own(parse, it) == StepOver(parse, data, pending).links
    ensures data == Head(it) + StepOver(parse, data, pending).rest
    ensures |Inner(it)| + pending == |more| && Inner(it) == more[..|Inner(it)|]
  {
    HeaderIsCanonical(data);
    var h := DecodeHeader(data);
    if h.maj == 2 || h.maj == 3 {
      it := BlobBehind(parse, h.maj, h.extra, h.rest, pending);
    } else if h.maj == 6 && h.extra == 42 {
      it := RefBehind(parse, h.rest);
      ConcatAssoc(EncodeHeader(6, 42), RefBody(it), DecodeLink(parse, h.rest).rest);
    } else {
      it := NestBehind(parse, h.maj, h.extra, h.rest, pending, more);
    }
  }

  lemma BlobBehind(parse: CidParser, maj: nat, extra: nat, rest: seq<Byte>, pending: nat) returns (it: Item)
    requires (maj == 2 || maj == 3) && StepBody(parse, maj, extra, rest, pending).Go?
    ensures it.Blob? && WellFormed(parse, it)
    ensures EncodeHeader(maj, extra) + rest == Head(it) + StepBody(parse, maj, extra, rest, pending).rest
  {
    var bytes, tail := rest[..extra], rest[extra..];
    it := Blob(maj == 3, bytes);
    ConcatAssoc(EncodeHeader(maj, extra), bytes, tail);
    assert rest == bytes + tail;
  }

  /** The headers that bring no bytes of their own: numbers, containers and plain tags. */
  lemma NestBehind(parse: CidParser, maj: nat, extra: nat, rest: seq<Byte>, pending: nat, more: seq<Item>)
    returns (it: Item)
    requires maj < 8 && maj != 2 && maj != 3 && extra < U64 && !(maj == 6 && extra == 42)
    requires StepBody(parse, maj, extra, rest, pending) == Go([], rest, |more|) && AllWellFormed(parse, more)
    ensures WellFormed(parse, it) && !it.Ref? && Head(it) == EncodeHeader(maj, extra)
    ensures |Inner(it)| + pending == |more| && Inner(it) == more[..|Inner(it)|]
  {
    var n := |more| - pending;
    if maj == 6 {
      it := Tag(extra, more[0]);
    } else if maj == 4 || maj == 5 {
      WellFormedConcat(parse, more[..n], more[n..]);
      assert more == more[..n] + more[n..];
      it := if maj == 4 then Arr(more[..n]) else Dict(more[..n]);
    } else {
      it := Prim(maj, extra);
    }
  }

  function RefBody(it: Item): seq<Byte> {
    if it.Ref? then EncodeHeader(2, 1 + |it.cid|) + ([it.mark] + it.cid) else []
  }

  lemma RefBehind(parse: CidParser, data: seq<Byte>) returns (it: Item)
    requires DecodeLink(parse, data).Found?
    ensures it.Ref? && WellFormed(parse, it) && Own(parse, it) == [DecodeLink(parse, data).cid]
    ensures data == RefBody(it) + DecodeLink(parse, data).rest
  {
    HeaderIsCanonical(data);
    var h := DecodeHeader(data);
    var n := h.extra;
    it := Ref(h.rest[0], h.rest[1..n]);
    assert h.rest == ([h.rest[0]] + h.rest[1..n]) + h.rest[n..];
    ConcatAssoc(EncodeHeader(2, n), [h.rest[0]] + h.rest[1..n], h.rest[n..]);
  }

  /** A scan that ends in its data has read the encoding of well-formed items, whose links it reports. */
  lemma {:induction false} ScanAcceptsOnlyItems(parse: CidParser, data: seq<Byte>, remaining: nat)
    returns (its: seq<Item>)
    requires ScanFrom(parse, data, remaining).end.Done? && remaining < U64
    ensures |its| == remaining && AllWellFormed(parse, its)
    ensures data == EncodeAll(its) + ScanFrom(parse, data, remaining).end.rest
    ensures AllRefs(parse, its) == ScanFrom(parse, data, remaining).links
    decreases |data|
  {
    if remaining == 0 {
      its := [];
    } else {
      var pending := remaining - 1;
      var step := StepOver(parse, data, pending);
      StepBounded(parse, data, pending);
      var more := ScanAcceptsOnlyItems(parse, step.rest, step.remaining);
      var it := HeadBehind(parse, data, pending, more);
      its := Nest(parse, it, more, ScanFrom(parse, step.rest, step.remaining).end.rest);
    }
  }

  /** Puts the members an item waits for back into it. */
  lemma Nest(parse: CidParser, it: Item, more: seq<Item>, rest: seq<Byte>) returns (its: seq<Item>)
    requires WellFormed(parse, it) && AllWellFormed(parse, more)
    requires |Inner(it)| <= |more| && Inner(it) == more[..|Inner(it)|]
    ensures |its| == 1 + |more| - |Inner(it)| && AllWellFormed(parse, its)
    ensures EncodeAll(its) + rest == Head(it) + (EncodeAll(more) + rest)
    ensures AllRefs(parse, its) == Own(parse, it) + AllRefs(parse, more)
    ensures its[0] == it && Next(its) == more
  {
    var n := |Inner(it)|;
    its := [it] + more[n..];
    assert its[1..] == more[n..] && more == more[..n] + more[n..];
    WellFormedConcat(parse, more[..n], more[n..]);
    assert Next(its) == more;
    FlattenBytes(parse, its, rest);
    FlattenRefs(parse, its);
  }

  lemma StepBounded(parse: CidParser, data: seq<Byte>, pending: nat)
    requires pending < U64 && StepOver(parse, data, pending).Go?
    ensures StepOver(parse, data, pending).remaining < U64
  {
  }

  // ---- IPLD values ----

  type CidWriter = Cid -> seq<Byte>

  /** How a value is written: a link is tag 42 around its identifier behind a zero byte. */
  function ToItem(write: CidWriter, v: Ipld): Item {
    match v
    case Null => Prim(7, 22)
    case Boolean(b) => Prim(7, if b then 21 else 20)
    case Integer(n) => if n >= 0 then Prim(0, n) else Prim(1, -1 - n)
    case Text(utf8) => Blob(true, utf8)
    case Bytes(bytes) => Blob(false, bytes)
    case List(items) => Arr(ToItems(write, items))
    case Map(entries) => Dict(ToMembers(write, entries))
    case Link(cid) => Ref(0, write(cid))
  }

  function ToItems(write: CidWriter, vs: seq<Ipld>): seq<Item> {
    if vs == [] then [] else [ToItem(write, vs[0])] + ToItems(write, vs[1..])
  }

  function ToMembers(write: CidWriter, es: seq<Entry>): seq<Item> {
    if es == [] then [] else [Blob(true, es[0].key), ToItem(write, es[0].value)] + ToMembers(write, es[1..])
  }

  /** The one-byte forms, which fix the major types and the codes of the simple values. */
  lemma ShortForms(write: CidWriter)
    ensures Encode(ToItem(write, Integer(0))) == [0x00] && Encode(ToItem(write, Integer(-1))) == [0x20]
    ensures Encode(ToItem(write, Bytes([]))) == [0x40] && Encode(ToItem(write, Text([]))) == [0x60]
    ensures Encode(ToItem(write, List([]))) == [0x80] && Encode(ToItem(write, Map([]))) == [0xA0]
    ensures Encode(ToItem(write, Boolean(false))) == [0xF4] && Encode(ToItem(write, Boolean(true))) == [0xF5]
    ensures Encode(ToItem(write, Null)) == [0xF6]
  {
  }

  /** Sizes and integers fit machine words. */
  ghost predicate InRange(v: Ipld) {
    match v
    case Integer(n) => -U64 <= n < U64
    case Text(utf8) => |utf8| < I64
    case Bytes(bytes) => |bytes| < I64
    case List(items) => |items| < I64 && AllInRange(items)
    case Map(entries) => |entries| < I64 && EntriesInRange(entries)
    case _ => true
  }

  ghost predicate AllInRange(vs: seq<Ipld>) {
    vs != [] ==> InRange(vs[0]) && AllInRange(vs[1..])
  }

  ghost predicate EntriesInRange(es: seq<Entry>) {
    es != [] ==> |es[0].key| < I64 && InRange(es[0].value) && EntriesInRange(es[1..])
  }

  /** The identifiers are written short and parse back. */
  ghost predicate RoundTrips(parse: CidParser, write: CidWriter, links: seq<Cid>) {
    forall c | c in links :: |write(c)| < 100 && parse(write(c)) == Some(c)
  }

  lemma {:induction false} WrittenValue(parse: CidParser, write: CidWriter, v: Ipld)
    requires RoundTrips(parse, write, Links(v)) && InRange(v)
    ensures WellFormed(parse, ToItem(write, v)) && Refs(parse, ToItem(write, v)) == Links(v)
    decreases v
  {
    match v
    case List(items) => WrittenList(parse, write, items);
    case Map(entries) => WrittenMap(parse, write, entries);
    case Link(cid) => assert cid in Links(v);
    case _ =>
  }

  lemma {:induction false} WrittenList(parse: CidParser, write: CidWriter, vs: seq<Ipld>)
    requires RoundTrips(parse, write, LinksInList(vs)) && AllInRange(vs)
    ensures AllWellFormed(parse, ToItems(write, vs)) && |ToItems(write, vs)| == |vs|
    ensures AllRefs(parse, ToItems(write, vs)) == LinksInList(vs)
    decreases vs
  {
    if vs == [] {
    } else {
      assert forall c | c in Links(vs[0]) || c in LinksInList(vs[1..]) :: c in LinksInList(vs);
      WrittenValue(parse, write, vs[0]);
      WrittenList(parse, write, vs[1..]);
      assert ToItems(write, vs)[1..] == ToItems(write, vs[1..]);
    }
  }

  lemma {:induction false} WrittenMap(parse: CidParser, write: CidWriter, es: seq<Entry>)
    requires RoundTrips(parse, write, LinksInMap(es)) && EntriesInRange(es)
    ensures AllWellFormed(parse, ToMembers(write, es)) && |ToMembers(write, es)| == 2 * |es|
    ensures AllRefs(parse, ToMembers(write, es)) == LinksInMap(es)
    decreases es
  {
    if es == [] {
    } else {
      assert forall c | c in Links(es[0].value) || c in LinksInMap(es[1..]) :: c in LinksInMap(es);
      WrittenValue(parse, write, es[0].value);
      WrittenMap(parse, write, es[1..]);
      var key, value, more := Blob(true, es[0].key), ToItem(write, es[0].value), ToMembers(write, es[1..]);
      var all := ToMembers(write, es);
      assert all[0] == key && all[1..][0] == value && all[1..][1..] == more;
    }
  }

  /** Scanning a written value reports exactly its links, in order, and stops where it ends. */
  lemma ScanFindsLinks(parse: CidParser, write: CidWriter, v: Ipld, rest: seq<Byte>)
    requires RoundTrips(parse, write, Links(v)) && InRange(v) && |Encode(ToItem(write, v))| < I64
    ensures ScanFrom(parse, Encode(ToItem(write, v)) + rest, 1) == Scan(Links(v), Done(rest))
  {
    var it := ToItem(write, v);
    WrittenValue(parse, write, v);
    SingleItem(parse, it);
    ScanReadsItems(parse, [it], rest);
  }

  // ---- a format for identifiers that parses back ----

  /** Codec and digest at fixed width. */
  function WriteCid(c: Cid): seq<Byte> {
    BigEndian(c.codec, 8) + c.hash
  }

  function ReadCid(bs: seq<Byte>): Option<Cid> {
    if |bs| != 40 then None
    else
      Pow256Values();
      Some(Cid(FromBigEndian(bs[..8]), bs[8..]))
  }

  lemma CidReadsBack(c: Cid)
    ensures |WriteCid(c)| < 100 && ReadCid(WriteCid(c)) == Some(c)
  {
    Pow256Values();
    BigEndianDecodes(c.codec, 8);
    var bs := WriteCid(c);
    assert bs[..8] == BigEndian(c.codec, 8) && bs[8..] == c.hash;
  }

  /** With a format that parses back, the links of every value are found: nothing is asked of the value but its size. */
  lemma ScanFindsAllLinks(v: Ipld, rest: seq<Byte>)
    requires InRange(v) && |Encode(ToItem(WriteCid, v))| < I64
    ensures ScanFrom(ReadCid, Encode(ToItem(WriteCid, v)) + rest, 1) == Scan(Links(v), Done(rest))
  {
    forall c | c in Links(v)
      ensures |WriteCid(c)| < 100 && ReadCid(WriteCid(c)) == Some(c)
    {
      CidReadsBack(c);
    }
    ScanFindsLinks(ReadCid, WriteCid, v, rest);
  }
}
