/** What a flush follows, told by what the blocks hold: the links of a written value, of a journey, of any scan. */
module BlockLinks {

  import opened CborHeader
  import opened IpldModel
  import opened CborScan
  import opened CborItems
  import opened CborLoop
  import opened CborRounds
  import opened CborLegs
  import opened LinkGraph
  import opened BufferedStore

  /** Where the scanner refuses: a journey whose last leg fails, or that a length takes to before the first byte. */
  ghost predicate RefusedRoute(parse: CidParser, checked: bool, data: seq<Byte>, ps: seq<Place>) {
    Route(parse, checked, data, ps) && var end := RouteScan(parse, checked, data, ps).end;
    end.Failed? || (end.Turned? && end.turn.SeekBack?)
  }

  lemma RefusesIff(parse: CidParser, checked: bool, data: seq<Byte>)
    ensures Scanned(parse, checked, data).Broke? <==> exists ps :: RefusedRoute(parse, checked, data, ps)
  {
    EndsIff(parse, checked, data);
    forall ps | RefusedRoute(parse, checked, data, ps)
      ensures Scanned(parse, checked, data).Broke?
    {
      RouteLasts(parse, checked, data, ps);
    }
    if Scanned(parse, checked, data).Broke? {
      var ps :| Route(parse, checked, data, ps);
      RouteLasts(parse, checked, data, ps);
      assert RefusedRoute(parse, checked, data, ps);
    }
  }

  /** How the scan of any block ends: as the journey through it does, if there is one. */
  lemma FateIff(g: Graph, parse: CidParser, checked: bool, block: seq<Byte>)
    requires Tells(g, parse, checked)
    ensures g.fate(block).Readable? <==> exists ps :: AcceptedRoute(parse, checked, block, ps)
    ensures g.fate(block).Unreadable? <==> exists ps :: RefusedRoute(parse, checked, block, ps)
    ensures g.fate(block).Panicking? <==> exists ps :: PanickedRoute(parse, checked, block, ps)
    ensures g.fate(block).Endless? <==> NeverEnds(Rounds(parse, checked, block))
  {
    AcceptsIff(parse, checked, block);
    RefusesIff(parse, checked, block);
    PanicsIff(parse, checked, block);
    ScannedIsEnd(parse, checked, block);
  }

  /** The links followed are the DAG-CBOR ones among those that the journey reports. */
  lemma KidsOfRoute(g: Graph, parse: CidParser, checked: bool, block: seq<Byte>, ps: seq<Place>, k: Cid)
    requires Tells(g, parse, checked) && Route(parse, checked, block, ps)
    ensures k in g.kids(block) <==> k in RouteScan(parse, checked, block, ps).links && k.codec == DAG_CBOR
  {
    RouteEnds(parse, checked, block, ps);
  }

  /** Of any block, endless or not, they are the DAG-CBOR ones that some round reports. */
  lemma KidsAreReported(g: Graph, parse: CidParser, checked: bool, block: seq<Byte>, k: Cid)
    requires Tells(g, parse, checked)
    ensures k in g.kids(block) <==>
            k.codec == DAG_CBOR && exists n: nat :: k in RunFor(Rounds(parse, checked, block), n).links
  {
    ScannedIsEnd(parse, checked, block);
    assert Scanned(parse, checked, block) == RunFor(Rounds(parse, checked, block), PlaceCount(|block|) + 1);
  }

  /** A block that is scanned forward is followed as that scan says. */
  lemma ForwardBlock(g: Graph, parse: CidParser, checked: bool, block: seq<Byte>)
    requires Tells(g, parse, checked) && !ScanFrom(parse, block, 1).end.Turned?
    ensures g.kids(block) == set c | c in ScanFrom(parse, block, 1).links && c.codec == DAG_CBOR
    ensures ScanFrom(parse, block, 1).end.Failed? <==> g.fate(block).Unreadable?
    ensures ScanFrom(parse, block, 1).end.Panicked? <==> g.fate(block).Panicking?
    ensures !g.fate(block).Endless?
  {
    ForwardEnds(parse, checked, block);
  }

  /** A block that holds a value is read, and its links are those of the value. */
  lemma WrittenBlock(g: Graph, parse: CidParser, checked: bool, write: CidWriter, v: Ipld)
    requires Tells(g, parse, checked)
    requires RoundTrips(parse, write, Links(v)) && InRange(v) && |Encode(ToItem(write, v))| < I64
    ensures g.fate(Encode(ToItem(write, v))).Readable?
    ensures g.kids(Encode(ToItem(write, v))) == set c | c in Links(v) && c.codec == DAG_CBOR
  {
    var block := Encode(ToItem(write, v));
    assert block + [] == block;
    ScanFindsLinks(parse, write, v, []);
    ForwardBlock(g, parse, checked, block);
  }

  lemma ReachesOn(g: Graph, m: Blocks, a: Cid, b: Cid, c: Cid)
    requires Reaches(g, m, a, b) && c in g.kids(m[b]) && c in m && c.codec == DAG_CBOR
    ensures Reaches(g, m, a, c)
  {
    var p :| PathBetween(g, m, a, p, b);
    var q := p + [c];
    forall i | 0 <= i < |q| - 1
      ensures q[i + 1] in g.kids(m[q[i]])
    {
      if i < |p| - 1 {
        assert q[i] == p[i] && q[i + 1] == p[i + 1];
      }
    }
    assert PathBetween(g, m, a, q, c);
  }

  /** What a cached value under the root links to, and is cached, a flush moves to the base. */
  lemma FlushTakesLinked(g: Graph, parse: CidParser, checked: bool, write: CidWriter, base: Blocks, cache: Blocks,
                         root: Cid, after: Blocks, a: Cid, v: Ipld, c: Cid)
    requires Tells(g, parse, checked) && Flushed(g, base, cache, root, after) && Reaches(g, cache, root, a)
    requires RoundTrips(parse, write, Links(v)) && InRange(v) && |Encode(ToItem(write, v))| < I64
    requires cache[a] == Encode(ToItem(write, v)) && c in Links(v) && c.codec == DAG_CBOR && c in cache
    ensures Reaches(g, cache, root, c) && c in after
  {
    WrittenBlock(g, parse, checked, write, v);
    ReachesOn(g, cache, root, a, c);
  }
}
