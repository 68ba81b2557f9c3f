/** The graph that links make of a set of blocks. */
module LinkGraph {

  import opened CborHeader
  import opened IpldModel
  import opened CborScan
  import opened CborLoop
  import opened CborRounds

  type Blocks = map<Cid, seq<Byte>>

  /** What becomes of the scan of a block. */
  datatype Fate = Readable | Unreadable | Panicking | Endless

  /** The DAG-CBOR blocks that a block links to, and what becomes of its scan. */
  datatype Graph = Graph(kids: seq<Byte> -> set<Cid>, fate: seq<Byte> -> Fate)

  function FateOf(m: Machine): Fate {
    match m
    case At(_, remaining, _) => if remaining == 0 then Readable else Endless
    case Broke(_, _) => Unreadable
    case Panic(_) => Panicking
  }

  function KidsOf(m: Machine): set<Cid> {
    set c | c in m.links && c.codec == DAG_CBOR
  }

  /** The graph tells what the scanner makes of each block. */
  ghost predicate Tells(g: Graph, parse: CidParser, checked: bool) {
    forall block {:trigger Scanned(parse, checked, block)} ::
      && g.kids(block) == KidsOf(Scanned(parse, checked, block))
      && g.fate(block) == FateOf(Scanned(parse, checked, block))
  }

  function GraphOf(parse: CidParser, checked: bool): (g: Graph)
    ensures Tells(g, parse, checked)
  {
    Graph(block => KidsOf(Scanned(parse, checked, block)), block => FateOf(Scanned(parse, checked, block)))
  }

  ghost predicate IsPath(g: Graph, m: Blocks, p: seq<Cid>) {
    && p != [] && (forall i | 0 <= i < |p| :: p[i] in m && p[i].codec == DAG_CBOR)
    && (forall i | 0 <= i < |p| - 1 :: p[i + 1] in g.kids(m[p[i]]))
  }

  ghost predicate PathBetween(g: Graph, m: Blocks, a: Cid, p: seq<Cid>, c: Cid) {
    IsPath(g, m, p) && p[0] == a && p[|p| - 1] == c
  }

  ghost predicate Reaches(g: Graph, m: Blocks, a: Cid, c: Cid) {
    exists p :: PathBetween(g, m, a, p, c)
  }

  lemma ReachesItself(g: Graph, m: Blocks, a: Cid)
    requires a in m && a.codec == DAG_CBOR
    ensures Reaches(g, m, a, a)
  {
    assert PathBetween(g, m, a, [a], a);
  }

  lemma ReachesThrough(g: Graph, m: Blocks, a: Cid, k: Cid, c: Cid)
    requires a in m && a.codec == DAG_CBOR && k in g.kids(m[a]) && Reaches(g, m, k, c)
    ensures Reaches(g, m, a, c)
  {
    var p :| PathBetween(g, m, k, p, c);
    var q := [a] + p;
    forall i | 0 <= i < |q| - 1
      ensures q[i + 1] in g.kids(m[q[i]])
    {
      if i > 0 {
        assert q[i] == p[i - 1] && q[i + 1] == p[i - 1 + 1];
      }
    }
    assert PathBetween(g, m, a, q, c);
  }

  ghost predicate ClosedIn(g: Graph, m: Blocks, s: set<Cid>) {
    forall a, k | a in s && a in m && k in g.kids(m[a]) && k in m :: k in s
  }

  /** A set closed under links holds all that can be reached from its members. */
  lemma ReachStaysIn(g: Graph, m: Blocks, s: set<Cid>, a: Cid, c: Cid)
    requires ClosedIn(g, m, s) && a in s && Reaches(g, m, a, c)
    ensures c in s
  {
    var p :| PathBetween(g, m, a, p, c);
    PathStaysIn(g, m, s, p);
  }

  lemma {:induction false} PathStaysIn(g: Graph, m: Blocks, s: set<Cid>, p: seq<Cid>)
    requires ClosedIn(g, m, s) && IsPath(g, m, p) && p[0] in s
    ensures p[|p| - 1] in s
  {
    if |p| <= 1 {
    } else {
      var init := p[..|p| - 1];
      forall i | 0 <= i < |init| - 1
        ensures init[i + 1] in g.kids(m[init[i]])
      {
        assert init[i] == p[i] && init[i + 1] == p[i + 1];
      }
      PathStaysIn(g, m, s, init);
      assert p[|p| - 2 + 1] in g.kids(m[p[|p| - 2]]);
    }
  }
}
