/** A write buffer in front of a block store, and its flush of the blocks under a root. */
module BufferedStore {

  import opened Common
  import opened CborHeader
  import opened IpldModel
  import opened CborScan
  import opened CborLoop
  import opened CborRounds
  import opened LinkGraph

  datatype Error = InvalidLink | Unreadable | WriteFailed

  datatype Result = Ok | Err(error: Error) | Panics | NeverReturns

  /** How a block that is not readable ends a flush. */
  function Trouble(fate: Fate): Result {
    match fate
    case Readable => Ok
    case Unreadable => Err(Error.Unreadable)
    case Panicking => Panics
    case Endless => NeverReturns
  }

  datatype Write = Write(cid: Cid, block: seq<Byte>)

  function Written(ws: seq<Write>): set<Cid> {
    if ws == [] then {} else Written(ws[..|ws| - 1]) + {ws[|ws| - 1].cid}
  }

  /** Every block is cached, reads back, and comes after the cached blocks it links to. */
  ghost predicate PostOrder(g: Graph, cache: Blocks, ws: seq<Write>) {
    ws != [] ==>
      var w := ws[|ws| - 1];
      && PostOrder(g, cache, ws[..|ws| - 1])
      && w.cid in cache && w.block == cache[w.cid] && w.cid.codec == DAG_CBOR && g.fate(w.block).Readable?
      && (forall k | k in g.kids(w.block) && k in cache :: k in Written(ws[..|ws| - 1]))
  }

  lemma {:induction false} WrittenConcat(a: seq<Write>, b: seq<Write>)
    ensures Written(a + b) == Written(a) + Written(b)
  {
    if b == [] {
      assert a + b == a;
    } else {
      WrittenConcat(a, b[..|b| - 1]);
      assert (a + b)[..|a + b| - 1] == a + b[..|b| - 1];
    }
  }

  lemma {:induction false} PostOrderConcat(g: Graph, cache: Blocks, a: seq<Write>, b: seq<Write>)
    requires PostOrder(g, cache, a) && PostOrder(g, cache, b)
    ensures PostOrder(g, cache, a + b)
  {
    if b == [] {
      assert a + b == a;
    } else {
      var init := b[..|b| - 1];
      PostOrderConcat(g, cache, a, init);
      WrittenConcat(a, init);
      assert (a + b)[..|a + b| - 1] == a + init && (a + b)[|a + b| - 1] == b[|b| - 1];
    }
  }

  lemma {:induction false} PostOrderPrefix(g: Graph, cache: Blocks, ws: seq<Write>, n: nat)
    requires PostOrder(g, cache, ws) && n <= |ws|
    ensures PostOrder(g, cache, ws[..n])
  {
    if n == |ws| {
      assert ws[..n] == ws;
    } else {
      PostOrderPrefix(g, cache, ws[..|ws| - 1], n);
      assert ws[..|ws| - 1][..n] == ws[..n];
    }
  }

  lemma {:induction false} PostOrderMembers(g: Graph, cache: Blocks, ws: seq<Write>, c: Cid)
    requires PostOrder(g, cache, ws) && c in Written(ws)
    ensures c in cache && c.codec == DAG_CBOR && g.fate(cache[c]).Readable?
    ensures forall k | k in g.kids(cache[c]) && k in cache :: k in Written(ws)
  {
    if c == ws[|ws| - 1].cid {
    } else {
      PostOrderMembers(g, cache, ws[..|ws| - 1], c);
    }
  }

  /** Content addressing: links lead down a rank, so no chain of links comes back. */
  ghost predicate Acyclic(g: Graph, cache: Blocks, rank: Cid -> nat) {
    forall c, k | c in cache && k in g.kids(cache[c]) :: rank(k) < rank(c)
  }

  /** A cached block that cannot be scanned to the end lies under the root. */
  ghost predicate Broken(g: Graph, cache: Blocks, root: Cid) {
    exists c :: Reaches(g, cache, root, c) && !g.fate(cache[c]).Readable?
  }

  ghost predicate AllReached(g: Graph, cache: Blocks, root: Cid, ws: seq<Write>) {
    forall c | c in Written(ws) :: Reaches(g, cache, root, c)
  }

  /** The outcome that a block which is not read to its end makes for. */
  ghost predicate Causes(fate: Fate, r: Result) {
    match r
    case Ok => false
    case Err(e) => e == Error.Unreadable && fate == Fate.Unreadable
    case Panics => fate == Panicking
    case NeverReturns => fate == Endless
  }

  /** A cached block under the root is the cause of the outcome. */
  ghost predicate Blamed(g: Graph, cache: Blocks, root: Cid, r: Result) {
    exists c :: Reaches(g, cache, root, c) && Causes(g.fate(cache[c]), r)
  }

  /** The links of a block, as the scan reports them. */
  method FindLinks(parse: CidParser, checked: bool, block: seq<Byte>, ghost g: Graph) returns (links: seq<Cid>, fate: Fate)
    requires Tells(g, parse, checked)
    ensures fate == g.fate(block)
    ensures forall k: Cid :: k in g.kids(block) <==> k in links && k.codec == DAG_CBOR
  {
    var cursor := new Cursor(block);
    RoundsRead(parse, checked, block);
    var m := ScanForLinks(parse, checked, cursor, PlaceCount(|block|) + 1, Rounds(parse, checked, block));
    assert m == Scanned(parse, checked, block);
    links, fate := m.links, FateOf(m);
  }

  /** copy_rec: appends the cached blocks under `root`, children first. */
  method CopyRec(parse: CidParser, checked: bool, cache: Blocks, root: Cid, ghost g: Graph, ghost rank: Cid -> nat)
    returns (r: Result, ws: seq<Write>)
    requires Tells(g, parse, checked) && Acyclic(g, cache, rank)
    ensures r.Ok? <==> root.codec != DAG_CBOR || (root in cache && !Broken(g, cache, root))
    ensures !r.Ok? ==> if root in cache then Blamed(g, cache, root, r) else r == Err(InvalidLink)
    ensures r.Ok? ==> PostOrder(g, cache, ws) && AllReached(g, cache, root, ws)
    ensures r.Ok? && root.codec == DAG_CBOR ==> root in Written(ws)
    ensures root.codec != DAG_CBOR ==> ws == []
    decreases rank(root)
  {
    ws := [];
    if root.codec != DAG_CBOR {
      return Ok, ws;
    }
    if root !in cache {
      NothingReached(g, cache, root);
      return Err(InvalidLink), ws;
    }
    ReachesItself(g, cache, root);
    var links, fate := FindLinks(parse, checked, cache[root], g);
    for i := 0 to |links|
      invariant PostOrder(g, cache, ws) && AllReached(g, cache, root, ws)
      invariant forall k | k in links[..i] && k.codec == DAG_CBOR && k in cache :: k in Written(ws)
    {
      var link := links[i];
      TakeSnoc(links, i);
      if link.codec == DAG_CBOR && link in cache {
        var below;
        r, below := CopyRec(parse, checked, cache, link, g, rank);
        if !r.Ok? {
          BlamedBelow(g, cache, root, link, r);
          return;
        }
        ReachedBelow(g, cache, root, link, below);
        PostOrderConcat(g, cache, ws, below);
        WrittenConcat(ws, below);
        ws := ws + below;
      }
    }
    if !fate.Readable? {
      return Trouble(fate), ws;
    }
    assert links[..|links|] == links;
    assert KidsWritten(g, cache, root, ws);
    RootComesLast(g, cache, root, ws);
    ws := ws + [Write(root, cache[root])];
    r := Ok;
  }

  ghost predicate KidsWritten(g: Graph, cache: Blocks, root: Cid, ws: seq<Write>)
    requires root in cache
  {
    forall k | k in g.kids(cache[root]) && k.codec == DAG_CBOR && k in cache :: k in Written(ws)
  }

  lemma RootComesLast(g: Graph, cache: Blocks, root: Cid, ws: seq<Write>)
    requires root in cache && root.codec == DAG_CBOR && g.fate(cache[root]).Readable?
    requires PostOrder(g, cache, ws) && AllReached(g, cache, root, ws) && KidsWritten(g, cache, root, ws)
    requires forall k | k in g.kids(cache[root]) :: k.codec == DAG_CBOR
    ensures var all := ws + [Write(root, cache[root])];
            && PostOrder(g, cache, all) && AllReached(g, cache, root, all)
            && root in Written(all) && !Broken(g, cache, root)
  {
    var all := ws + [Write(root, cache[root])];
    assert all[..|all| - 1] == ws;
    ReachesItself(g, cache, root);
    NotBroken(g, cache, root, all);
  }

  lemma NothingReached(g: Graph, cache: Blocks, root: Cid)
    requires root !in cache
    ensures forall c :: !Reaches(g, cache, root, c)
  {
  }

  lemma BlamedBelow(g: Graph, cache: Blocks, root: Cid, link: Cid, r: Result)
    requires root in cache && root.codec == DAG_CBOR && link in g.kids(cache[root])
    requires Blamed(g, cache, link, r)
    ensures Blamed(g, cache, root, r) && Broken(g, cache, root)
  {
    var c :| Reaches(g, cache, link, c) && Causes(g.fate(cache[c]), r);
    ReachesThrough(g, cache, root, link, c);
  }

  lemma ReachedBelow(g: Graph, cache: Blocks, root: Cid, link: Cid, ws: seq<Write>)
    requires root in cache && root.codec == DAG_CBOR && link in g.kids(cache[root])
    requires AllReached(g, cache, link, ws)
    ensures AllReached(g, cache, root, ws)
  {
    forall c | c in Written(ws)
      ensures Reaches(g, cache, root, c)
    {
      ReachesThrough(g, cache, root, link, c);
    }
  }

  /** A post-order that holds the root holds everything under it. */
  lemma AllUnderRoot(g: Graph, cache: Blocks, root: Cid, ws: seq<Write>)
    requires PostOrder(g, cache, ws) && root in Written(ws)
    ensures forall c | Reaches(g, cache, root, c) :: c in Written(ws)
  {
    forall a, k | a in Written(ws) && a in cache && k in g.kids(cache[a]) && k in cache
      ensures k in Written(ws)
    {
      PostOrderMembers(g, cache, ws, a);
    }
    forall c | Reaches(g, cache, root, c)
      ensures c in Written(ws)
    {
      ReachStaysIn(g, cache, Written(ws), root, c);
    }
  }

  lemma NotBroken(g: Graph, cache: Blocks, root: Cid, ws: seq<Write>)
    requires PostOrder(g, cache, ws) && root in Written(ws)
    ensures !Broken(g, cache, root)
  {
    AllUnderRoot(g, cache, root, ws);
    forall c | Reaches(g, cache, root, c)
      ensures g.fate(cache[c]).Readable?
    {
      PostOrderMembers(g, cache, ws, c);
    }
  }

  // ---- writing ----

  function Apply(base: Blocks, ws: seq<Write>): Blocks {
    if ws == [] then base else Apply(base, ws[..|ws| - 1])[ws[|ws| - 1].cid := ws[|ws| - 1].block]
  }

  lemma {:induction false} ApplyHolds(g: Graph, cache: Blocks, base: Blocks, ws: seq<Write>)
    requires PostOrder(g, cache, ws)
    ensures Apply(base, ws).Keys == base.Keys + Written(ws)
    ensures forall c | c in Written(ws) :: c in cache && Apply(base, ws)[c] == cache[c]
    ensures forall c | c in base && c !in Written(ws) :: Apply(base, ws)[c] == base[c]
  {
    if ws == [] {
    } else {
      ApplyHolds(g, cache, base, ws[..|ws| - 1]);
    }
  }

  /** Every link of a stored block leads to a stored block. */
  ghost predicate LinkClosed(g: Graph, m: Blocks) {
    forall c, k | c in m && k in g.kids(m[c]) :: k in m
  }

  /** What a reader of the buffer sees: the cache in front of the base. */
  function Merged(base: Blocks, cache: Blocks): Blocks {
    base + cache
  }

  /** Every link of a cached block under the root leads to a block that is cached or stored. */
  ghost predicate ClosedUnder(g: Graph, base: Blocks, cache: Blocks, root: Cid) {
    forall c, k | Reaches(g, cache, root, c) && k in g.kids(cache[c]) :: k in base || k in cache
  }

  /** Writes of blocks under the root, to a base without dangling links. */
  ghost predicate Planned(g: Graph, cache: Blocks, base: Blocks, root: Cid, ws: seq<Write>) {
    && PostOrder(g, cache, ws) && AllReached(g, cache, root, ws)
    && LinkClosed(g, base) && ClosedUnder(g, base, cache, root)
  }

  lemma LinksStored(g: Graph, cache: Blocks, base: Blocks, root: Cid, ws: seq<Write>, c: Cid, k: Cid)
    requires Planned(g, cache, base, root, ws)
    requires c in Apply(base, ws) && k in g.kids(Apply(base, ws)[c])
    ensures k in Apply(base, ws)
  {
    ApplyHolds(g, cache, base, ws);
    if c in Written(ws) {
      PostOrderMembers(g, cache, ws, c);
      assert Reaches(g, cache, root, c) && k in g.kids(cache[c]);
    } else {
      assert Apply(base, ws)[c] == base[c] && k in base;
    }
  }

  lemma WritesKeepClosed(g: Graph, cache: Blocks, base: Blocks, root: Cid, ws: seq<Write>)
    requires Planned(g, cache, base, root, ws)
    ensures LinkClosed(g, Apply(base, ws))
  {
    forall c, k | c in Apply(base, ws) && k in g.kids(Apply(base, ws)[c])
      ensures k in Apply(base, ws)
    {
      LinksStored(g, cache, base, root, ws, c, k);
    }
  }

  /** Stopping after any number of the writes leaves a store without dangling links. */
  lemma EveryPrefixIsClosed(g: Graph, cache: Blocks, base: Blocks, root: Cid, ws: seq<Write>, n: nat)
    requires Planned(g, cache, base, root, ws) && n <= |ws|
    ensures Planned(g, cache, base, root, ws[..n]) && LinkClosed(g, Apply(base, ws[..n]))
  {
    PostOrderPrefix(g, cache, ws, n);
    assert ws == ws[..n] + ws[n..];
    WrittenConcat(ws[..n], ws[n..]);
    WritesKeepClosed(g, cache, base, root, ws[..n]);
  }

  /** One content per identifier. */
  ghost predicate Agree(base: Blocks, cache: Blocks) {
    forall c | c in base && c in cache :: base[c] == cache[c]
  }

  /** The base has no dangling link and answers only what a reader of the buffer saw, whose view is as it was. */
  ghost predicate Safe(g: Graph, base: Blocks, cache: Blocks, after: Blocks) {
    && LinkClosed(g, after) && Merged(after, cache) == Merged(base, cache)
    && forall c | c in after :: c in Merged(base, cache) && after[c] == Merged(base, cache)[c]
  }

  /** No write changes what a reader of the buffer sees. */
  lemma ReadsKept(g: Graph, cache: Blocks, base: Blocks, ws: seq<Write>)
    requires PostOrder(g, cache, ws) && Agree(base, cache)
    ensures var after := Apply(base, ws);
            && Merged(after, cache) == Merged(base, cache)
            && forall c | c in after :: c in Merged(base, cache) && after[c] == Merged(base, cache)[c]
  {
    ApplyHolds(g, cache, base, ws);
  }

  /** However many of the writes are done. */
  lemma AlwaysSafe(g: Graph, cache: Blocks, base: Blocks, root: Cid, ws: seq<Write>, n: nat)
    requires Planned(g, cache, base, root, ws) && Agree(base, cache) && n <= |ws|
    ensures Safe(g, base, cache, Apply(base, ws[..n]))
  {
    EveryPrefixIsClosed(g, cache, base, root, ws, n);
    ReadsKept(g, cache, base, ws[..n]);
  }

  /** After all the writes the base alone answers every read below the root as the buffer did. */
  lemma ReadsUnderRootKept(g: Graph, cache: Blocks, base: Blocks, root: Cid, ws: seq<Write>, c: Cid)
    requires Planned(g, cache, base, root, ws) && root in Written(ws) && Agree(base, cache)
    requires Reaches(g, Merged(base, cache), root, c)
    ensures c in Apply(base, ws) && Apply(base, ws)[c] == Merged(base, cache)[c]
  {
    var m, view := Apply(base, ws), Merged(base, cache);
    ApplyHolds(g, cache, base, ws);
    WritesKeepClosed(g, cache, base, root, ws);
    assert forall a | a in m :: a in view && m[a] == view[a];
    ReachStaysIn(g, view, m.Keys, root, c);
  }

  class Base {
    var blocks: Blocks

    constructor (blocks: Blocks)
      ensures this.blocks == blocks
    {
      this.blocks := blocks;
    }

    /** Writes in order; the store fails after `fault` writes, if there are that many. */
    method BulkWrite(ws: seq<Write>, fault: nat) returns (ok: bool)
      modifies this
      ensures ok == (|ws| <= fault)
      ensures blocks == Apply(old(blocks), if ok then ws else ws[..fault])
    {
      ok := true;
      for i := 0 to |ws|
        invariant i <= fault && blocks == Apply(old(blocks), ws[..i])
      {
        if i == fault {
          return false;
        }
        assert ws[..i + 1][..i] == ws[..i];
        blocks := blocks[ws[i].cid := ws[i].block];
      }
      assert ws[..|ws|] == ws;
    }
  }

  class Buffered {
    const base: Base
    var write: Blocks

    constructor (base: Base)
      ensures this.base == base && write == map[]
    {
      this.base, write := base, map[];
    }

    ghost function View(): Blocks
      reads this, base
    {
      Merged(base.blocks, write)
    }

    method GetBytes(cid: Cid) returns (r: Option<seq<Byte>>)
      ensures r == if cid in View() then Some(View()[cid]) else None
    {
      if cid in write {
        return Some(write[cid]);
      }
      return if cid in base.blocks then Some(base.blocks[cid]) else None;
    }

    method PutRaw(bytes: seq<Byte>, digest: seq<Byte> -> Hash) returns (cid: Cid)
      modifies this`write
      ensures cid == Cid(DAG_CBOR, digest(bytes)) && View() == old(View())[cid := bytes]
    {
      cid := Cid(DAG_CBOR, digest(bytes));
      write := write[cid := bytes];
    }

    /**
     Moves the cached blocks under `root` to the base. When it succeeds the base answers alone for all of
     them; when it fails, for whatever reason, the base still has no dangling link and the cache is kept.
     */
    method Flush(parse: CidParser, checked: bool, root: Cid, fault: nat, ghost g: Graph, ghost rank: Cid -> nat)
      returns (r: Result)
      requires Tells(g, parse, checked) && Acyclic(g, write, rank) && Agree(base.blocks, write)
      requires LinkClosed(g, base.blocks) && ClosedUnder(g, base.blocks, write, root)
      modifies this`write, base
      ensures Safe(g, old(base.blocks), old(write), base.blocks)
      ensures r.Ok? ==> write == map[] && Flushed(g, old(base.blocks), old(write), root, base.blocks)
      ensures !r.Ok? ==> write == old(write) && View() == old(View())
      ensures root.codec == DAG_CBOR && (root !in old(write) || Broken(g, old(write), root)) ==>
                !r.Ok? && base.blocks == old(base.blocks)
      ensures !r.Ok? ==> r in {Err(InvalidLink), Err(WriteFailed)} || Blamed(g, old(write), root, r)
      ensures root.codec != DAG_CBOR ==> r.Ok? && base.blocks == old(base.blocks)
    {
      var ws;
      r, ws := CopyRec(parse, checked, write, root, g, rank);
      if !r.Ok? {
        return;
      }
      ghost var b := base.blocks;
      var ok := base.BulkWrite(ws, fault);
      if !ok {
        AlwaysSafe(g, write, b, root, ws, fault);
        return Err(WriteFailed);
      }
      AlwaysSafe(g, write, b, root, ws, |ws|);
      assert ws[..|ws|] == ws;
      FlushedBecause(g, write, b, root, ws);
      write := map[];
    }
  }

  /** The base gained the cached blocks under the root, no others, and answers for all that is below it. */
  ghost predicate Flushed(g: Graph, base: Blocks, cache: Blocks, root: Cid, after: Blocks) {
    && (forall c :: c in after <==> c in base || Reaches(g, cache, root, c))
    && (forall c | Reaches(g, Merged(base, cache), root, c) ::
          c in after && after[c] == Merged(base, cache)[c])
  }

  lemma FlushedBecause(g: Graph, cache: Blocks, base: Blocks, root: Cid, ws: seq<Write>)
    requires Planned(g, cache, base, root, ws) && Agree(base, cache)
    requires root.codec == DAG_CBOR ==> root in Written(ws)
    ensures Flushed(g, base, cache, root, Apply(base, ws))
  {
    ApplyHolds(g, cache, base, ws);
    if root.codec == DAG_CBOR {
      AllUnderRoot(g, cache, root, ws);
      forall c | Reaches(g, Merged(base, cache), root, c)
        ensures c in Apply(base, ws) && Apply(base, ws)[c] == Merged(base, cache)[c]
      {
        ReadsUnderRootKept(g, cache, base, root, ws, c);
      }
    }
  }
}
