/** The `Hamt` object and theorems about whole runs of it. */
module HamtApi {
  import opened Common
  import opened Callbacks
  import HashBitReader
  import opened HamtModel
  import opened HamtSeen
  import opened HamtSet
  import opened HamtDelete
  import opened HamtTree
  import opened HamtOrder

  /** A blockstore shared by reference; `put` only ever adds blocks under their own CID. */
  class BlockStore {
    var blocks: Store

    constructor ()
      ensures blocks == map[]
    {
      blocks := map[];
    }
  }

  function PutInMap(m: map<Key, Value>, k: Key, v: Value, overwrite: bool): map<Key, Value> {
    if overwrite || k !in m then m[k := v] else m
  }

  /** `l` holds every pair of the map, once. */
  ghost predicate ListsMap(l: seq<Entry>, m: map<Key, Value>) {
    |l| == |m| && forall e: Entry :: e in l <==> e.key in m && m[e.key] == e.value
  }

  /** The callback met the entries in turn, all of them if it succeeded on each, else up to the one it failed on. */
  ghost predicate CalledUntil(l: seq<Entry>, f: EntryCallback, calls: seq<Entry>, ok: bool) {
    && calls <= l && (forall k | 0 <= k < |calls| - 1 :: f(calls[k]))
    && if ok then calls == l && forall e | e in l :: f(e) else calls != [] && !f(calls[|calls| - 1])
  }

  lemma CalledWhole(l: seq<Entry>, f: EntryCallback, calls: seq<Entry>, reply: Reply)
    requires CallEach(l, Replies(f)) == Called(calls, reply)
    ensures CalledUntil(l, f, calls, !reply.Fail?)
  {
    CallsMean(l, Replies(f));
    assert forall k | 0 <= k < |calls| :: Replies(f)(l[k]).GoOn? <==> f(l[k]);
  }

  class Hamt {
    var root: Node
    const store: BlockStore
    const cfg: Config

    ghost predicate Valid()
      reads this
    {
      cfg.Valid() && Coherent(root) && BlockInv(cfg, Erase(root), 0)
    }

    /** Every block a walk could need is in the store. */
    ghost predicate Complete()
      reads this, store
    {
      NodeResolvable(store.blocks, root)
    }

    ghost function Contents(): map<Key, Value>
      reads this
      requires Valid()
    {
      KeysAreUnique(cfg, Erase(root), 0);
      AsMap(Entries(Erase(root)))
    }

    /** Three stored keys agree with `k` on every whole chunk of the hash. */
    ghost predicate Crowded(k: Key)
      reads this
      requires Valid()
    {
      |Crowd(cfg, Entries(Erase(root)), k, 0)| >= MAX_ARRAY_WIDTH
    }

    constructor NewWithConfig(store: BlockStore, cfg: Config)
      requires cfg.Valid()
      ensures Valid() && Complete() && Contents() == map[]
      ensures this.store == store && this.cfg == cfg
    {
      this.store, this.cfg, root := store, cfg, EMPTY_NODE;
      new;
      EmptyNode(cfg, store.blocks, 0);
      assert Erase(root) == Erase(EMPTY_NODE);
    }

    /** A map over a stored root block; a canonical block gives a valid map with its contents. */
    constructor FromRoot(store: BlockStore, cfg: Config, cid: Cid)
      requires cfg.Valid() && cid in store.blocks
      ensures this.store == store && this.cfg == cfg && Erase(root) == cid.block && Clean(root)
      ensures BlockInv(cfg, cid.block, 0) ==> Valid()
      ensures Resolvable(store.blocks, cid.block) ==> Complete()
    {
      this.store, this.cfg, root := store, cfg, FromBlock(store.blocks[cid]);
      new;
      if Resolvable(store.blocks, cid.block) {
        CleanResolvable(store.blocks, root);
      }
    }

    method Modify(key: Key, value: Value, overwrite: bool) returns (r: Result<SetOutcome>)
      requires Valid()
      modifies this
      ensures r.Ok? ==> Valid() && (old(Complete()) ==> Complete())
      ensures r.Ok? ==> Contents() == PutInMap(old(Contents()), key, value, overwrite)
      ensures r.Ok? ==>
                r.value.previous == if overwrite && key in old(Contents()) then Some(old(Contents())[key]) else None
      ensures r.Ok? ==> (r.value.modified <==> Contents() != old(Contents()))
      ensures old(Complete()) ==> (r == Err(MaxDepth) <==> old(Crowded(key))) && (r.Ok? || r == Err(MaxDepth))
      ensures !r.Ok? ==> r.Err? && (r.error == MaxDepth || r.error.CidNotFound?)
      ensures r == Err(MaxDepth) ==> Refused(cfg, old(root), root, 0, key)
    {
      ghost var es := Entries(Erase(root));
      KeysAreUnique(cfg, Erase(root), 0);
      var n';
      r, n' := ModifyValue(cfg, store.blocks, root, HashBitReader.New(cfg.hash(key)), key, value, overwrite);
      root := n';
      if r.Ok? {
        PutIsUpdate(es, key, value, overwrite);
        KeysAreUnique(cfg, Erase(root), 0);
        NotCrowdedAfterPut(cfg, Erase(root), es, key, value, overwrite);
        ghost var m := AsMap(es);
        assert HasKey(es, key) ==> Entry(key, m[key]) in es;
      }
    }

    /** Hamt::set. */
    method Set(key: Key, value: Value) returns (r: Result<Option<Value>>)
      requires Valid()
      modifies this
      ensures r.Ok? ==> Valid() && (old(Complete()) ==> Complete())
      ensures r.Ok? ==> Contents() == old(Contents())[key := value]
      ensures r.Ok? ==> r.value == if key in old(Contents()) then Some(old(Contents())[key]) else None
      ensures r == Err(MaxDepth) ==> Refused(cfg, old(root), root, 0, key)
      ensures old(Complete()) ==> (r == Err(MaxDepth) <==> old(Crowded(key))) && (r.Ok? || r == Err(MaxDepth))
    {
      var out := Modify(key, value, true);
      match out {
        case Ok(o) => r := Ok(o.previous);
        case Err(e) => r := Err(e);
        case Panic => r := Panic;
      }
    }

    /** Hamt::set_if_absent. */
    method SetIfAbsent(key: Key, value: Value) returns (r: Result<bool>)
      requires Valid()
      modifies this
      ensures r.Ok? ==> Valid() && (old(Complete()) ==> Complete())
      ensures r.Ok? ==> r.value == (key !in old(Contents()))
      ensures r.Ok? ==> Contents() == if r.value then old(Contents())[key := value] else old(Contents())
      ensures r == Err(MaxDepth) ==> Refused(cfg, old(root), root, 0, key)
      ensures old(Complete()) ==> (r == Err(MaxDepth) <==> old(Crowded(key))) && (r.Ok? || r == Err(MaxDepth))
    {
      var out := Modify(key, value, false);
      match out {
        case Ok(o) => r := Ok(o.modified);
        case Err(e) => r := Err(e);
        case Panic => r := Panic;
      }
    }

    /** Hamt::get; fills caches only. */
    method Get(key: Key) returns (r: Result<Option<Value>>)
      requires Valid()
      modifies this
      ensures Valid() && Contents() == old(Contents()) && Erase(root) == old(Erase(root))
      ensures r.Ok? ==> r.value == if key in Contents() then Some(Contents()[key]) else None
      ensures old(Complete()) ==> r.Ok? && Complete()
      ensures !r.Ok? ==> r.Err? && r.error.CidNotFound?
    {
      ghost var es := Entries(Erase(root));
      KeysAreUnique(cfg, Erase(root), 0);
      var n';
      r, n' := GetValue(cfg, store.blocks, root, HashBitReader.New(cfg.hash(key)), key);
      root := n';
      WithoutIsRemove(es, key);
    }

    /**
     Hamt::delete. An absent key whose path crosses an unmodified link is the one case in which
     it does not report the key as absent but panics.
     */
    method Delete(key: Key) returns (r: Result<Option<Entry>>)
      requires Valid()
      modifies this
      ensures r.Ok? ==> Valid() && (old(Complete()) ==> Complete())
      ensures r.Ok? ==> Contents() == old(Contents()) - {key}
      ensures r.Ok? ==> r.value == (if key in old(Contents()) then Some(Entry(key, old(Contents())[key])) else None)
      ensures old(Complete()) ==> !r.Err?
      ensures !r.Err? ==> (r.Panic? <==> key !in old(Contents()) && old(CrossesLink(cfg, root, 0, key)))
      ensures r.Err? ==> r.error.CidNotFound?
    {
      ghost var es := Entries(Erase(root));
      KeysAreUnique(cfg, Erase(root), 0);
      var n';
      r, n' := RmValue(cfg, store.blocks, root, HashBitReader.New(cfg.hash(key)), key);
      root := n';
      WithoutIsRemove(es, key);
      if r.Ok? {
        KeysAreUnique(cfg, Erase(root), 0);
      }
    }

    /** Deleting an absent key right after a flush panics exactly if more than three keys share its first chunk. */
    method DeleteAfterFlush(key: Key) returns (cid: Cid, r: Result<Option<Entry>>)
      requires Valid() && Complete() && key !in Contents()
      modifies this, store
      ensures r.Panic? <==> |Sharing(cfg, old(Entries(Erase(root))), key)| > MAX_ARRAY_WIDTH
      ensures !r.Panic? ==> r == Ok(None) && Valid() && Contents() == old(Contents())
    {
      cid := Flush();
      CleanCrosses(cfg, root, key);
      r := Delete(key);
    }

    /** Hamt::flush: the returned CID names the contents, and is loadable. */
    method Flush() returns (cid: Cid)
      requires Valid()
      modifies this, store
      ensures Valid() && Contents() == old(Contents()) && Erase(root) == old(Erase(root)) && Clean(root)
      ensures cid == Cid(Erase(root)) && cid in store.blocks && BlockInv(cfg, cid.block, 0)
      ensures old(store.blocks.Keys) <= store.blocks.Keys
      ensures old(Complete()) ==> Complete() && Resolvable(store.blocks, cid.block)
    {
      var s', n' := FlushNode(store.blocks, root);
      var block := Serialize(n');
      cid := Cid(block.value);
      root := n';
      store.blocks := s'[cid := block.value];
      if old(Complete()) {
        NodeResolvableGrows(s', store.blocks, root);
        BlocksResolvable(store.blocks, root);
      }
    }

    /** Hamt::for_each: one call per entry, in an order fixed by the contents, up to the first call that fails. */
    method ForEach(f: EntryCallback) returns (r: Result<()>, calls: seq<Entry>)
      requires Valid()
      modifies this
      ensures Valid() && Contents() == old(Contents()) && Erase(root) == old(Erase(root))
      ensures ListsMap(Listing(Erase(root).ptrs), Contents())
      ensures r.Err? && r.error.CidNotFound? ==> !old(Complete())
      ensures !(r.Err? && r.error.CidNotFound?) ==>
                && CalledUntil(Listing(Erase(root).ptrs), f, calls, r.Ok?) && (r.Err? ==> r.error == CallbackFailed)
                && (forall i, j | 0 <= i < j < |calls| :: InOrder(cfg, Erase(root), 0, calls[i], calls[j]))
      ensures old(Complete()) ==> Complete()
    {
      var out, n';
      out, calls, n' := ForEachNode(store.blocks, root, f);
      root := n';
      ListingIsComplete(cfg, Erase(root), 0);
      KeysAreUnique(cfg, Erase(root), 0);
      MapSize(Entries(Erase(root)));
      if out.Ok? {
        CalledWhole(Listing(Erase(root).ptrs), f, calls, out.value);
        CalledInOrder(cfg, Erase(root), calls);
      }
      r := if out.Err? then Err(out.error) else if out.value.Fail? then Err(CallbackFailed) else Ok(());
    }

    /** Hamt::is_empty. */
    method IsEmpty() returns (b: bool)
      requires Valid()
      ensures b <==> Contents() == map[]
    {
      b := |root.pointers| == 0;
      EntriesSize(cfg, Erase(root), 0);
      KeysAreUnique(cfg, Erase(root), 0);
      MapSize(Entries(Erase(root)));
    }
  }

  /** Hamt::load_with_bit_width. */
  method Load(store: BlockStore, cfg: Config, cid: Cid) returns (r: Result<Hamt>)
    requires cfg.Valid()
    ensures cid !in store.blocks ==> r == Err(CidNotFound(cid))
    ensures cid in store.blocks ==> r.Ok? && fresh(r.value) && r.value.store == store && r.value.cfg == cfg
    ensures cid in store.blocks && BlockInv(cfg, cid.block, 0) ==> r.value.Valid() && Erase(r.value.root) == cid.block
    ensures cid in store.blocks && Resolvable(store.blocks, cid.block) ==> r.value.Complete()
  {
    if cid !in store.blocks {
      return Err(CidNotFound(cid));
    }
    var h := new Hamt.FromRoot(store, cfg, cid);
    r := Ok(h);
  }

  lemma {:induction false} MapSize(es: set<Entry>)
    requires UniqueKeys(es)
    ensures |AsMap(es)| == |es|
  {
    if es == {} {
    } else {
      var e :| e in es;
      var rest := Without(es, e.key);
      assert rest == es - {e};
      MapSize(rest);
      WithoutIsRemove(es, e.key);
      RemoveSize(AsMap(es), e.key);
    }
  }

  lemma RemoveSize(m: map<Key, Value>, k: Key)
    requires k in m
    ensures |m| == |m - {k}| + 1
  {
    assert m.Keys == (m - {k}).Keys + {k};
    assert |m.Keys| == |(m - {k}).Keys| + 1;
  }

  lemma NotCrowdedAfterPut(cfg: Config, b: Block, es: set<Entry>, k: Key, v: Value, overwrite: bool)
    requires cfg.Valid() && BlockInv(cfg, b, 0) && Entries(b) == Put(es, k, v, overwrite)
    ensures |Crowd(cfg, es, k, 0)| < MAX_ARRAY_WIDTH
  {
    var e :| e in Entries(b) && e.key == k;
    AgreeReflexive(cfg, k, 0);
    var crowd := Crowd(cfg, es, k, 0);
    NoFourWayCollision(cfg, b, 0, k);
    SubsetSize(crowd + {e}, Mates(cfg, Entries(b), k, 0));
  }

  lemma {:induction false} AgreeReflexive(cfg: Config, k: Key, at: nat)
    requires cfg.width >= 1
    ensures Agree(cfg, k, k, at)
    decreases 256 - at
  {
    if !cfg.Fits(at) {
    } else {
      AgreeReflexive(cfg, k, at + cfg.width);
    }
  }

  // ---- runs ----

  datatype Op =
    | SetOp(key: Key, value: Value)
    | SetIfAbsentOp(key: Key, value: Value)
    | GetOp(key: Key)
    | DeleteOp(key: Key)
    | FlushOp

  function Apply(m: map<Key, Value>, op: Op): map<Key, Value> {
    match op
    case SetOp(k, v) => m[k := v]
    case SetIfAbsentOp(k, v) => if k in m then m else m[k := v]
    case GetOp(_) => m
    case DeleteOp(k) => m - {k}
    case FlushOp => m
  }

  function ApplyAll(m: map<Key, Value>, ops: seq<Op>): map<Key, Value> {
    if ops == [] then m else Apply(ApplyAll(m, ops[..|ops| - 1]), ops[|ops| - 1])
  }

  /** What an operation returns. */
  datatype Answer =
    | Previous(previous: Option<Value>)
    | Inserted(inserted: bool)
    | Found(found: Option<Value>)
    | Removed(removed: Option<Entry>)
    | Flushed

  /** What a map would return. */
  function AnswerOf(m: map<Key, Value>, op: Op): Answer {
    match op
    case SetOp(k, _) => Previous(if k in m then Some(m[k]) else None)
    case SetIfAbsentOp(k, _) => Inserted(k !in m)
    case GetOp(k) => Found(if k in m then Some(m[k]) else None)
    case DeleteOp(k) => Removed(if k in m then Some(Entry(k, m[k])) else None)
    case FlushOp => Flushed
  }

  function AnswersOf(m: map<Key, Value>, ops: seq<Op>): seq<Answer> {
    if ops == [] then []
    else
      var n := |ops| - 1;
      AnswersOf(m, ops[..n]) + [AnswerOf(ApplyAll(m, ops[..n]), ops[n])]
  }

  ghost function EntriesOf(m: map<Key, Value>): set<Entry> {
    set k | k in m :: Entry(k, m[k])
  }

  lemma EntriesOfMap(es: set<Entry>)
    requires UniqueKeys(es)
    ensures EntriesOf(AsMap(es)) == es
  {
    forall e | e in es
      ensures e in EntriesOf(AsMap(es))
    {
      assert e == Entry(e.key, AsMap(es)[e.key]);
    }
  }

  /** Adding a key to three that no depth separates it from. */
  ghost predicate Overfull(cfg: Config, m: map<Key, Value>, op: Op)
    requires cfg.width >= 1
  {
    (op.SetOp? || op.SetIfAbsentOp?) && |Crowd(cfg, EntriesOf(m), op.key, 0)| >= MAX_ARRAY_WIDTH
  }

  /** The operations that can fail: such additions, which do, and deletions of absent keys. */
  ghost predicate MayFail(cfg: Config, m: map<Key, Value>, op: Op)
    requires cfg.width >= 1
  {
    Overfull(cfg, m, op) || (op.DeleteOp? && op.key !in m)
  }

  ghost predicate SomeMayFail(cfg: Config, ops: seq<Op>)
    requires cfg.width >= 1
  {
    exists i :: 0 <= i < |ops| && MayFail(cfg, ApplyAll(map[], ops[..i]), ops[i])
  }

  /** The operation took the map `m` to `after` and answered as it should. */
  ghost predicate Stepped(m: map<Key, Value>, op: Op, after: map<Key, Value>, answer: Answer) {
    after == Apply(m, op) && answer == AnswerOf(m, op)
  }

  /** One operation of a history: it fails exactly if it overfills, or deletes what is absent across a link. */
  method Step(h: Hamt, op: Op) returns (ok: bool, answer: Answer)
    requires h.Valid() && h.Complete()
    modifies h, h.store
    ensures ok ==> h.Valid() && h.Complete() && Stepped(old(h.Contents()), op, h.Contents(), answer)
    ensures !ok <==> || Overfull(h.cfg, old(h.Contents()), op)
                     || (op.DeleteOp? && op.key !in old(h.Contents()) && old(CrossesLink(h.cfg, h.root, 0, op.key)))
  {
    ok, answer := true, Flushed;
    match op {
      case SetOp(_, _) => ok, answer := StepSet(h, op);
      case SetIfAbsentOp(_, _) => ok, answer := StepSet(h, op);
      case GetOp(k) => answer := StepGet(h, k);
      case DeleteOp(k) => ok, answer := StepDelete(h, k);
      case FlushOp => var _ := h.Flush();
    }
  }

  method StepSet(h: Hamt, op: Op) returns (ok: bool, answer: Answer)
    requires h.Valid() && h.Complete() && (op.SetOp? || op.SetIfAbsentOp?)
    modifies h
    ensures ok ==> h.Valid() && h.Complete() && Stepped(old(h.Contents()), op, h.Contents(), answer)
    ensures !ok <==> Overfull(h.cfg, old(h.Contents()), op)
  {
    KeysAreUnique(h.cfg, Erase(h.root), 0);
    EntriesOfMap(Entries(Erase(h.root)));
    if op.SetOp? {
      var r := h.Set(op.key, op.value);
      ok, answer := r.Ok?, if r.Ok? then Previous(r.value) else Flushed;
    } else {
      var r := h.SetIfAbsent(op.key, op.value);
      ok, answer := r.Ok?, if r.Ok? then Inserted(r.value) else Flushed;
    }
  }

  method StepGet(h: Hamt, k: Key) returns (answer: Answer)
    requires h.Valid() && h.Complete()
    modifies h
    ensures h.Valid() && h.Complete() && Stepped(old(h.Contents()), GetOp(k), h.Contents(), answer)
  {
    var r := h.Get(k);
    answer := Found(r.value);
  }

  method StepDelete(h: Hamt, k: Key) returns (ok: bool, answer: Answer)
    requires h.Valid() && h.Complete()
    modifies h
    ensures ok ==> h.Valid() && h.Complete() && Stepped(old(h.Contents()), DeleteOp(k), h.Contents(), answer)
    ensures !ok <==> k !in old(h.Contents()) && old(CrossesLink(h.cfg, h.root, 0, k))
  {
    var r := h.Delete(k);
    ok, answer := r.Ok?, if r.Ok? then Removed(r.value) else Flushed;
  }

  /** The first `i` operations led to `m` and returned `answers`, as a map would; none overfilled. */
  ghost predicate Replied(cfg: Config, ops: seq<Op>, i: nat, m: map<Key, Value>, answers: seq<Answer>)
    requires cfg.width >= 1
  {
    && i <= |ops| && |answers| == i && m == ApplyAll(map[], ops[..i]) && answers == AnswersOf(map[], ops[..i])
    && forall j | 0 <= j < i :: !Overfull(cfg, ApplyAll(map[], ops[..j]), ops[j])
  }

  lemma RepliedStep(cfg: Config, ops: seq<Op>, i: nat, m: map<Key, Value>, answers: seq<Answer>)
    requires cfg.width >= 1 && Replied(cfg, ops, i, m, answers) && i < |ops| && !Overfull(cfg, m, ops[i])
    ensures Replied(cfg, ops, i + 1, Apply(m, ops[i]), answers + [AnswerOf(m, ops[i])])
  {
    assert ops[..i + 1][..i] == ops[..i];
  }

  /** Runs the operations in turn until one does not return Ok. */
  method RunOps(h: Hamt, ops: seq<Op>) returns (ok: bool, answers: seq<Answer>)
    requires h.Valid() && h.Complete() && h.Contents() == map[]
    modifies h, h.store
    ensures ok ==> h.Valid() && h.Complete() && Replied(h.cfg, ops, |ops|, h.Contents(), answers)
    ensures !ok ==>
              && |answers| < |ops| && answers == AnswersOf(map[], ops[..|answers|])
              && MayFail(h.cfg, ApplyAll(map[], ops[..|answers|]), ops[|answers|])
  {
    answers, ok := [], true;
    for i := 0 to |ops|
      invariant h.Valid() && h.Complete() && Replied(h.cfg, ops, i, h.Contents(), answers)
    {
      ghost var m := h.Contents();
      var answer;
      ok, answer := Step(h, ops[i]);
      if !ok {
        return;
      }
      RepliedStep(h.cfg, ops, i, m, answers);
      answers := answers + [answer];
    }
    ok := true;
  }

  /** Runs a history from empty and flushes, with what the operations returned; `None` when one did not return Ok. */
  method RunAndFlush(store: BlockStore, cfg: Config, ops: seq<Op>) returns (cid: Option<Cid>, answers: seq<Answer>)
    requires cfg.Valid()
    modifies store
    ensures cid.Some? ==> BlockInv(cfg, cid.value.block, 0) && UniqueKeys(Entries(cid.value.block))
    ensures cid.Some? ==> Replied(cfg, ops, |ops|, AsMap(Entries(cid.value.block)), answers)
    ensures cid.Some? ==> cid.value in store.blocks && Resolvable(store.blocks, cid.value.block)
    ensures cid.None? ==>
              && |answers| < |ops| && answers == AnswersOf(map[], ops[..|answers|])
              && MayFail(cfg, ApplyAll(map[], ops[..|answers|]), ops[|answers|])
  {
    var h := new Hamt.NewWithConfig(store, cfg);
    var ok;
    ok, answers := RunOps(h, ops);
    cid := None;
    if ok {
      var c := h.Flush();
      KeysAreUnique(cfg, c.block, 0);
      cid := Some(c);
    }
  }

  /** Two histories with the same final contents flush to the same root CID, and only those do. */
  method HistoryIndependence(store: BlockStore, cfg: Config, ops: seq<Op>, ops': seq<Op>)
    returns (cid: Option<Cid>, cid': Option<Cid>)
    requires cfg.Valid()
    modifies store
    ensures cid.Some? && cid'.Some? ==> (cid == cid' <==> ApplyAll(map[], ops) == ApplyAll(map[], ops'))
    ensures !SomeMayFail(cfg, ops) ==> cid.Some?
    ensures !SomeMayFail(cfg, ops') ==> cid'.Some?
  {
    var answers;
    cid, answers := RunAndFlush(store, cfg, ops);
    cid', answers := RunAndFlush(store, cfg, ops');
    assert ops[..|ops|] == ops && ops'[..|ops'|] == ops';
    if cid.Some? && cid'.Some? {
      CidDependsOnContentsOnly(cfg, cid.value.block, cid'.value.block);
    }
  }

  lemma SetSucceeds(cfg: Config, m: map<Key, Value>, k: Key, others: set<Key>)
    requires cfg.width >= 1 && |others| < MAX_ARRAY_WIDTH
    requires forall j | j in m && j != k && Agree(cfg, k, j, 0) :: j in others
    ensures |Crowd(cfg, EntriesOf(m), k, 0)| < MAX_ARRAY_WIDTH
  {
    var crowd := Crowd(cfg, EntriesOf(m), k, 0);
    CrowdKeys(m, crowd, others);
  }

  lemma {:induction false} CrowdKeys(m: map<Key, Value>, crowd: set<Entry>, others: set<Key>)
    requires forall e | e in crowd :: e.key in m && e.value == m[e.key] && e.key in others
    ensures |crowd| <= |others|
    decreases crowd
  {
    if crowd == {} {
    } else {
      var e :| e in crowd;
      CrowdKeys(m, crowd - {e}, others - {e.key});
    }
  }

  method SetOk(h: Hamt, k: Key, v: Value, ghost others: set<Key>)
    requires h.Valid() && h.Complete() && |others| < MAX_ARRAY_WIDTH
    requires forall j | j in h.Contents() && j != k && Agree(h.cfg, k, j, 0) :: j in others
    modifies h
    ensures h.Valid() && h.Complete() && h.Contents() == old(h.Contents())[k := v]
  {
    KeysAreUnique(h.cfg, Erase(h.root), 0);
    EntriesOfMap(Entries(Erase(h.root)));
    SetSucceeds(h.cfg, h.Contents(), k, others);
    var r := h.Set(k, v);
  }

  predicate Distinct4(a: Key, b: Key, c: Key, d: Key) {
    a != b && a != c && a != d && b != c && b != d && c != d
  }

  method SetTwo(h: Hamt, a: Key, b: Key, v: Value)
    requires h.Valid() && h.Complete() && h.Contents() == map[] && a != b
    modifies h
    ensures h.Valid() && h.Complete() && h.Contents() == map[a := v, b := v]
  {
    SetOk(h, a, v, {});
    assert h.Contents() == map[a := v];
    SetOk(h, b, v, {a});
  }

  /** Sets four keys that some depth separates. */
  method SetFour(h: Hamt, a: Key, b: Key, c: Key, d: Key, v: Value)
    requires h.Valid() && h.Complete() && h.Contents() == map[]
    requires Distinct4(a, b, c, d) && !Agree(h.cfg, d, a, 0)
    modifies h
    ensures h.Valid() && h.Complete() && h.Contents() == map[a := v, b := v, c := v, d := v]
  {
    SetTwo(h, a, b, v);
    SetOk(h, c, v, {a, b});
    assert h.Contents() == map[a := v, b := v, c := v];
    SetOk(h, d, v, {b, c});
  }

  /** `k` starts with the same chunk as the four keys. */
  predicate AllShare(cfg: Config, a: Key, b: Key, c: Key, d: Key, k: Key)
    requires 1 <= cfg.width <= 8
  {
    cfg.Slot(a, 0) == cfg.Slot(b, 0) == cfg.Slot(c, 0) == cfg.Slot(d, 0) == cfg.Slot(k, 0)
  }

  /**
   The panic of delete: four keys that start with one chunk and that some depth separates are set and
   flushed, and a fifth key that starts with the chunk is deleted.
   */
  method DeletePanics(store: BlockStore, cfg: Config, a: Key, b: Key, c: Key, d: Key, v: Value, absent: Key)
    returns (r: Result<Option<Entry>>)
    requires cfg.Valid() && Distinct4(a, b, c, d) && absent != a && absent != b && absent != c && absent != d
    requires AllShare(cfg, a, b, c, d, absent) && !Agree(cfg, d, a, 0)
    modifies store
    ensures r.Panic?
  {
    var h := new Hamt.NewWithConfig(store, cfg);
    SetFour(h, a, b, c, d, v);
    KeysAreUnique(cfg, Erase(h.root), 0);
    ghost var es := Entries(Erase(h.root));
    EntriesOfMap(es);
    FourShare(cfg, es, a, b, c, d, v, absent);
    var cid;
    cid, r := h.DeleteAfterFlush(absent);
  }

  lemma FourShare(cfg: Config, es: set<Entry>, a: Key, b: Key, c: Key, d: Key, v: Value, k: Key)
    requires cfg.Valid() && Distinct4(a, b, c, d) && AllShare(cfg, a, b, c, d, k)
    requires es == EntriesOf(map[a := v, b := v, c := v, d := v])
    ensures |Sharing(cfg, es, k)| > MAX_ARRAY_WIDTH
  {
    var m := map[a := v, b := v, c := v, d := v];
    var four := {Entry(a, m[a]), Entry(b, m[b]), Entry(c, m[c]), Entry(d, m[d])};
    assert |four| == 4;
    SubsetSize(four, Sharing(cfg, es, k));
  }
}
