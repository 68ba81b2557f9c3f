/** Whole histories of an `Amt`, with what every operation answers, and a write that a flush loses. */
module AmtRuns {

  import opened Common
  import opened Callbacks
  import opened AmtIndex
  import opened AmtCodec
  import opened AmtModel
  import opened AmtNode
  import opened AmtWalk
  import opened AmtMutate
  import opened AmtTree
  import opened AmtApi

  // ---- a vector as a list ----

  /** A finite vector can be listed. */
  lemma {:induction false} HasItems(m: map<nat, Value>) returns (l: seq<Item>)
    ensures Enumerates(l, m)
    decreases |m|
  {
    if m == map[] {
      l := [];
    } else {
      var i := LastIndex(m.Keys);
      var init := HasItems(m - {i});
      l := init + [Item(i, m[i])];
      ListedLast(init, m, i);
    }
  }

  lemma {:induction false} LastIndex(s: set<nat>) returns (i: nat)
    requires s != {}
    ensures i in s && forall j | j in s :: j <= i
    decreases |s|
  {
    var k :| k in s;
    if s == {k} {
      i := k;
    } else {
      var j := LastIndex(s - {k});
      i := if j > k then j else k;
      assert forall n | n in s :: n == k || n in s - {k};
    }
  }

  lemma ListedLast(init: seq<Item>, m: map<nat, Value>, i: nat)
    requires i in m && (forall j | j in m :: j <= i) && Enumerates(init, m - {i})
    ensures Enumerates(init + [Item(i, m[i])], m)
  {
    var l, last := init + [Item(i, m[i])], Item(i, m[i]);
    forall k | 0 <= k < |init|
      ensures init[k].i < i
    {
      assert init[k] in init;
    }
    forall x: Item
      ensures x in l <==> x.i in m && m[x.i] == x.v
    {
      assert x in l <==> x in init || x == last;
    }
  }

  lemma EnumeratesInit(l: seq<Item>, m: map<nat, Value>)
    requires Enumerates(l, m) && l != []
    ensures var last := l[|l| - 1];
            && last.i in m && m[last.i] == last.v && (forall j | j in m :: j <= last.i)
            && Enumerates(l[..|l| - 1], m - {last.i})
  {
    var n := |l| - 1;
    var init, last := l[..n], l[n];
    assert last in l;
    forall j | j in m
      ensures j <= last.i
    {
      assert Item(j, m[j]) in l;
    }
    forall x: Item
      ensures x in init <==> x.i in m - {last.i} && (m - {last.i})[x.i] == x.v
    {
      assert x in l <==> x in init || x == last;
      if x in init {
        var k :| 0 <= k < n && init[k] == x;
        assert l[k].i < l[n].i;
      }
    }
  }

  /** In one way only. */
  lemma {:induction false} ItemsUnique(a: seq<Item>, b: seq<Item>, m: map<nat, Value>)
    requires Enumerates(a, m) && Enumerates(b, m)
    ensures a == b
    decreases |a|
  {
    if a == [] {
      NoItems(b, m);
    } else if b == [] {
      NoItems(a, m);
    } else {
      var p, q := |a| - 1, |b| - 1;
      EnumeratesInit(a, m);
      EnumeratesInit(b, m);
      SameLast(a[p], b[q], m);
      ItemsUnique(a[..p], b[..q], m - {a[p].i});
      InitAndLast(a);
      InitAndLast(b);
    }
  }

  lemma InitAndLast(l: seq<Item>)
    requires l != []
    ensures l == l[..|l| - 1] + [l[|l| - 1]]
  {
  }

  lemma SameLast(x: Item, y: Item, m: map<nat, Value>)
    requires x.i in m && m[x.i] == x.v && y.i in m && m[y.i] == y.v
    requires forall j | j in m :: j <= x.i && j <= y.i
    ensures x == y
  {
  }

  lemma NoItems(l: seq<Item>, m: map<nat, Value>)
    requires Enumerates([], m) && Enumerates(l, m)
    ensures l == []
  {
    FirstIsIn(l);
  }

  lemma FirstIsIn(l: seq<Item>)
    ensures l == [] || l[0] in l
  {
  }

  /** The entries of a vector in increasing index order. */
  ghost function Items(m: map<nat, Value>): (l: seq<Item>)
    ensures Enumerates(l, m)
  {
    assert exists l :: Enumerates(l, m) by {
      var l := HasItems(m);
    }
    var l :| Enumerates(l, m);
    l
  }

  /** The vector after a mutating walk: the values of the entries that were met are as the callback left them. */
  ghost function Mutated(m: map<nat, Value>, g: MutCallback): map<nat, Value> {
    map i | i in m :: if Item(i, m[i]) in RunMut(Items(m), g).calls then After(g, Item(i, m[i])) else m[i]
  }

  lemma MutatedIs(m: map<nat, Value>, g: MutCallback, m': map<nat, Value>)
    ensures Rewritten(m, RunMut(Items(m), g).calls, g, m') <==> m' == Mutated(m, g)
  {
    var calls := RunMut(Items(m), g).calls;
    forall x: Item | x in calls
      ensures x.i in m && m[x.i] == x.v
    {
      CallsListed(Items(m), m, g, x);
    }
    if Rewritten(m, calls, g, m') {
      forall i | i in m
        ensures m'[i] == Mutated(m, g)[i]
      {
        var x := Item(i, m[i]);
        assert x in calls ==> g(x).written == Some(After(g, x)) || g(x).written.None?;
      }
    }
  }

  // ---- histories ----

  datatype Op =
    | SetOp(i: nat, v: Value)
    | DeleteOp(i: nat)
    | GetOp(i: nat)
    | WalkOp(f: Callback)
    | MutateOp(g: MutCallback)
    | FlushOp

  /** What an operation returns. */
  datatype Answer =
    | Done
    | Found(found: Option<Value>)
    | Walked(calls: seq<Item>, failed: bool)
    | OutOfBounds

  /** The operation names an index that no vector has. */
  predicate Beyond(op: Op) {
    (op.SetOp? || op.DeleteOp? || op.GetOp?) && op.i > MAX_INDEX
  }

  ghost function Apply(m: map<nat, Value>, op: Op): map<nat, Value> {
    if Beyond(op) then m
    else
      match op
      case SetOp(i, v) => m[i := v]
      case DeleteOp(i) => m - {i}
      case MutateOp(g) => Mutated(m, g)
      case _ => m
  }

  /** What a plain vector would return. */
  ghost function AnswerOf(m: map<nat, Value>, op: Op): Answer {
    if Beyond(op) then OutOfBounds
    else
      match op
      case DeleteOp(i) => Found(if i in m then Some(m[i]) else None)
      case GetOp(i) => Found(if i in m then Some(m[i]) else None)
      case WalkOp(f) => Walked(CallEach(Items(m), f).calls, CallEach(Items(m), f).reply.Fail?)
      case MutateOp(g) => Walked(RunMut(Items(m), g).calls, false)
      case _ => Done
  }

  /** The callback of a mutating walk fails on the vector. */
  ghost predicate Fails(m: map<nat, Value>, op: Op) {
    op.MutateOp? && RunMut(Items(m), op.g).reply.Fail?
  }

  ghost function ApplyAll(m: map<nat, Value>, ops: seq<Op>): map<nat, Value> {
    if ops == [] then m else Apply(ApplyAll(m, ops[..|ops| - 1]), ops[|ops| - 1])
  }

  ghost function AnswersOf(m: map<nat, Value>, ops: seq<Op>): seq<Answer> {
    if ops == [] then []
    else
      var n := |ops| - 1;
      AnswersOf(m, ops[..n]) + [AnswerOf(ApplyAll(m, ops[..n]), ops[n])]
  }

  /** The operation took the vector `m` to `after` and answered as it should. */
  ghost predicate Stepped(m: map<nat, Value>, op: Op, after: map<nat, Value>, answer: Answer) {
    after == Apply(m, op) && answer == AnswerOf(m, op)
  }

  /** One operation of a history: it fails if and only if it is a mutating walk whose callback does. */
  method Step(a: Amt, op: Op) returns (ok: bool, answer: Answer)
    requires a.Valid() && a.Complete()
    modifies a, a.store
    ensures ok ==> a.Valid() && a.Complete() && Stepped(old(a.Vector()), op, a.Vector(), answer)
    ensures !ok <==> Fails(old(a.Vector()), op)
  {
    ok := true;
    match op {
      case SetOp(i, v) => answer := StepSet(a, i, v);
      case DeleteOp(i) => answer := StepDelete(a, i);
      case GetOp(i) => answer := StepGet(a, i);
      case WalkOp(f) => answer := StepWalk(a, f);
      case MutateOp(g) => ok, answer := StepMutate(a, g);
      case FlushOp => answer := StepFlush(a);
    }
  }

  method StepSet(a: Amt, i: nat, v: Value) returns (answer: Answer)
    requires a.Valid() && a.Complete()
    modifies a
    ensures a.Valid() && a.Complete() && Stepped(old(a.Vector()), SetOp(i, v), a.Vector(), answer)
  {
    var r := a.Set(i, v);
    answer := if r.Ok? then Done else OutOfBounds;
  }

  method StepDelete(a: Amt, i: nat) returns (answer: Answer)
    requires a.Valid() && a.Complete()
    modifies a
    ensures a.Valid() && a.Complete() && Stepped(old(a.Vector()), DeleteOp(i), a.Vector(), answer)
  {
    ghost var m := a.Vector();
    var r := a.Delete(i);
    answer := if r.Ok? then Found(r.value) else OutOfBounds;
    DeleteAnswer(m, i, a.Vector(), answer);
  }

  lemma DeleteAnswer(m: map<nat, Value>, i: nat, after: map<nat, Value>, answer: Answer)
    requires if i > MAX_INDEX then after == m && answer == OutOfBounds
             else after == m - {i} && answer == Found(if i in m then Some(m[i]) else None)
    ensures Stepped(m, DeleteOp(i), after, answer)
  {
  }

  method StepGet(a: Amt, i: nat) returns (answer: Answer)
    requires a.Valid() && a.Complete()
    modifies a`node
    ensures a.Valid() && a.Complete() && Stepped(old(a.Vector()), GetOp(i), a.Vector(), answer)
  {
    var r := a.Get(i);
    answer := if r.Ok? then Found(r.value) else OutOfBounds;
  }

  method StepFlush(a: Amt) returns (answer: Answer)
    requires a.Valid() && a.Complete()
    modifies a`node, a.store
    ensures a.Valid() && a.Complete() && Stepped(old(a.Vector()), FlushOp, a.Vector(), answer)
  {
    var _ := a.Flush();
    answer := Done;
  }

  method StepWalk(a: Amt, f: Callback) returns (answer: Answer)
    requires a.Valid() && a.Complete()
    modifies a`node
    ensures a.Valid() && a.Complete() && Stepped(old(a.Vector()), WalkOp(f), a.Vector(), answer)
  {
    var r, calls := a.ForEachWhile(f);
    answer := Walked(calls, r.Err?);
    WalkAnswer(Listing(a.width, Erase(a.node), a.height, 0), a.Vector(), f, answer);
  }

  lemma WalkAnswer(l: seq<Item>, m: map<nat, Value>, f: Callback, answer: Answer)
    requires Enumerates(l, m) && answer == Walked(CallEach(l, f).calls, CallEach(l, f).reply.Fail?)
    ensures Stepped(m, WalkOp(f), m, answer)
  {
    ItemsUnique(l, Items(m), m);
  }

  method StepMutate(a: Amt, g: MutCallback) returns (ok: bool, answer: Answer)
    requires a.Valid() && a.Complete()
    modifies a`node
    ensures ok ==> a.Valid() && a.Complete() && Stepped(old(a.Vector()), MutateOp(g), a.Vector(), answer)
    ensures !ok <==> Fails(old(a.Vector()), MutateOp(g))
  {
    ghost var m, l := a.Vector(), Listing(a.width, Erase(a.node), a.height, 0);
    var r, calls := a.ForEachWhileMut(g);
    ok, answer := r.Ok?, Walked(calls, false);
    MutateFails(l, m, g);
    if ok {
      MutateAnswer(l, m, g, a.Vector(), answer);
    }
  }

  lemma MutateFails(l: seq<Item>, m: map<nat, Value>, g: MutCallback)
    requires Enumerates(l, m)
    ensures Fails(m, MutateOp(g)) <==> RunMut(l, g).reply.Fail?
  {
    ItemsUnique(l, Items(m), m);
  }

  lemma MutateAnswer(l: seq<Item>, m: map<nat, Value>, g: MutCallback, after: map<nat, Value>, answer: Answer)
    requires Enumerates(l, m) && Enumerates(RunMut(l, g).after, after) && answer == Walked(RunMut(l, g).calls, false)
    ensures Stepped(m, MutateOp(g), after, answer)
  {
    ItemsUnique(l, Items(m), m);
    MutatedBecause(m, g, after);
  }

  lemma MutatedBecause(m: map<nat, Value>, g: MutCallback, after: map<nat, Value>)
    requires Enumerates(RunMut(Items(m), g).after, after)
    ensures after == Mutated(m, g)
  {
    RewrittenBecause(Items(m), m, g, after);
    MutatedIs(m, g, after);
  }

  /** The first `k` operations took effect and were answered as on a plain vector. */
  ghost predicate Replied(ops: seq<Op>, k: nat, m: map<nat, Value>, answers: seq<Answer>) {
    k <= |ops| && |answers| == k && m == ApplyAll(map[], ops[..k]) && answers == AnswersOf(map[], ops[..k])
  }

  lemma RepliedStep(ops: seq<Op>, k: nat, m: map<nat, Value>, answers: seq<Answer>)
    requires k < |ops| && Replied(ops, k, m, answers)
    ensures Replied(ops, k + 1, Apply(m, ops[k]), answers + [AnswerOf(m, ops[k])])
  {
    assert ops[..k + 1][..k] == ops[..k];
  }

  /** Runs the operations in turn until a mutating walk fails. */
  method RunOps(a: Amt, ops: seq<Op>) returns (ok: bool, answers: seq<Answer>)
    requires a.Valid() && a.Complete() && a.Vector() == map[]
    modifies a, a.store
    ensures ok ==> a.Valid() && a.Complete() && Replied(ops, |ops|, a.Vector(), answers)
    ensures !ok ==>
              && |answers| < |ops| && answers == AnswersOf(map[], ops[..|answers|])
              && Fails(ApplyAll(map[], ops[..|answers|]), ops[|answers|])
  {
    answers, ok := [], true;
    for k := 0 to |ops|
      invariant a.Valid() && a.Complete() && Replied(ops, k, a.Vector(), answers)
    {
      ghost var m := a.Vector();
      var answer;
      ok, answer := Step(a, ops[k]);
      if !ok {
        return;
      }
      RepliedStep(ops, k, m, answers);
      answers := answers + [answer];
    }
    ok := true;
  }

  /** Runs a history from empty and flushes, with the answers; `None` when a mutating walk failed. */
  method RunAndFlush(store: BlockStore, width: nat, ops: seq<Op>) returns (c: Option<RootCid>, answers: seq<Answer>)
    requires 1 <= width < 64
    modifies store
    ensures c.Some? ==> c.value.width == width && RootValid(c.value)
    ensures c.Some? ==> Replied(ops, |ops|, Contents(c.value.width, c.value.node, c.value.height), answers)
    ensures c.Some? ==> c.value in store.roots && Resolvable(store.nodes, c.value.node)
    ensures c.None? ==>
              && |answers| < |ops| && answers == AnswersOf(map[], ops[..|answers|])
              && Fails(ApplyAll(map[], ops[..|answers|]), ops[|answers|])
  {
    var a := new Amt.NewWithBitWidth(store, width);
    var ok;
    ok, answers := RunOps(a, ops);
    c := None;
    if ok {
      var root := a.Flush();
      c := Some(root);
    }
  }

  // ---- a write that a flush loses ----

  /** Writes `v` to the first entry it meets, and fails. */
  function WriteAndFail(v: Value): MutCallback {
    x => Visit(Some(v), Fail)
  }

  lemma FirstFails(l: seq<Item>, v: Value)
    requires l != []
    ensures var run := RunMut(l, WriteAndFail(v));
            run.reply.Fail? && run.calls == [l[0]] && run.after == [Item(l[0].i, v)] + l[1..]
  {
  }

  lemma InSlot(w: nat, links: seq<Option<Cid>>, h: nat, k: nat, x: Item)
    requires SlotsWellFormed(w, links, h) && k < |links|
    requires SlotWellFormed(w, links[k], h) && x in SlotListing(w, links[k], h, SlotOffset(0, k, Cap(w, h + 1)))
    ensures x in ListLinks(w, links, h, 0)
  {
    ListLinksStep(w, links, h, 0, k);
    LinksSplit(w, links, h, 0, k + 1);
  }

  /** The root that a flush would store after a failed walk holds the slot of the failure as it was. */
  lemma FailedSlotIsOld(w: nat, n: Node, n': Node, h: nat, calls: seq<Item>, k: nat)
    requires h > 0 && WellFormed(w, Erase(n), h) && WellFormed(w, Seen(n'), h) && FailedSlot(w, n, n', h, 0, calls, k)
    requires !IsDirty(n.links[k])
    ensures WellFormed(w, Erase(n'), h)
    ensures forall x | x in SlotListing(w, Erase(n).links[k], h - 1, SlotOffset(0, k, Cap(w, h))) ::
              x in Listing(w, Erase(n'), h, 0)
  {
    FailureLoses(n, n', k);
    assert SlotsWellFormed(w, Erase(n').links, h - 1);
    forall x | x in SlotListing(w, Erase(n).links[k], h - 1, SlotOffset(0, k, Cap(w, h)))
      ensures x in Listing(w, Erase(n'), h, 0)
    {
      InSlot(w, Erase(n').links, h - 1, k, x);
    }
  }

  lemma WidthInRange(width: nat)
    requires 1 <= width < 64
    ensures 0 < Width(width) <= MAX_INDEX
  {
    Pow2Monotone(width, 63);
    Pow2Of64();
  }

  /** A vector of two values that needs two levels. */
  method TwoLevels(store: BlockStore, width: nat, v: Value) returns (a: Amt)
    requires 1 <= width < 64
    modifies store
    ensures fresh(a) && a.Valid() && a.Complete() && a.height > 0 && a.width == width && Clean(a.node)
    ensures a.Vector() == map[0 := v, Width(width) := v]
  {
    a := new Amt.NewWithBitWidth(store, width);
    WidthInRange(width);
    var _ := a.Set(0, v);
    var _ := a.Set(Width(width), v);
    var _ := a.Flush();
    assert Cap(width, 0) == 1 && Cap(width, 1) == Width(width);
    assert Width(width) in a.Vector();
  }

  lemma TwoItems(width: nat, v: Value, l: seq<Item>)
    requires 1 <= width < 64 && Enumerates(l, map[0 := v, Width(width) := v])
    ensures l == [Item(0, v), Item(Width(width), v)]
  {
    WidthInRange(width);
    var two, m := [Item(0, v), Item(Width(width), v)], map[0 := v, Width(width) := v];
    assert Enumerates(two, m);
    ItemsUnique(l, two, m);
  }

  /** After a callback wrote and failed, reads of a flushed vector meet the new value and the next root has the old one. */
  method FlushLosesWrite(store: BlockStore, width: nat, v: Value, u: Value) returns (a: Amt)
    requires 1 <= width < 64
    modifies store
    ensures fresh(a) && a.width == width && WellFormed(width, Seen(a.node), a.height) && WellFormed(width, Erase(a.node), a.height)
    ensures At(width, Seen(a.node), a.height, 0) == Some(u) && At(width, Erase(a.node), a.height, 0) == Some(v)
  {
    a := TwoLevels(store, width, v);
    ghost var n, l := a.node, Listing(width, Erase(a.node), a.height, 0);
    var r, calls := a.ForEachWhileMut(WriteAndFail(u));
    TwoItems(width, v, l);
    FirstFails(l, u);
    FirstIsOld(width, n, a.node, a.height, calls, v);
    ListedAt(width, Seen(a.node), a.height, Item(0, u));
  }

  lemma FirstIsOld(w: nat, n: Node, n': Node, h: nat, calls: seq<Item>, v: Value)
    requires h > 0 && WellFormed(w, Erase(n), h) && WellFormed(w, Seen(n'), h) && Clean(n)
    requires FailedIn(w, n, n', h, 0, calls) && calls == [Item(0, v)]
    ensures WellFormed(w, Erase(n'), h) && At(w, Erase(n'), h, 0) == Some(v)
  {
    var k: nat :| FailedSlot(w, n, n', h, 0, calls, k);
    FailedSlotIsOld(w, n, n', h, calls, k);
    ListedAt(w, Erase(n'), h, Item(0, v));
  }
}
