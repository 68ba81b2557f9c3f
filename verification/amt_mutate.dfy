/** Iteration that may modify values in place: `for_each_while_mut`. */
module AmtMutate {
  import opened Common
  import opened Callbacks
  import opened AmtIndex
  import opened AmtCodec
  import opened AmtModel
  import opened AmtNode
  import opened AmtWalk

  /** What a callback did with a `ValueMut`: the value it wrote, if it took a mutable reference, and its reply. */
  datatype Visit = Visit(written: Option<Value>, reply: Reply)
  type MutCallback = Item -> Visit

  function After(g: MutCallback, x: Item): Value {
    if g(x).written.Some? then g(x).written.value else x.v
  }

  /** The calls made, the entries left behind, the last reply, and `did_mutate`. */
  datatype MutRun = MutRun(calls: seq<Item>, after: seq<Item>, reply: Reply, mutated: bool)

  /** Calling `g` on the entries in turn until it declines or fails. */
  ghost function RunMut(l: seq<Item>, g: MutCallback): MutRun {
    if l == [] then MutRun([], [], GoOn, false)
    else
      var x, visit := l[0], g(l[0]);
      var x' := Item(x.i, After(g, x));
      if !visit.reply.GoOn? then MutRun([x], [x'] + l[1..], visit.reply, visit.written.Some?)
      else
        var rest := RunMut(l[1..], g);
        MutRun([x] + rest.calls, [x'] + rest.after, rest.reply, visit.written.Some? || rest.mutated)
  }

  ghost function Join(a: MutRun, b: MutRun): MutRun {
    MutRun(a.calls + b.calls, a.after + b.after, b.reply, a.mutated || b.mutated)
  }

  lemma {:induction false} RunMutGoesOn(l: seq<Item>, m: seq<Item>, g: MutCallback)
    requires RunMut(l, g).reply.GoOn?
    ensures RunMut(l + m, g) == Join(RunMut(l, g), RunMut(m, g))
  {
    if l == [] {
      assert l + m == m;
    } else {
      RunMutGoesOn(l[1..], m, g);
      assert (l + m)[0] == l[0] && (l + m)[1..] == l[1..] + m;
      ConcatAssoc([l[0]], RunMut(l[1..], g).calls, RunMut(m, g).calls);
      ConcatAssoc([Item(l[0].i, After(g, l[0]))], RunMut(l[1..], g).after, RunMut(m, g).after);
    }
  }

  lemma {:induction false} RunMutStops(l: seq<Item>, m: seq<Item>, g: MutCallback)
    requires !RunMut(l, g).reply.GoOn?
    ensures RunMut(l + m, g) == RunMut(l, g).(after := RunMut(l, g).after + m)
  {
    assert (l + m)[0] == l[0] && (l + m)[1..] == l[1..] + m;
    var x' := [Item(l[0].i, After(g, l[0]))];
    if g(l[0]).reply.GoOn? {
      RunMutStops(l[1..], m, g);
      ConcatAssoc(x', RunMut(l[1..], g).after, m);
    } else {
      ConcatAssoc(x', l[1..], m);
    }
  }

  ghost predicate Wrote(l: seq<Item>, g: MutCallback) {
    exists k :: 0 <= k < |l| && g(l[k]).written.Some?
  }

  lemma WroteCons(x: Item, t: seq<Item>, g: MutCallback)
    ensures Wrote([x] + t, g) <==> g(x).written.Some? || Wrote(t, g)
  {
    var l := [x] + t;
    assert l[0] == x;
    assert forall k | 0 <= k < |t| :: l[k + 1] == t[k];
    if Wrote(l, g) && !g(x).written.Some? {
      var k :| 0 <= k < |l| && g(l[k]).written.Some?;
      assert g(t[k - 1]).written.Some?;
    }
    if Wrote(t, g) {
      var k :| 0 <= k < |t| && g(t[k]).written.Some?;
      assert g(l[k + 1]).written.Some?;
    }
  }

  /** The callback went on after every call, save the last one if the run was cut off. */
  ghost predicate StopsAtDecline(calls: seq<Item>, reply: Reply, g: MutCallback) {
    && (reply.GoOn? || (calls != [] && g(calls[|calls| - 1]).reply == reply))
    && (forall k | 0 <= k < |calls| :: g(calls[k]).reply.GoOn? <==> reply.GoOn? || k < |calls| - 1)
  }

  /** The callback meets the entries in order, all of them unless it declines or fails, none after it does. */
  lemma {:induction false} RunMutCalls(l: seq<Item>, g: MutCallback)
    ensures var run := RunMut(l, g);
            var n := |run.calls|;
            && n <= |l| && run.calls == l[..n] && (run.reply.GoOn? ==> n == |l|)
            && StopsAtDecline(run.calls, run.reply, g)
            && (run.mutated <==> Wrote(run.calls, g))
  {
    if l == [] {
    } else {
      var x, t := l[0], l[1..];
      RunMutCalls(t, g);
      var calls := if g(x).reply.GoOn? then RunMut(t, g).calls else [];
      assert [x] + calls == RunMut(l, g).calls;
      WroteCons(x, calls, g);
      assert l[..|calls| + 1] == [x] + t[..|calls|];
    }
  }

  /** The entry that a visit leaves behind: with the value the callback wrote, if it did. */
  ghost predicate Left(x: Item, visit: Visit, y: Item) {
    match visit.written
    case Some(u) => y == Item(x.i, u)
    case None => y == x
  }

  /** Only the entries met change, only their values do, and only where the callback wrote. */
  ghost predicate LeftBehind(l: seq<Item>, g: MutCallback, n: nat, after: seq<Item>) {
    && |after| == |l|
    && (forall k | 0 <= k < |l| && k < n :: Left(l[k], g(l[k]), after[k]))
    && (forall k | n <= k < |l| :: after[k] == l[k])
  }

  lemma LeftCons(x: Item, y: Item, t: seq<Item>, g: MutCallback, n: nat, after: seq<Item>)
    requires Left(x, g(x), y) && LeftBehind(t, g, n, after)
    ensures LeftBehind([x] + t, g, n + 1, [y] + after)
  {
  }

  lemma {:induction false} RunMutAfter(l: seq<Item>, g: MutCallback)
    ensures var run := RunMut(l, g); LeftBehind(l, g, |run.calls|, run.after)
  {
    if l == [] {
    } else {
      var x, t := l[0], l[1..];
      assert l == [x] + t;
      var y := Item(x.i, After(g, x));
      if g(x).reply.GoOn? {
        RunMutAfter(t, g);
        LeftCons(x, y, t, g, |RunMut(t, g).calls|, RunMut(t, g).after);
      } else {
        LeftCons(x, y, t, g, 0, t);
      }
    }
  }

  ghost predicate SameShape(a: seq<Option<Value>>, b: seq<Option<Value>>) {
    |a| == |b| && forall k | 0 <= k < |a| :: a[k].Some? <==> b[k].Some?
  }

  /** The slots before `i` were visited, those after are as they were. */
  ghost predicate LeafInv(vals: seq<Option<Value>>, now: seq<Option<Value>>, offset: nat, i: nat, g: MutCallback,
                          calls: seq<Item>, mutated: bool) {
    && SameShape(vals, now) && i <= |vals| && (forall k | i <= k < |vals| :: now[k] == vals[k])
    && (!mutated ==> now == vals)
    && RunMut(ListVals(vals[..i], offset), g) == MutRun(calls, ListVals(now[..i], offset), GoOn, mutated)
  }

  /** The leaf arm. */
  method MutateLeaf(vals: seq<Option<Value>>, offset: nat, g: MutCallback)
    returns (reply: Reply, mutated: bool, calls: seq<Item>, vals': seq<Option<Value>>)
    ensures SameShape(vals, vals') && (!mutated ==> vals' == vals)
    ensures RunMut(ListVals(vals, offset), g) == MutRun(calls, ListVals(vals', offset), reply, mutated)
  {
    reply, mutated, calls, vals' := GoOn, false, [], vals;
    for i := 0 to |vals|
      invariant reply.GoOn? && LeafInv(vals, vals', offset, i, g, calls, mutated)
    {
      if vals[i].Some? {
        var x := Item(offset + i, vals[i].value);
        var visit := g(x);
        var now, wrote := vals'[i := Some(After(g, x))], mutated || visit.written.Some?;
        LeafStep(vals, vals', now, offset, i, g, calls, mutated, wrote, x);
        vals', calls, mutated := now, calls + [x], wrote;
        if !visit.reply.GoOn? {
          return visit.reply, mutated, calls, vals';
        }
      } else {
        LeafSkip(vals, vals', offset, i, g, calls, mutated);
      }
    }
    assert vals[..|vals|] == vals && vals'[..|vals|] == vals';
  }

  lemma LeafSkip(vals: seq<Option<Value>>, now: seq<Option<Value>>, offset: nat, i: nat, g: MutCallback,
                 calls: seq<Item>, mutated: bool)
    requires i < |vals| && vals[i].None? && LeafInv(vals, now, offset, i, g, calls, mutated)
    ensures LeafInv(vals, now, offset, i + 1, g, calls, mutated)
  {
    ValsStep(vals, offset, i);
    ValsStep(now, offset, i);
    assert ListVals(vals[..i + 1], offset) == ListVals(vals[..i], offset);
    assert ListVals(now[..i + 1], offset) == ListVals(now[..i], offset);
  }

  lemma LeafRun(vals: seq<Option<Value>>, was: seq<Option<Value>>, now: seq<Option<Value>>, offset: nat, i: nat,
                g: MutCallback, calls: seq<Item>, mutated: bool, x: Item)
    requires i < |vals| && vals[i] == Some(x.v) && x.i == offset + i && |was| == |vals|
    requires RunMut(ListVals(vals[..i], offset), g) == MutRun(calls, ListVals(was[..i], offset), GoOn, mutated)
    requires now == was[i := Some(After(g, x))]
    ensures RunMut(ListVals(vals[..i + 1], offset), g) ==
            MutRun(calls + [x], ListVals(now[..i + 1], offset), g(x).reply, mutated || g(x).written.Some?)
  {
    assert now[..i] == was[..i];
    ValsStep(vals, offset, i);
    ValsStep(now, offset, i);
    RunMutGoesOn(ListVals(vals[..i], offset), [x], g);
    RunMutOne(x, g);
  }

  lemma LeafStop(vals: seq<Option<Value>>, now: seq<Option<Value>>, offset: nat, i: nat, g: MutCallback, run: MutRun)
    requires i <= |vals| == |now| && forall k | i <= k < |vals| :: now[k] == vals[k]
    requires RunMut(ListVals(vals[..i], offset), g) == run && !run.reply.GoOn? && run.after == ListVals(now[..i], offset)
    ensures RunMut(ListVals(vals, offset), g) == run.(after := ListVals(now, offset))
  {
    ValsSplit(vals, offset, i);
    ValsSplit(now, offset, i);
    ValsFromAgree(vals, now, offset, i);
    RunMutStops(ListVals(vals[..i], offset), ValsFrom(vals, offset, i), g);
  }

  lemma LeafStep(vals: seq<Option<Value>>, was: seq<Option<Value>>, now: seq<Option<Value>>, offset: nat, i: nat,
                 g: MutCallback, calls: seq<Item>, mutated: bool, wrote: bool, x: Item)
    requires i < |vals| && vals[i] == Some(x.v) && x.i == offset + i
    requires LeafInv(vals, was, offset, i, g, calls, mutated)
    requires now == was[i := Some(After(g, x))] && wrote == (mutated || g(x).written.Some?)
    ensures SameShape(vals, now) && (!wrote ==> now == vals)
    ensures g(x).reply.GoOn? ==> LeafInv(vals, now, offset, i + 1, g, calls + [x], wrote)
    ensures !g(x).reply.GoOn? ==>
              RunMut(ListVals(vals, offset), g) == MutRun(calls + [x], ListVals(now, offset), g(x).reply, wrote)
  {
    LeafRun(vals, was, now, offset, i, g, calls, mutated, x);
    if !g(x).reply.GoOn? {
      LeafStop(vals, now, offset, i + 1, g, MutRun(calls + [x], ListVals(now[..i + 1], offset), g(x).reply, wrote));
    }
  }

  lemma RunMutOne(x: Item, g: MutCallback)
    ensures RunMut([x], g) == MutRun([x], [Item(x.i, After(g, x))], g(x).reply, g(x).written.Some?)
  {
    assert [x][1..] == [];
  }

  // ---- what reads meet ----

  /** The node as `get` reads it: caches before CIDs. */
  ghost function Seen(n: Node): (f: Flat)
    ensures f.Links? <==> n.LinkNode?
    ensures f.Links? ==> |f.links| == |n.links|
    decreases n
  {
    match n
    case LeafNode(vals) => Leaf(vals)
    case LinkNode(links) => Links(seq(|links|, i requires 0 <= i < |links| => SeenLink(links[i])))
  }

  ghost function SeenLink(l: Option<Link>): Option<Cid>
    decreases l
  {
    match l
    case None => None
    case Some(CidLink(c, None)) => Some(c)
    case Some(CidLink(_, Some(n))) => Some(Cid(Seen(n)))
    case Some(Dirty(n)) => Some(Cid(Seen(n)))
  }

  /** Reads of a coherent node meet what its CID names. */
  lemma {:induction false} SeenCoherent(n: Node)
    requires Coherent(n)
    ensures Seen(n) == Erase(n)
    decreases n
  {
    if n.LinkNode? {
      forall i | 0 <= i < |n.links|
        ensures SeenLink(n.links[i]) == EraseLink(n.links[i])
      {
        SeenLinkCoherent(n.links[i]);
      }
    }
  }

  lemma {:induction false} SeenLinkCoherent(l: Option<Link>)
    requires LinkCoherent(l)
    ensures SeenLink(l) == EraseLink(l)
    decreases l
  {
    match l
    case None =>
    case Some(CidLink(_, None)) =>
    case Some(CidLink(c, Some(n))) => SeenCoherent(n);
    case Some(Dirty(n)) => SeenCoherent(n);
  }

  lemma SeenReplaced(n: Node, n': Node, q: nat, l: Option<Link>)
    requires n.LinkNode? && q < |n.links| && n' == LinkNode(n.links[q := l]) && Coherent(n)
    ensures Seen(n').links == Erase(n).links[q := SeenLink(l)]
  {
    SeenCoherent(n);
    assert forall j | 0 <= j < |n.links| && j != q :: Seen(n').links[j] == Seen(n).links[j];
  }

  /** A walk that failed in slot `k`: the others are coherent, and an unmodified link keeps its CID. */
  ghost predicate FailedAt(n: Node, n': Node, k: nat) {
    && n.LinkNode? && n'.LinkNode? && k < |n.links| == |n'.links|
    && (forall j | 0 <= j < |n.links| && j != k :: LinkCoherent(n'.links[j]))
    && (!IsDirty(n.links[k]) ==> !IsDirty(n'.links[k]) && EraseLink(n'.links[k]) == EraseLink(n.links[k]))
  }

  /** What a flush would then store: all that was written, but for the slot of the failure. */
  lemma FailureLoses(n: Node, n': Node, k: nat)
    requires FailedAt(n, n', k) && !IsDirty(n.links[k])
    ensures Erase(n') == Links(Seen(n').links[k := Erase(n).links[k]])
  {
    forall j | 0 <= j < |n'.links|
      ensures Erase(n').links[j] == Seen(n').links[k := Erase(n).links[k]][j]
    {
      if j != k {
        SeenLinkCoherent(n'.links[j]);
      }
    }
  }

  // ---- for_each_while_mut ----

  /** The last reply, and `did_mutate`. */
  datatype Walk = Walk(reply: Reply, mutated: bool)

  /** The walk failed in some slot, that of the last call. */
  ghost predicate FailedIn(w: nat, n: Node, n': Node, h: nat, offset: nat, calls: seq<Item>)
    requires WellFormed(w, Erase(n), h)
  {
    h > 0 ==> exists k: nat :: FailedSlot(w, n, n', h, offset, calls, k)
  }

  ghost predicate FailedSlot(w: nat, n: Node, n': Node, h: nat, offset: nat, calls: seq<Item>, k: nat)
    requires h > 0
  {
    && FailedAt(n, n', k) && SlotWellFormed(w, Erase(n).links[k], h - 1) && calls != []
    && calls[|calls| - 1] in SlotListing(w, Erase(n).links[k], h - 1, SlotOffset(offset, k, Cap(w, h)))
  }

  /**
   What a walk comes to. Reads meet the entries as the callback left them. A node reported unmodified is unchanged;
   unless the callback failed, links below stay coherent.
   */
  ghost predicate Walked(w: nat, n: Node, n': Node, h: nat, offset: nat, g: MutCallback, calls: seq<Item>, end: Walk)
    requires WellFormed(w, Erase(n), h)
  {
    && WellFormed(w, Seen(n'), h) && (FlatEmpty(Seen(n')) <==> FlatEmpty(Erase(n)))
    && RunMut(Listing(w, Erase(n), h, offset), g) == MutRun(calls, Listing(w, Seen(n'), h, offset), end.reply, end.mutated)
    && (!end.mutated ==> Erase(n') == Erase(n) && (Clean(n) ==> Clean(n')))
    && (!(end.reply.Fail? && end.mutated) ==> Coherent(n'))
    && (end.reply.Fail? ==> FailedIn(w, n, n', h, offset, calls))
  }

  /** Node::for_each_while_mut. */
  method ForEachWhileMut(s: Store, w: nat, n: Node, h: nat, offset: nat, g: MutCallback)
    returns (r: Result<Walk>, calls: seq<Item>, n': Node)
    requires w * h < 64 && Coherent(n) && WellFormed(w, Erase(n), h)
    ensures r.Ok? ==> Walked(w, n, n', h, offset, g, calls, r.value)
    ensures NodeResolvable(s, n) ==> r.Ok? && (!r.value.reply.Fail? ==> NodeResolvable(s, n'))
    ensures !r.Ok? ==> r.error.CidNotFound?
    decreases h, 1
  {
    if n.LeafNode? {
      var reply, mutated, vals';
      reply, mutated, calls, vals' := MutateLeaf(n.vals, offset, g);
      return Ok(Walk(reply, mutated)), calls, LeafNode(vals');
    }
    r, calls, n' := MutateLinks(s, w, n, h, offset, g);
  }

  /** The slots before `i` were visited and the walk goes on. */
  ghost predicate WalkInv(w: nat, n: Node, now: Node, k: nat, offset: nat, i: nat, g: MutCallback, calls: seq<Item>,
                          mutated: bool) {
    && n.LinkNode? && now.LinkNode? && |now.links| == |n.links| && Coherent(now)
    && (forall j | i <= j < |n.links| :: now.links[j] == n.links[j])
    && (!mutated ==> Erase(now) == Erase(n) && (Clean(n) ==> Clean(now)))
    && LinksInv(w, Erase(n).links, Erase(now).links, k, offset, i, g, calls, GoOn, mutated)
  }

  /** The node arm. */
  method MutateLinks(s: Store, w: nat, n: Node, h: nat, offset: nat, g: MutCallback)
    returns (r: Result<Walk>, calls: seq<Item>, n': Node)
    requires w * h < 64 && Coherent(n) && WellFormed(w, Erase(n), h) && n.LinkNode?
    ensures r.Ok? ==> Walked(w, n, n', h, offset, g, calls, r.value)
    ensures NodeResolvable(s, n) ==> r.Ok? && (!r.value.reply.Fail? ==> NodeResolvable(s, n'))
    ensures !r.Ok? ==> r.error.CidNotFound?
    decreases h, 0
  {
    n', calls := n, [];
    var k: nat := h - 1;
    var nfh := SlotCapacity(w, h);
    assert SlotsWellFormed(w, Erase(n).links, k);
    var mutated := false;
    for i := 0 to |n.links|
      invariant WalkInv(w, n, n', k, offset, i, g, calls, mutated)
      invariant NodeResolvable(s, n) ==> NodeResolvable(s, n')
    {
      var offs := OffsetAt(offset, i, nfh);
      ghost var was, earlier, wrote := n', calls, mutated;
      var visited;
      r, visited, n' := MutateSlot(s, w, n', k, i, offs, g);
      if r.Err? {
        return;
      }
      calls, mutated := calls + visited, mutated || r.value.mutated;
      if !r.value.reply.GoOn? {
        StopWalk(w, n, was, n', h, k, offset, i, g, earlier, wrote, visited, r.value);
        r := Ok(Walk(r.value.reply, mutated));
        return;
      }
      GoOnWalk(w, n, was, n', k, offset, i, g, earlier, wrote, visited, r.value);
    }
    EndWalk(w, n, n', h, k, offset, g, calls, mutated);
    r := Ok(Walk(GoOn, mutated));
  }

  /** What a slot comes to. */
  ghost predicate SlotWalked(w: nat, n: Node, n': Node, h: nat, i: nat, offs: nat, g: MutCallback, calls: seq<Item>,
                             end: Walk) {
    && n.LinkNode? && n'.LinkNode? && i < |n.links| == |n'.links| && n'.links == n.links[i := n'.links[i]]
    && Seen(n').links == Erase(n).links[i := Seen(n').links[i]]
    && SlotWellFormed(w, Erase(n).links[i], h) && SlotWellFormed(w, Seen(n').links[i], h)
    && (Seen(n').links[i].Some? <==> Erase(n).links[i].Some?)
    && RunMut(SlotListing(w, Erase(n).links[i], h, offs), g) ==
       MutRun(calls, SlotListing(w, Seen(n').links[i], h, offs), end.reply, end.mutated)
    && (!end.mutated ==> Seen(n') == Erase(n) && (Clean(n) ==> Clean(n')))
    && (!(end.reply.Fail? && end.mutated) ==> Coherent(n'))
    && (end.reply.Fail? ==> SlotFailed(w, n, n', h, i, offs, calls))
  }

  lemma StepWalk(w: nat, n: Node, was: Node, n': Node, k: nat, offset: nat, i: nat, g: MutCallback, calls: seq<Item>,
                 mutated: bool, visited: seq<Item>, here: Walk)
    requires n.LinkNode? && i < |n.links| && WalkInv(w, n, was, k, offset, i, g, calls, mutated)
    requires SlotWalked(w, was, n', k, i, SlotOffset(offset, i, Cap(w, k + 1)), g, visited, here)
    ensures LinksInv(w, Erase(n).links, Seen(n').links, k, offset, i + 1, g, calls + visited, here.reply,
                     mutated || here.mutated)
  {
    LinksStep(w, Erase(n).links, Erase(was).links, Seen(n').links, k, offset, SlotOffset(offset, i, Cap(w, k + 1)), i, g,
              calls, mutated, visited, here);
  }

  lemma GoOnWalk(w: nat, n: Node, was: Node, n': Node, k: nat, offset: nat, i: nat, g: MutCallback, calls: seq<Item>,
                 mutated: bool, visited: seq<Item>, here: Walk)
    requires n.LinkNode? && i < |n.links| && WalkInv(w, n, was, k, offset, i, g, calls, mutated) && here.reply.GoOn?
    requires SlotWalked(w, was, n', k, i, SlotOffset(offset, i, Cap(w, k + 1)), g, visited, here)
    ensures WalkInv(w, n, n', k, offset, i + 1, g, calls + visited, mutated || here.mutated)
  {
    StepWalk(w, n, was, n', k, offset, i, g, calls, mutated, visited, here);
    SeenCoherent(n');
  }

  lemma StopListing(w: nat, n: Node, was: Node, n': Node, h: nat, k: nat, offset: nat, i: nat, g: MutCallback,
                    calls: seq<Item>, mutated: bool, visited: seq<Item>, here: Walk)
    requires h == k + 1 && WellFormed(w, Erase(n), h) && !here.reply.GoOn?
    requires n.LinkNode? && i < |n.links| && WalkInv(w, n, was, k, offset, i, g, calls, mutated)
    requires SlotWalked(w, was, n', k, i, SlotOffset(offset, i, Cap(w, k + 1)), g, visited, here)
    ensures WellFormed(w, Seen(n'), h) && (FlatEmpty(Seen(n')) <==> FlatEmpty(Erase(n)))
    ensures RunMut(Listing(w, Erase(n), h, offset), g) ==
            MutRun(calls + visited, Listing(w, Seen(n'), h, offset), here.reply, mutated || here.mutated)
  {
    var all, wrote := calls + visited, mutated || here.mutated;
    StepWalk(w, n, was, n', k, offset, i, g, calls, mutated, visited, here);
    LinksStopped(w, Erase(n).links, Seen(n').links, k, offset, i + 1, g, all, here.reply, wrote);
    LinksDone(w, Erase(n), Seen(n'), h, k, offset, g, all, here.reply, wrote);
  }

  lemma StopWalk(w: nat, n: Node, was: Node, n': Node, h: nat, k: nat, offset: nat, i: nat, g: MutCallback,
                 calls: seq<Item>, mutated: bool, visited: seq<Item>, here: Walk)
    requires h == k + 1 && WellFormed(w, Erase(n), h) && !here.reply.GoOn?
    requires n.LinkNode? && i < |n.links| && WalkInv(w, n, was, k, offset, i, g, calls, mutated)
    requires SlotWalked(w, was, n', k, i, SlotOffset(offset, i, Cap(w, k + 1)), g, visited, here)
    ensures Walked(w, n, n', h, offset, g, calls + visited, Walk(here.reply, mutated || here.mutated))
  {
    StopListing(w, n, was, n', h, k, offset, i, g, calls, mutated, visited, here);
    if here.reply.Fail? {
      FailedHere(w, n, was, n', h, k, offset, i, calls, visited);
    }
    if !mutated && !here.mutated {
      SeenCoherent(n');
      assert Erase(n') == Seen(n') == Erase(was) == Erase(n);
    }
  }

  lemma EndWalk(w: nat, n: Node, n': Node, h: nat, k: nat, offset: nat, g: MutCallback, calls: seq<Item>, mutated: bool)
    requires h == k + 1 && WellFormed(w, Erase(n), h) && n.LinkNode?
    requires WalkInv(w, n, n', k, offset, |n.links|, g, calls, mutated)
    ensures Walked(w, n, n', h, offset, g, calls, Walk(GoOn, mutated))
  {
    SeenCoherent(n');
    LinksDone(w, Erase(n), Erase(n'), h, k, offset, g, calls, GoOn, mutated);
  }

  lemma FailedHere(w: nat, n: Node, was: Node, n': Node, h: nat, k: nat, offset: nat, i: nat, calls: seq<Item>,
                   visited: seq<Item>)
    requires n.LinkNode? && was.LinkNode? && i < |n.links| == |was.links| && was.links[i] == n.links[i]
    requires h == k + 1 && WellFormed(w, Erase(n), h)
    requires SlotFailed(w, was, n', k, i, SlotOffset(offset, i, Cap(w, k + 1)), visited)
    ensures FailedIn(w, n, n', h, offset, calls + visited)
  {
    var all := calls + visited;
    assert all[|all| - 1] == visited[|visited| - 1];
    assert Erase(n).links[i] == EraseLink(n.links[i]) == Erase(was).links[i];
    assert FailedSlot(w, n, n', h, offset, all, i);
  }

  /** The slots before `i` were visited, those after are as they were. */
  ghost predicate LinksInv(w: nat, links: seq<Option<Cid>>, now: seq<Option<Cid>>, k: nat, offset: nat, i: nat,
                           g: MutCallback, calls: seq<Item>, reply: Reply, mutated: bool) {
    && SlotsWellFormed(w, links, k) && SlotsWellFormed(w, now, k) && SameOccupied(links, now)
    && i <= |links| && (forall j | i <= j < |links| :: now[j] == links[j])
    && SlotsWellFormed(w, links[..i], k) && SlotsWellFormed(w, now[..i], k)
    && RunMut(ListLinks(w, links[..i], k, offset), g) ==
       MutRun(calls, ListLinks(w, now[..i], k, offset), reply, mutated)
  }

  /** A walk declined within the first `i` slots leaves the others alone. */
  lemma LinksStopped(w: nat, links: seq<Option<Cid>>, now: seq<Option<Cid>>, k: nat, offset: nat, i: nat,
                     g: MutCallback, calls: seq<Item>, reply: Reply, mutated: bool)
    requires !reply.GoOn? && LinksInv(w, links, now, k, offset, i, g, calls, reply, mutated)
    ensures LinksInv(w, links, now, k, offset, |links|, g, calls, reply, mutated)
  {
    assert links[..|links|] == links && now[..|links|] == now;
    LinksSplit(w, links, k, offset, i);
    LinksSplit(w, now, k, offset, i);
    LinksFromAgree(w, links, now, k, offset, i);
    RunMutStops(ListLinks(w, links[..i], k, offset), LinksFrom(w, links, k, offset, i), g);
  }

  ghost predicate SameOccupied(a: seq<Option<Cid>>, b: seq<Option<Cid>>) {
    |a| == |b| && forall j | 0 <= j < |a| :: a[j].Some? <==> b[j].Some?
  }

  lemma LinksDone(w: nat, f: Flat, f': Flat, h: nat, k: nat, offset: nat, g: MutCallback,
                  calls: seq<Item>, reply: Reply, mutated: bool)
    requires h == k + 1 && WellFormed(w, f, h) && f.Links? && f'.Links?
    requires LinksInv(w, f.links, f'.links, k, offset, |f.links|, g, calls, reply, mutated)
    ensures WellFormed(w, f', h) && (FlatEmpty(f') <==> FlatEmpty(f))
    ensures RunMut(Listing(w, f, h, offset), g) == MutRun(calls, Listing(w, f', h, offset), reply, mutated)
  {
    assert f.links[..|f.links|] == f.links && f'.links[..|f.links|] == f'.links;
    StillWellFormed(w, f, f', h, k);
  }

  lemma StillWellFormed(w: nat, f: Flat, f': Flat, h: nat, k: nat)
    requires h == k + 1 && WellFormed(w, f, h) && f.Links? && f'.Links?
    requires SameOccupied(f.links, f'.links) && SlotsWellFormed(w, f'.links, k)
    ensures WellFormed(w, f', h) && (FlatEmpty(f') <==> FlatEmpty(f))
  {
  }

  lemma SlotsStay(w: nat, was: seq<Option<Cid>>, now: seq<Option<Cid>>, k: nat, i: nat)
    requires i < |was| == |now| && SlotsWellFormed(w, was, k) && now == was[i := now[i]] && SlotWellFormed(w, now[i], k)
    ensures SlotsWellFormed(w, now, k)
  {
    forall j | 0 <= j < |now|
      ensures SlotWellFormed(w, now[j], k)
    {
      assert j != i ==> now[j] == was[j];
    }
  }

  /** One slot further along. */
  lemma LinksStep(w: nat, links: seq<Option<Cid>>, was: seq<Option<Cid>>, now: seq<Option<Cid>>, k: nat, offset: nat,
                  offs: nat, i: nat, g: MutCallback, calls: seq<Item>, mutated: bool, visited: seq<Item>, here: Walk)
    requires i < |links| == |was| == |now| && LinksInv(w, links, was, k, offset, i, g, calls, GoOn, mutated)
    requires now == was[i := now[i]] && SlotWellFormed(w, now[i], k) && (now[i].Some? <==> was[i].Some?)
    requires offs == SlotOffset(offset, i, Cap(w, k + 1)) && SlotWellFormed(w, was[i], k)
    requires RunMut(SlotListing(w, was[i], k, offs), g) ==
             MutRun(visited, SlotListing(w, now[i], k, offs), here.reply, here.mutated)
    ensures LinksInv(w, links, now, k, offset, i + 1, g, calls + visited, here.reply, mutated || here.mutated)
  {
    SlotsStay(w, was, now, k, i);
    assert now[..i] == was[..i];
    ListLinksStep(w, links, k, offset, i);
    ListLinksStep(w, now, k, offset, i);
    RunMutGoesOn(ListLinks(w, links[..i], k, offset), SlotListing(w, links[i], k, offs), g);
  }

  /** One slot of the link loop. */
  method MutateSlot(s: Store, w: nat, n: Node, h: nat, i: nat, offs: nat, g: MutCallback)
    returns (r: Result<Walk>, calls: seq<Item>, n': Node)
    requires w * h < 64 && Coherent(n) && n.LinkNode? && i < |n.links|
    requires SlotsWellFormed(w, Erase(n).links, h)
    ensures r.Ok? ==> SlotWalked(w, n, n', h, i, offs, g, calls, r.value)
    ensures NodeResolvable(s, n) ==> r.Ok? && (!r.value.reply.Fail? ==> NodeResolvable(s, n'))
    ensures !r.Ok? ==> r.error.CidNotFound?
    decreases h, 3
  {
    LinkReplaced(s, n, LinkNode(n.links[i := n.links[i]]), i, n.links[i]);
    var l;
    r, calls, l := MutateLink(s, w, n.links[i], h, offs, g);
    n' := LinkNode(n.links[i := l]);
    if r.Ok? {
      SeenReplaced(n, n', i, l);
      if !(r.value.reply.Fail? && r.value.mutated) {
        LinkReplaced(s, n, n', i, l);
        SeenCoherent(n');
      }
      if r.value.reply.Fail? {
        RunMutCalls(SlotListing(w, Erase(n).links[i], h, offs), g);
      }
    }
  }

  ghost predicate LastIn(w: nat, slot: Option<Cid>, h: nat, offset: nat, calls: seq<Item>)
    requires SlotWellFormed(w, slot, h)
  {
    calls != [] && calls[|calls| - 1] in SlotListing(w, slot, h, offset)
  }

  ghost predicate SlotFailed(w: nat, n: Node, n': Node, h: nat, i: nat, offs: nat, calls: seq<Item>) {
    && n.LinkNode? && i < |n.links| && SlotWellFormed(w, Erase(n).links[i], h)
    && FailedAt(n, n', i) && LastIn(w, Erase(n).links[i], h, offs, calls)
  }

  /** The link arm: a mutated clean child is switched to a modified link, unless the callback failed in it. */
  method MutateLink(s: Store, w: nat, l: Option<Link>, h: nat, offset: nat, g: MutCallback)
    returns (r: Result<Walk>, calls: seq<Item>, l': Option<Link>)
    requires w * h < 64 && LinkCoherent(l) && SlotWellFormed(w, EraseLink(l), h)
    ensures r.Ok? ==> SlotWellFormed(w, SeenLink(l'), h) && (l'.Some? <==> l.Some?)
    ensures r.Ok? ==> RunMut(SlotListing(w, EraseLink(l), h, offset), g) ==
                      MutRun(calls, SlotListing(w, SeenLink(l'), h, offset), r.value.reply, r.value.mutated)
    ensures r.Ok? && !r.value.mutated ==> SeenLink(l') == EraseLink(l) && (IsDirty(l') ==> IsDirty(l))
    ensures r.Ok? && !(r.value.reply.Fail? && r.value.mutated) ==> LinkCoherent(l')
    ensures r.Ok? && r.value.reply.Fail? && !IsDirty(l) ==> !IsDirty(l') && EraseLink(l') == EraseLink(l)
    ensures LinkResolvable(s, l) ==> r.Ok? && (!r.value.reply.Fail? ==> LinkResolvable(s, l'))
    ensures !r.Ok? ==> r.error.CidNotFound?
    decreases h, 2
  {
    l', calls := l, [];
    match l
    case None => r := Ok(Walk(GoOn, false));
    case Some(Dirty(c)) =>
      var c';
      r, calls, c' := ForEachWhileMut(s, w, c, h, offset, g);
      l' := Some(Dirty(c'));
      KeptSeen(r, c, c');
    case Some(CidLink(cid, cache)) =>
      var loaded := LoadLink(s, w, h, cid, cache);
      if loaded.Err? {
        return Err(loaded.error), [], l;
      }
      var c';
      r, calls, c' := ForEachWhileMut(s, w, loaded.value, h, offset, g);
      KeptSeen(r, loaded.value, c');
      if r.Ok? {
        l' := if r.value.mutated && !r.value.reply.Fail? then Some(Dirty(c')) else Some(CidLink(cid, Some(c')));
      }
  }

  lemma KeptSeen(r: Result<Walk>, c: Node, c': Node)
    requires r.Ok? && !r.value.mutated ==> Erase(c') == Erase(c) && Coherent(c')
    ensures r.Ok? && !r.value.mutated ==> Seen(c') == Erase(c)
  {
    if r.Ok? && !r.value.mutated {
      SeenCoherent(c');
    }
  }
}
