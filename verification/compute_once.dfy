/**
 The tipset state cache under concurrent callers: a lock on the whole cache for finding an entry, then a
 lock on the entry for the time of the computation. Tasks interleave in any order, fail, or are dropped.
 */
module ComputeOnce {

  import opened Common

  type TaskId(==, !new)
  type Key(==, !new)
  /** State root and receipts root. */
  type Pair(==, !new)

  type EntryId = nat

  datatype Cell = Cell(value: Option<Pair>, holder: Option<TaskId>)

  datatype Phase =
    | Started
    | HoldsCache
    | HasEntry(entry: EntryId)
    | Locked(entry: EntryId)
    | Computing(entry: EntryId)
    | Returned(result: Option<Pair>)
    | Dropped

  datatype Task = Task(key: Key, phase: Phase)

  datatype State = State(cacheLock: Option<TaskId>, cache: map<Key, EntryId>, cells: seq<Cell>,
                         tasks: map<TaskId, Task>)

  datatype Step =
    | Call(t: TaskId, key: Key)
    | LockCache(t: TaskId)
    | FindEntry(t: TaskId)
    | LockEntry(t: TaskId)
    | Hit(t: TaskId)
    | Miss(t: TaskId)
    | Fill(t: TaskId, pair: Pair)
    | Fail(t: TaskId)
    | Drop(t: TaskId)

  function Init(): State { State(None, map[], [], map[]) }

  ghost predicate Enabled(s: State, step: Step) {
    if step.Call? then step.t !in s.tasks
    else
      && step.t in s.tasks
      && var p := s.tasks[step.t].phase;
         match step
         case LockCache(_) => p.Started? && s.cacheLock.None?
         case FindEntry(_) => p.HoldsCache?
         case LockEntry(_) => p.HasEntry? && p.entry < |s.cells| && s.cells[p.entry].holder.None?
         case Hit(_) => p.Locked? && p.entry < |s.cells| && s.cells[p.entry].value.Some?
         case Miss(_) => p.Locked? && p.entry < |s.cells| && s.cells[p.entry].value.None?
         case Fill(_, _) => p.Computing? && p.entry < |s.cells|
         case Fail(_) => p.Computing? && p.entry < |s.cells|
         case Drop(_) => (p.Locked? || p.Computing?) ==> p.entry < |s.cells|
         case Call(_, _) => true
  }

  function Become(s: State, t: TaskId, phase: Phase): State
    requires t in s.tasks
  {
    s.(tasks := s.tasks[t := s.tasks[t].(phase := phase)])
  }

  function SetCell(s: State, e: EntryId, c: Cell): State
    requires e < |s.cells|
  {
    s.(cells := s.cells[e := c])
  }

  ghost function Do(s: State, step: Step): State
    requires Enabled(s, step)
  {
    var t := step.t;
    match step
    case Call(_, key) => s.(tasks := s.tasks[t := Task(key, Started)])
    case LockCache(_) => Become(s, t, HoldsCache).(cacheLock := Some(t))
    case FindEntry(_) =>
      var key := s.tasks[t].key;
      if key in s.cache then Become(s, t, HasEntry(s.cache[key])).(cacheLock := None)
      else
        var e := |s.cells|;
        Become(s, t, HasEntry(e)).(cacheLock := None, cache := s.cache[key := e], cells := s.cells + [Cell(None, None)])
    case LockEntry(_) =>
      var e := s.tasks[t].phase.entry;
      SetCell(Become(s, t, Locked(e)), e, s.cells[e].(holder := Some(t)))
    case Hit(_) =>
      var e := s.tasks[t].phase.entry;
      SetCell(Become(s, t, Returned(s.cells[e].value)), e, s.cells[e].(holder := None))
    case Miss(_) => Become(s, t, Computing(s.tasks[t].phase.entry))
    case Fill(_, pair) =>
      var e := s.tasks[t].phase.entry;
      SetCell(Become(s, t, Returned(Some(pair))), e, Cell(Some(pair), None))
    case Fail(_) =>
      var e := s.tasks[t].phase.entry;
      SetCell(Become(s, t, Returned(None)), e, s.cells[e].(holder := None))
    case Drop(_) =>
      var p := s.tasks[t].phase;
      match p {
        case HoldsCache => Become(s, t, Dropped).(cacheLock := None)
        case Locked(e) => SetCell(Become(s, t, Dropped), e, s.cells[e].(holder := None))
        case Computing(e) => SetCell(Become(s, t, Dropped), e, s.cells[e].(holder := None))
        case Returned(_) => s
        case _ => Become(s, t, Dropped)
      }
  }

  /** `s` is reached by taking the steps one after the other. */
  ghost predicate Reaches(steps: seq<Step>, s: State) {
    if steps == [] then s == Init()
    else
      var n := |steps| - 1;
      exists r :: Reaches(steps[..n], r) && Enabled(r, steps[n]) && s == Do(r, steps[n])
  }

  // ---- what every step keeps ----

  function EntryOf(p: Phase): Option<EntryId> {
    match p
    case HasEntry(e) => Some(e)
    case Locked(e) => Some(e)
    case Computing(e) => Some(e)
    case _ => None
  }

  predicate Holds(p: Phase) { p.Locked? || p.Computing? }

  /** Locks and their holders agree; a task computes only while the entry is empty. */
  ghost predicate TaskInv(s: State, t: TaskId)
    requires t in s.tasks
  {
    var task := s.tasks[t];
    && (task.phase.HoldsCache? <==> s.cacheLock == Some(t))
    && (EntryOf(task.phase).Some? ==> task.key in s.cache && s.cache[task.key] == EntryOf(task.phase).value)
    && (Holds(task.phase) ==> var e := EntryOf(task.phase).value; e < |s.cells| && s.cells[e].holder == Some(t))
    && (task.phase.Computing? ==> s.cells[task.phase.entry].value.None?)
    && (task.phase.Returned? && task.phase.result.Some? ==> ValueOf(s, task.key) == task.phase.result)
  }

  function ValueOf(s: State, k: Key): Option<Pair> {
    if k in s.cache && s.cache[k] < |s.cells| then s.cells[s.cache[k]].value else None
  }

  ghost predicate CellInv(s: State, e: EntryId)
    requires e < |s.cells|
  {
    match s.cells[e].holder
    case None => true
    case Some(t) => t in s.tasks && Holds(s.tasks[t].phase) && EntryOf(s.tasks[t].phase) == Some(e)
  }

  ghost predicate CacheInv(s: State) {
    && (forall k | k in s.cache :: s.cache[k] < |s.cells|)
    && (forall j, k | j in s.cache && k in s.cache && s.cache[j] == s.cache[k] :: j == k)
    && (s.cacheLock.Some? ==> s.cacheLock.value in s.tasks && s.tasks[s.cacheLock.value].phase.HoldsCache?)
  }

  ghost predicate Inv(s: State) {
    && CacheInv(s)
    && (forall t | t in s.tasks :: TaskInv(s, t))
    && (forall e | 0 <= e < |s.cells| :: CellInv(s, e))
  }

  lemma StepKeepsCache(s: State, step: Step)
    requires Inv(s) && Enabled(s, step)
    ensures CacheInv(Do(s, step))
  {
    assert step.t in s.tasks ==> TaskInv(s, step.t);
  }

  lemma StepKeepsOwnTask(s: State, step: Step)
    requires Inv(s) && Enabled(s, step)
    ensures step.t in Do(s, step).tasks && TaskInv(Do(s, step), step.t)
  {
    assert step.t in s.tasks ==> TaskInv(s, step.t);
  }

  lemma StepKeepsOtherTask(s: State, step: Step, u: TaskId)
    requires Inv(s) && Enabled(s, step) && u in s.tasks && u != step.t
    ensures TaskInv(Do(s, step), u)
  {
    assert TaskInv(s, u) && (step.t in s.tasks ==> TaskInv(s, step.t));
  }

  lemma StepKeepsCell(s: State, step: Step, e: EntryId)
    requires Inv(s) && Enabled(s, step) && e < |Do(s, step).cells|
    ensures CellInv(Do(s, step), e)
  {
    assert e < |s.cells| ==> CellInv(s, e);
    assert step.t in s.tasks ==> TaskInv(s, step.t);
  }

  /** No step of any task breaks the protocol. */
  lemma StepKeepsInv(s: State, step: Step)
    requires Inv(s) && Enabled(s, step)
    ensures Inv(Do(s, step))
  {
    var r := Do(s, step);
    StepKeepsCache(s, step);
    forall u | u in r.tasks
      ensures TaskInv(r, u)
    {
      if u == step.t {
        StepKeepsOwnTask(s, step);
      } else {
        StepKeepsOtherTask(s, step, u);
      }
    }
    forall e | 0 <= e < |r.cells|
      ensures CellInv(r, e)
    {
      StepKeepsCell(s, step, e);
    }
  }

  lemma {:induction false} ReachedInv(steps: seq<Step>, s: State)
    requires Reaches(steps, s)
    ensures Inv(s)
  {
    if steps == [] {
    } else {
      var n := |steps| - 1;
      var r :| Reaches(steps[..n], r) && Enabled(r, steps[n]) && s == Do(r, steps[n]);
      ReachedInv(steps[..n], r);
      StepKeepsInv(r, steps[n]);
    }
  }

  // ---- what callers can rely on, whatever the interleaving ----

  /** The state before the last step. */
  lemma Before(steps: seq<Step>, s: State) returns (r: State)
    requires Reaches(steps, s) && steps != []
    ensures var n := |steps| - 1;
            Reaches(steps[..n], r) && Enabled(r, steps[n]) && s == Do(r, steps[n]) && Inv(r) && Inv(s)
  {
    var n := |steps| - 1;
    r :| Reaches(steps[..n], r) && Enabled(r, steps[n]) && s == Do(r, steps[n]);
    ReachedInv(steps[..n], r);
    ReachedInv(steps, s);
  }

  ghost predicate Failed(s: State, t: TaskId) {
    t in s.tasks && s.tasks[t].phase == Returned(None)
  }

  ghost predicate Served(s: State, t: TaskId) {
    t in s.tasks && s.tasks[t].phase.Returned? && s.tasks[t].phase.result.Some?
  }

  /** The step with which a call succeeds: it finds a result or computes one. */
  predicate Serves(step: Step, t: TaskId) {
    step == Hit(t) || (step.Fill? && step.t == t)
  }

  /** A task fails, succeeds and ends by its own steps, and is then done with. */
  lemma StepOutcome(s: State, step: Step, t: TaskId)
    requires Inv(s) && Enabled(s, step)
    ensures Failed(Do(s, step), t) <==> Failed(s, t) || step == Fail(t)
    ensures Served(Do(s, step), t) <==> Served(s, t) || Serves(step, t)
    ensures t in s.tasks ==> t in Do(s, step).tasks && Do(s, step).tasks[t].key == s.tasks[t].key
  {
  }

  /** A call fails exactly if its own computation did, and succeeds exactly if it found or computed a result. */
  lemma {:induction false} Outcomes(steps: seq<Step>, s: State, t: TaskId)
    requires Reaches(steps, s)
    ensures Failed(s, t) <==> Fail(t) in steps
    ensures Served(s, t) <==> exists i :: 0 <= i < |steps| && Serves(steps[i], t)
  {
    if steps == [] {
    } else {
      var n := |steps| - 1;
      var r := Before(steps, s);
      Outcomes(steps[..n], r, t);
      StepOutcome(r, steps[n], t);
      ServedSnoc(steps, t);
    }
  }

  lemma ServedSnoc(steps: seq<Step>, t: TaskId)
    requires steps != []
    ensures var n := |steps| - 1;
            && (Fail(t) in steps <==> Fail(t) in steps[..n] || steps[n] == Fail(t))
            && ((exists i :: 0 <= i < |steps| && Serves(steps[i], t)) <==>
                Serves(steps[n], t) || exists i :: 0 <= i < n && Serves(steps[..n][i], t))
  {
    var n := |steps| - 1;
    if i :| 0 <= i < |steps| && Serves(steps[i], t) {
      assert i == n || Serves(steps[..n][i], t);
    }
    if i :| 0 <= i < n && Serves(steps[..n][i], t) {
      assert Serves(steps[i], t);
    }
  }

  /** A call that has returned and did not fail has the result that is in the cache. */
  lemma ReturnsCached(steps: seq<Step>, s: State, t: TaskId)
    requires Reaches(steps, s) && t in s.tasks && s.tasks[t].phase.Returned? && Fail(t) !in steps
    ensures s.tasks[t].phase.result.Some? && s.tasks[t].phase.result == ValueOf(s, s.tasks[t].key)
  {
    Outcomes(steps, s, t);
    ReachedInv(steps, s);
    assert TaskInv(s, t);
  }

  /** A task that has returned takes no more steps. */
  lemma ReturnedStays(s: State, step: Step, t: TaskId)
    requires Enabled(s, step) && t in s.tasks && s.tasks[t].phase.Returned?
    ensures t in Do(s, step).tasks && Do(s, step).tasks[t] == s.tasks[t]
  {
  }

  lemma FillEnds(s: State, step: Step)
    requires Enabled(s, step) && step.Fill?
    ensures step.t in Do(s, step).tasks && Do(s, step).tasks[step.t].phase == Returned(Some(step.pair))
  {
  }

  /** A task that has computed a result has returned it, and it is in the cache. */
  lemma {:induction false} FillReturns(steps: seq<Step>, s: State, i: nat)
    requires Reaches(steps, s) && i < |steps| && steps[i].Fill?
    ensures steps[i].t in s.tasks && s.tasks[steps[i].t].phase == Returned(Some(steps[i].pair))
    ensures ValueOf(s, s.tasks[steps[i].t].key) == Some(steps[i].pair)
  {
    var n := |steps| - 1;
    var r := Before(steps, s);
    if i == n {
      FillEnds(r, steps[n]);
    } else {
      FillReturns(steps[..n], r, i);
      ReturnedStays(r, steps[n], steps[i].t);
    }
    assert TaskInv(s, steps[i].t);
  }

  /** What is in the cache some task has computed. */
  lemma {:induction false} ComputedBy(steps: seq<Step>, s: State, k: Key) returns (i: nat)
    requires Reaches(steps, s) && ValueOf(s, k).Some?
    ensures i < |steps| && steps[i].Fill? && Some(steps[i].pair) == ValueOf(s, k)
    ensures steps[i].t in s.tasks && s.tasks[steps[i].t].key == k
  {
    var n := |steps| - 1;
    var r := Before(steps, s);
    ValuesArePermanent(r, steps[n], k);
    if ValueOf(r, k).Some? {
      i := ComputedBy(steps[..n], r, k);
      StepOutcome(r, steps[n], steps[i].t);
    } else {
      i := n;
    }
  }

  /** The state of no tipset is computed by two steps. */
  lemma {:induction false} FilledOnce(steps: seq<Step>, s: State, i: nat, j: nat)
    requires Reaches(steps, s) && i < j < |steps| && steps[i].Fill? && steps[j].Fill?
    ensures steps[i].t in s.tasks && steps[j].t in s.tasks
    ensures s.tasks[steps[i].t].key != s.tasks[steps[j].t].key
  {
    var n := |steps| - 1;
    var r := Before(steps, s);
    FillReturns(steps, s, i);
    FillReturns(steps, s, j);
    FillReturns(steps[..n], r, i);
    StepOutcome(r, steps[n], steps[i].t);
    if j == n {
      assert TaskInv(r, steps[j].t);
    } else {
      FilledOnce(steps[..n], r, i, j);
      StepOutcome(r, steps[n], steps[j].t);
    }
  }

  /** A tipset state is computed by one task at a time, and by none once a computation of it succeeded. */
  lemma NeverComputedTwice(steps: seq<Step>, s: State, t: TaskId)
    requires Reaches(steps, s) && t in s.tasks && s.tasks[t].phase.Computing?
    ensures forall u | u in s.tasks && u != t && s.tasks[u].phase.Computing? :: s.tasks[u].key != s.tasks[t].key
    ensures forall i | 0 <= i < |steps| && steps[i].Fill? ::
              steps[i].t in s.tasks && s.tasks[steps[i].t].key != s.tasks[t].key
  {
    ReachedInv(steps, s);
    assert TaskInv(s, t);
    forall u | u in s.tasks && u != t && s.tasks[u].phase.Computing?
      ensures s.tasks[u].key != s.tasks[t].key
    {
      assert TaskInv(s, u);
    }
    forall i | 0 <= i < |steps| && steps[i].Fill?
      ensures steps[i].t in s.tasks && s.tasks[steps[i].t].key != s.tasks[t].key
    {
      FillReturns(steps, s, i);
    }
  }

  /** Every caller that gets a result for a key gets the one result that was computed for it. */
  lemma CallersAgree(steps: seq<Step>, s: State, t: TaskId) returns (i: nat)
    requires Reaches(steps, s) && Served(s, t)
    ensures i < |steps| && steps[i].Fill? && s.tasks[t].phase.result == Some(steps[i].pair)
    ensures steps[i].t in s.tasks && s.tasks[steps[i].t].key == s.tasks[t].key
    ensures forall j | 0 <= j < |steps| && steps[j].Fill? && j != i ::
              steps[j].t in s.tasks && s.tasks[steps[j].t].key != s.tasks[t].key
  {
    ReachedInv(steps, s);
    assert TaskInv(s, t);
    i := ComputedBy(steps, s, s.tasks[t].key);
    forall j | 0 <= j < |steps| && steps[j].Fill? && j != i
      ensures steps[j].t in s.tasks && s.tasks[steps[j].t].key != s.tasks[t].key
    {
      FilledOnce(steps, s, if i < j then i else j, if i < j then j else i);
    }
  }

  /** A value once in the cache stays; only a success puts one there; a failure or a drop leaves it empty. */
  lemma ValuesArePermanent(s: State, step: Step, k: Key)
    requires Inv(s) && Enabled(s, step)
    ensures ValueOf(s, k).Some? ==> ValueOf(Do(s, step), k) == ValueOf(s, k)
    ensures ValueOf(s, k).None? && ValueOf(Do(s, step), k).Some? ==>
              step.Fill? && s.tasks[step.t].key == k && ValueOf(Do(s, step), k) == Some(step.pair)
  {
    if step.t in s.tasks {
      assert TaskInv(s, step.t);
    }
  }

  /** A computation may succeed with any result, or fail, and every call may be dropped. */
  lemma AnyOutcome(steps: seq<Step>, s: State, t: TaskId, pair: Pair)
    requires Reaches(steps, s) && t in s.tasks
    ensures s.tasks[t].phase.Computing? ==> Enabled(s, Fill(t, pair)) && Enabled(s, Fail(t))
    ensures Enabled(s, Drop(t))
  {
    ReachedInv(steps, s);
    assert TaskInv(s, t);
  }

  ghost predicate Unfinished(s: State, t: TaskId) {
    t in s.tasks && !s.tasks[t].phase.Returned? && !s.tasks[t].phase.Dropped?
  }

  /** Some task can always go on: the two locks never block each other. */
  lemma NoDeadlock(steps: seq<Step>, s: State, t: TaskId) returns (step: Step)
    requires Reaches(steps, s) && Unfinished(s, t)
    ensures Enabled(s, step) && !step.Call? && !step.Drop?
  {
    ReachedInv(steps, s);
    assert TaskInv(s, t);
    match s.tasks[t].phase
    case Started =>
      step := if s.cacheLock.None? then LockCache(t) else FindEntry(s.cacheLock.value);
    case HoldsCache => step := FindEntry(t);
    case HasEntry(e) =>
      assert CellInv(s, e);
      step := if s.cells[e].holder.None? then LockEntry(t) else GoOn(s, s.cells[e].holder.value);
    case Locked(_) => step := GoOn(s, t);
    case Computing(_) => step := GoOn(s, t);
  }

  /** The step open to the holder of an entry. */
  function GoOn(s: State, t: TaskId): Step
    requires t in s.tasks
  {
    var p := s.tasks[t].phase;
    if p.Computing? then Fail(t)
    else if p.Locked? && p.entry < |s.cells| && s.cells[p.entry].value.Some? then Hit(t)
    else Miss(t)
  }

  lemma OneMore(steps: seq<Step>, s: State, step: Step)
    requires Reaches(steps, s) && Enabled(s, step)
    ensures Reaches(steps + [step], Do(s, step))
  {
    assert (steps + [step])[..|steps|] == steps;
  }

  /** A task calls for the key and takes the lock on the cache. */
  lemma RunToCache(steps: seq<Step>, s: State, t: TaskId, key: Key) returns (all: seq<Step>, r: State)
    requires Reaches(steps, s) && t !in s.tasks && s.cacheLock.None?
    ensures |all| == |steps| + 2 && steps <= all && Reaches(all, r)
    ensures r == s.(cacheLock := Some(t), tasks := s.tasks[t := Task(key, HoldsCache)])
  {
    var s1 := Do(s, Call(t, key));
    OneMore(steps, s, Call(t, key));
    r := Do(s1, LockCache(t));
    OneMore(steps + [Call(t, key)], s1, LockCache(t));
    all := steps + [Call(t, key)] + [LockCache(t)];
  }

  lemma EntryFound(s: State, t: TaskId, key: Key)
    requires t in s.tasks && s.tasks[t] == Task(key, HoldsCache)
    requires key in s.cache ==> s.cache[key] < |s.cells| && s.cells[s.cache[key]] == Cell(None, None)
    ensures var r := Do(s, FindEntry(t));
            && r.cacheLock.None? && key in r.cache && r.cache[key] < |r.cells|
            && r.cells[r.cache[key]] == Cell(None, None) && r.tasks == s.tasks[t := Task(key, HasEntry(r.cache[key]))]
  {
  }

  /** It gets the entry, which no one holds and which has no value. */
  lemma RunToEntry(steps: seq<Step>, s: State, t: TaskId, key: Key) returns (all: seq<Step>, r: State)
    requires Reaches(steps, s) && t !in s.tasks && s.cacheLock.None?
    requires key in s.cache ==> s.cache[key] < |s.cells| && s.cells[s.cache[key]] == Cell(None, None)
    ensures |all| == |steps| + 3 && steps <= all && Reaches(all, r)
    ensures r.cacheLock.None? && key in r.cache && r.cache[key] < |r.cells| && r.cells[r.cache[key]] == Cell(None, None)
    ensures r.tasks == s.tasks[t := Task(key, HasEntry(r.cache[key]))]
  {
    var some, s2 := RunToCache(steps, s, t, key);
    EntryFound(s2, t, key);
    OneMore(some, s2, FindEntry(t));
    r := Do(s2, FindEntry(t));
    all := some + [FindEntry(t)];
  }

  /** It then finds that it has to compute. */
  lemma RunToMiss(steps: seq<Step>, s: State, t: TaskId, key: Key) returns (all: seq<Step>, r: State)
    requires Reaches(steps, s) && t in s.tasks && key in s.cache && s.cache[key] < |s.cells|
    requires s.tasks[t] == Task(key, HasEntry(s.cache[key])) && s.cells[s.cache[key]] == Cell(None, None)
    ensures all == steps + [LockEntry(t), Miss(t)] && Reaches(all, r)
    ensures r == State(s.cacheLock, s.cache, s.cells[s.cache[key] := Cell(None, Some(t))],
                       s.tasks[t := Task(key, Computing(s.cache[key]))])
  {
    var s1 := Do(s, LockEntry(t));
    OneMore(steps, s, LockEntry(t));
    r := Do(s1, Miss(t));
    OneMore(steps + [LockEntry(t)], s1, Miss(t));
    all := steps + [LockEntry(t), Miss(t)];
    assert all == steps + [LockEntry(t)] + [Miss(t)];
  }

  /** A task calls for the key, computes, and fails: the entry is as empty as before. */
  lemma RunToFailure(t: TaskId, key: Key) returns (all: seq<Step>, r: State)
    ensures Reaches(all, r) && |all| == 6 && all[4] == Miss(t) && all[5] == Fail(t)
    ensures r.tasks == map[t := Task(key, Returned(None))] && r.cacheLock.None?
    ensures key in r.cache && r.cache[key] < |r.cells| && r.cells[r.cache[key]] == Cell(None, None)
  {
    assert Reaches([], Init());
    var some, s := RunToEntry([], Init(), t, key);
    some, s := RunToMiss(some, s, t, key);
    OneMore(some, s, Fail(t));
    all, r := some + [Fail(t)], Do(s, Fail(t));
  }

  /** After a failure the state of the same tipset is computed a second time. */
  lemma ComputesAgainAfterFailure(t: TaskId, u: TaskId, key: Key) returns (steps: seq<Step>, s: State)
    requires t != u
    ensures Reaches(steps, s) && |steps| == 11 && steps[4] == Miss(t) && steps[5] == Fail(t) && steps[10] == Miss(u)
    ensures t in s.tasks && u in s.tasks && s.tasks[t].key == s.tasks[u].key == key
    ensures s.tasks[t].phase == Returned(None) && s.tasks[u].phase.Computing?
  {
    var first, failed := RunToFailure(t, key);
    var some, found := RunToEntry(first, failed, u, key);
    steps, s := RunToMiss(some, found, u, key);
    assert steps[4] == first[4] && steps[5] == first[5];
  }
}
