/** The tipset processor: one range is synced at a time, the heaviest of what arrives meanwhile comes next. */
module TipsetSync {

  import opened Common
  import opened TipsetGroups
  import opened TipsetRange
  import opened TipsetTrace

  /** The state of the processor is the one its history calls for. */
  ghost predicate Reflects(s: State, m: Mode) {
    match s
    case Idle => m.Resting?
    case Finding(g, current, next) =>
      && m.Active? && m.span.None? && m.group == g && GroupInv(g)
      && (current.Some? ==> GroupInv(current.value) && current.value.range == g.range)
      && MembersOf(current) == m.arrived && NextInv(next, m.outside)
    case Syncing(syncer, next) =>
      && m.Active? && m.span == Some(Span(syncer.proposed, syncer.current)) && GroupInv(m.group) && SyncerInv(syncer)
      && syncer.proposed == LastHeaviest(m.group.tipsets) && RangeOf(syncer.proposed) == m.group.range
      && Extra(syncer) == (Members(m.group) - {syncer.proposed}) + m.arrived && NextInv(next, m.outside)
  }

  /** From idle: the heaviest group starts a range. */
  method Begin(groups: map<RangeKey, TipsetGroup>, ghost arrivals: seq<Tipset>) returns (s: State, ghost e: Event)
    requires groups != map[] && Grouped(groups, arrivals)
    ensures e.Began? && Legal(Due(ToSet(arrivals)), e) && Reflects(s, After(Due(ToSet(arrivals)), e))
    ensures Members(e.group) == InRange(arrivals, e.group.range)
  {
    var g, w := HeaviestGroup(groups);
    AllGroups(groups, arrivals, w, g);
    s, e := Finding(g, None, None), Began(g);
  }

  method ReceiveFinding(s: State, groups: map<RangeKey, TipsetGroup>, ghost arrivals: seq<Tipset>, ghost m: Mode)
    returns (r: State)
    requires s.Finding? && Reflects(s, m) && Grouped(groups, arrivals)
    ensures r.Finding? && Reflects(r, After(m, Arrived(arrivals)))
  {
    var g, cur := s.group, s.current;
    NoGroup(groups, arrivals, g.range);
    if g.range in groups {
      cur := AddToCurrent(cur, groups[g.range]);
    }
    var next := NextAfter(s.next, groups, g.range, arrivals, m.outside);
    r := Finding(g, cur, next);
  }

  method ReceiveSyncing(s: State, groups: map<RangeKey, TipsetGroup>, ghost arrivals: seq<Tipset>, ghost m: Mode)
    returns (r: State)
    requires s.Syncing? && Reflects(s, m) && Grouped(groups, arrivals)
    ensures r.Syncing? && Reflects(r, After(m, Arrived(arrivals)))
    ensures r.syncer.proposed == s.syncer.proposed
    ensures Extra(r.syncer) == Extra(s.syncer) + InRange(arrivals, RangeOf(s.syncer.proposed))
  {
    var syncer := s.syncer;
    var range := RangeOf(syncer.proposed);
    NoGroup(groups, arrivals, range);
    if range in groups {
      syncer := AddAll(syncer, groups[range].tipsets);
    }
    var next := NextAfter(s.next, groups, range, arrivals, m.outside);
    r := Syncing(syncer, next);
  }

  /** The range finder is done. */
  method FinishFinding(s: State, answer: Ready, ghost m: Mode) returns (r: State)
    requires s.Finding? && Reflects(s, m)
    ensures r.Idle? <==> Refuses(s.group, answer.head)
    ensures !r.Idle? ==> r.Syncing? && r.next == s.next && r.syncer.current == answer.head
    ensures Legal(m, Outcome(m, answer)) && Reflects(r, After(m, Outcome(m, answer)))
  {
    var found := FindRange(s.group, answer.head);
    match found
    case Started(range) =>
      var syncer := range;
      if s.current.Some? {
        syncer := AddAll(range, s.current.value.tipsets);
      }
      r := Syncing(syncer, s.next);
    case Refused(_) =>
      r := Idle;
  }

  /** The range is synced or has failed: the heaviest group that arrived meanwhile is next. */
  method FinishSyncing(s: State, answer: Ready, ghost m: Mode) returns (r: State, ghost es: seq<Event>)
    requires s.Syncing? && Reflects(s, m)
    ensures r.Idle? <==> m.outside == {}
    ensures LegalFrom(m, es) && Driven(m, es, [answer]) && Reflects(r, Follow(m, es))
    ensures !r.Idle? ==> r.Finding? && SameWeight(r.group, m.outside) && Members(r.group) <= m.outside
    ensures Rank(r) < Rank(s)
  {
    ghost var done := Synced(answer.synced);
    FollowOne(m, done);
    assert [answer][1..] == [];
    match s.next
    case Some(g) =>
      r, es := Finding(g, None, None), [done] + [Began(g)];
      FollowConcat(m, [done], [Began(g)]);
      FollowOne(After(m, done), Began(g));
      assert es[0] == done && es[1..] == [Began(g)] && es[1..][1..] == [];
    case None =>
      r, es := Idle, [done];
      assert es[1..] == [];
  }

  /** What is left to be driven on: each answer leads to a lesser state. */
  function Rank(s: State): nat {
    match s
    case Idle => 0
    case Syncing(_, next) => if next.None? then 1 else 3
    case Finding(_, _, next) => if next.None? then 2 else 4
  }

  /** The epoch and parents being synced. */
  function RangeIn(s: State): RangeKey
    requires !s.Idle?
  {
    if s.Finding? then s.group.range else RangeOf(s.syncer.proposed)
  }

  lemma NextNone(next: Option<TipsetGroup>, outside: set<Tipset>)
    requires NextInv(next, outside)
    ensures next.None? <==> outside == {}
  {
    if next.Some? {
      HasMember(next.value);
    }
  }

  /** Takes what arrived into the state, before anything is driven on. */
  method ReceiveAll(s: State, arrivals: seq<Tipset>, ghost m: Mode) returns (r: State, ghost es: seq<Event>)
    requires Reflects(s, m)
    ensures LegalFrom(After(m, Arrived(arrivals)), es) && Driven(After(m, Arrived(arrivals)), es, [])
    ensures Reflects(r, Follow(After(m, Arrived(arrivals)), es))
    ensures s.Idle? && arrivals != [] ==> r.Finding? && SameWeight(r.group, ToSet(arrivals))
    ensures s.Idle? && arrivals == [] ==> r.Idle?
    ensures s.Finding? ==> r.Finding? && r.group == s.group
    ensures s.Syncing? ==> r.Syncing? && r.syncer.proposed == s.syncer.proposed
    ensures s.Syncing? ==> Extra(r.syncer) == Extra(s.syncer) + InRange(arrivals, RangeOf(s.syncer.proposed))
    ensures !s.Idle? ==> (r.next.None? <==> s.next.None? && Others(arrivals, RangeIn(s)) == {})
  {
    es := [];
    if !s.Idle? {
      NextNone(s.next, m.outside);
    }
    var groups := GroupArrivals(arrivals);
    match s {
      case Idle =>
        GroupsIffArrivals(groups, arrivals);
        r := s;
        if groups != map[] {
          ghost var e;
          r, e := Begin(groups, arrivals);
          es := [e];
          FollowOne(Due(ToSet(arrivals)), e);
          assert es[1..] == [];
        }
      case Finding(_, _, _) => r := ReceiveFinding(s, groups, arrivals, m);
      case Syncing(_, _) => r := ReceiveSyncing(s, groups, arrivals, m);
    }
    if !s.Idle? {
      NextNone(r.next, m.outside + Others(arrivals, RangeIn(s)));
    }
  }

  /** One completed future. */
  method DriveOnce(s: State, answer: Ready, ghost m: Mode) returns (r: State, ghost es: seq<Event>)
    requires !s.Idle? && Reflects(s, m)
    ensures LegalFrom(m, es) && Driven(m, es, [answer]) && Reflects(r, Follow(m, es)) && Rank(r) < Rank(s)
  {
    match s
    case Finding(_, _, _) =>
      r := FinishFinding(s, answer, m);
      es := [Outcome(m, answer)];
      FollowOne(m, es[0]);
      assert es[1..] == [] && [answer][1..] == [];
    case Syncing(_, _) => r, es := FinishSyncing(s, answer, m);
  }

  /** Drives the futures on until one is pending; `ready` lists the answers of those that complete at once. */
  method Drive(s: State, ready: seq<Ready>, ghost m: Mode) returns (r: State, ghost es: seq<Event>)
    requires Reflects(s, m)
    ensures LegalFrom(m, es) && Driven(m, es, ready) && Reflects(r, Follow(m, es))
    ensures ready == [] ==> r == s
    ensures |ready| >= 4 ==> r.Idle?
  {
    r, es := s, [];
    var i := 0;
    while i < |ready| && !r.Idle?
      invariant 0 <= i <= |ready| && Rank(r) + i <= 4
      invariant LegalFrom(m, es) && Driven(m, es, ready[..i]) && Reflects(r, Follow(m, es))
      invariant i == 0 ==> r == s
      decreases Rank(r)
    {
      ghost var more;
      r, more := DriveOnce(r, ready[i], Follow(m, es));
      FollowConcat(m, es, more);
      TakeSnoc(ready, i);
      assert ready[..i + 1][..i] == ready[..i] && ready[..i + 1][i..] == [ready[i]];
      DrivenConcat(m, es, more, i, ready[..i + 1]);
      es := es + more;
      i := i + 1;
    }
    DrivenConcat(m, es, [], i, ready);
    assert es + [] == es;
  }

  class TipsetProcessor {
    var state: State
    ghost var history: seq<Event>

    /** What the history calls for. */
    ghost function Now(): Mode
      reads this
    {
      Follow(Resting, history)
    }

    ghost predicate Valid()
      reads this
    {
      LegalFrom(Resting, history) && Reflects(state, Now())
    }

    constructor ()
      ensures Valid() && state.Idle? && history == []
    {
      state, history := Idle, [];
    }

    /**
     poll: the history grows by what arrived and by what the answers in `ready` bring about, in turn,
     until no future is left or the next one is pending.
     */
    method Poll(arrivals: seq<Tipset>, closed: bool, ready: seq<Ready>) returns (r: Option<Error>, ghost es: seq<Event>)
      requires Valid()
      modifies this
      ensures Valid()
      ensures closed ==> r == Some(StreamClosed) && state == old(state) && history == old(history)
      ensures !closed ==> r == None && history == old(history) + [Arrived(arrivals)] + es
      ensures !closed ==> Driven(After(old(Now()), Arrived(arrivals)), es, ready)
      ensures !closed ==> Now() == Follow(After(old(Now()), Arrived(arrivals)), es)
      ensures !closed && |ready| >= 4 ==> state.Idle?
      ensures !closed && ready == [] ==>
                && (state.Idle? <==> old(state).Idle? && arrivals == [])
                && (state.Syncing? <==> old(state).Syncing?)
                && (!old(state).Idle? ==>
                      (state.next.None? <==> old(state).next.None? && Others(arrivals, RangeIn(old(state))) == {}))
    {
      es := [];
      if closed {
        return Some(StreamClosed), es;
      }
      ghost var m, e := Now(), Arrived(arrivals);
      ghost var begun, driven;
      state, begun := ReceiveAll(state, arrivals, m);
      state, driven := Drive(state, ready, Follow(After(m, e), begun));
      es := begun + driven;
      PollTrace(history, e, begun, driven, ready);
      history := history + [e] + es;
      r := None;
    }
  }

  lemma PollTrace(h: seq<Event>, e: Event, begun: seq<Event>, driven: seq<Event>, ready: seq<Ready>)
    requires LegalFrom(Resting, h) && Legal(Follow(Resting, h), e)
    requires var m := After(Follow(Resting, h), e);
             && LegalFrom(m, begun) && Driven(m, begun, []) && !Follow(m, begun).Due?
             && LegalFrom(Follow(m, begun), driven) && Driven(Follow(m, begun), driven, ready)
    ensures var m := After(Follow(Resting, h), e);
            && Driven(m, begun + driven, ready)
            && Follow(Resting, h + [e] + (begun + driven)) == Follow(m, begun + driven) == Follow(Follow(m, begun), driven)
            && LegalFrom(Resting, h + [e] + (begun + driven))
  {
    var m0 := Follow(Resting, h);
    var m := After(m0, e);
    FollowOne(m0, e);
    FollowConcat(Resting, h, [e]);
    FollowConcat(m, begun, driven);
    FollowConcat(Resting, h + [e], begun + driven);
    assert ready[..0] == [] && ready[0..] == ready;
    DrivenConcat(m, begun, driven, 0, ready);
  }

  // ---- whole runs ----

  /** One poll: what arrived, and the answers of the futures that complete in it. */
  datatype Input = Input(arrivals: seq<Tipset>, ready: seq<Ready>)

  function AllArrivals(inputs: seq<Input>): seq<Tipset> {
    if inputs == [] then [] else AllArrivals(inputs[..|inputs| - 1]) + inputs[|inputs| - 1].arrivals
  }

  /** The tipsets of other ranges that came since the present range began. */
  ghost predicate CameOutside(h: seq<Event>, range: RangeKey, t: Tipset) {
    CameSince(h, t) && RangeOf(t) != range
  }

  /** A next group is kept exactly if something came for another range, and is as heavy as the heaviest of that. */
  ghost predicate KeepsHeaviest(next: Option<TipsetGroup>, h: seq<Event>, range: RangeKey) {
    && (next.None? <==> forall t :: !CameOutside(h, range, t))
    && (next.Some? ==>
          && GroupInv(next.value) && (forall t | t in Members(next.value) :: CameOutside(h, range, t))
          && (exists t :: t in Members(next.value) && forall u | CameOutside(h, range, u) :: u.weight <= t.weight))
  }

  /** Beside the head, exactly the other tipsets the range began with and those that came for it are scheduled. */
  ghost predicate SchedulesAll(syncer: RangeSyncer, h: seq<Event>, group: TipsetGroup) {
    forall t :: t in Extra(syncer) <==>
                || (t in Members(group) && t != syncer.proposed)
                || (CameSince(h, t) && RangeOf(t) == group.range)
  }

  /** The invariant of the processor over its history. */
  ghost predicate TraceInvariant(s: State, h: seq<Event>) {
    !s.Idle? ==>
      && LastBegan(h) >= 0
      && var group := h[LastBegan(h)].group;
         && KeepsHeaviest(s.next, h, group.range)
         && (s.Finding? ==> s.group == group)
         && (s.Syncing? ==> group.tipsets != [] && s.syncer.proposed == LastHeaviest(group.tipsets))
         && (s.Syncing? ==> SchedulesAll(s.syncer, h, group))
  }

  lemma KeepsHeaviestHolds(next: Option<TipsetGroup>, h: seq<Event>, range: RangeKey, outside: set<Tipset>)
    requires NextInv(next, outside) && forall t :: t in outside <==> CameOutside(h, range, t)
    ensures KeepsHeaviest(next, h, range)
  {
    match next
    case None =>
    case Some(g) =>
      var w :| Heaviest(w, Members(g)) && Heaviest(w, outside);
      var t :| t in Members(g) && t.weight == w;
      assert t in outside && forall u | CameOutside(h, range, u) :: u.weight <= t.weight;
  }

  lemma TraceInvariantHolds(s: State, h: seq<Event>)
    requires LegalFrom(Resting, h) && Reflects(s, Follow(Resting, h))
    ensures TraceInvariant(s, h)
  {
    if s.Idle? {
    } else {
      ModeIsHistory(h);
      var m := Follow(Resting, h);
      assert forall t :: t in m.outside <==> CameOutside(h, m.group.range, t);
      KeepsHeaviestHolds(s.next, h, m.group.range, m.outside);
    }
  }

  /** The history of polls: what arrived in each, and then the events that its answers brought about. */
  ghost function Trace(inputs: seq<Input>, polls: seq<seq<Event>>): seq<Event>
    requires |polls| == |inputs|
  {
    if inputs == [] then []
    else
      var n := |inputs| - 1;
      Trace(inputs[..n], polls[..n]) + [Arrived(inputs[n].arrivals)] + polls[n]
  }

  /** The events of a poll are those its answers bring about, in turn, from what the history then called for. */
  ghost predicate PollDriven(inputs: seq<Input>, polls: seq<seq<Event>>, i: nat)
    requires i < |inputs| == |polls|
  {
    var before := Follow(Resting, Trace(inputs[..i], polls[..i]));
    Driven(After(before, Arrived(inputs[i].arrivals)), polls[i], inputs[i].ready)
  }

  ghost predicate AllDriven(inputs: seq<Input>, polls: seq<seq<Event>>) {
    |polls| == |inputs| && forall i: nat | i < |inputs| :: PollDriven(inputs, polls, i)
  }

  lemma OneMorePoll(inputs: seq<Input>, polls: seq<seq<Event>>, k: nat, es: seq<Event>)
    requires k < |inputs| && |polls| == k && AllDriven(inputs[..k], polls)
    requires var before := Follow(Resting, Trace(inputs[..k], polls));
             Driven(After(before, Arrived(inputs[k].arrivals)), es, inputs[k].ready)
    ensures AllDriven(inputs[..k + 1], polls + [es])
    ensures Trace(inputs[..k + 1], polls + [es]) == Trace(inputs[..k], polls) + [Arrived(inputs[k].arrivals)] + es
  {
    var now, more := inputs[..k + 1], polls + [es];
    assert now[..k] == inputs[..k] && more[..k] == polls;
    forall i: nat | i < k + 1
      ensures PollDriven(now, more, i)
    {
      if i < k {
        assert PollDriven(inputs[..k], polls, i);
        assert now[..i] == inputs[..k][..i] && more[..i] == polls[..i];
      }
    }
  }

  /**
   Any sequence of polls keeps the invariant, over the history of what arrived and what the answers brought about, poll by
   poll.
   */
  method Run(inputs: seq<Input>) returns (p: TipsetProcessor, ghost polls: seq<seq<Event>>)
    ensures fresh(p) && p.Valid() && TraceInvariant(p.state, p.history)
    ensures AllDriven(inputs, polls) && p.history == Trace(inputs, polls)
    ensures Stream(p.history) == AllArrivals(inputs)
  {
    p := new TipsetProcessor();
    polls := [];
    for i := 0 to |inputs|
      invariant fresh(p) && p.Valid() && Stream(p.history) == AllArrivals(inputs[..i])
      invariant |polls| == i && AllDriven(inputs[..i], polls) && p.history == Trace(inputs[..i], polls)
    {
      ghost var h, m := p.history, p.Now();
      var e := Arrived(inputs[i].arrivals);
      var closed;
      ghost var es;
      closed, es := p.Poll(inputs[i].arrivals, false, inputs[i].ready);
      PollStream(h, e, es, After(m, e), inputs[i].ready);
      OneMorePoll(inputs, polls, i, es);
      polls := polls + [es];
      assert inputs[..i + 1][..i] == inputs[..i];
    }
    assert inputs[..|inputs|] == inputs;
    TraceInvariantHolds(p.state, p.history);
  }

  lemma PollStream(h: seq<Event>, e: Event, es: seq<Event>, m: Mode, ready: seq<Ready>)
    requires e.Arrived? && Driven(m, es, ready)
    ensures Stream(h + [e] + es) == Stream(h) + e.tipsets
  {
    StreamConcat(h + [e], es);
    StreamConcat(h, [e]);
    assert [e][..0] == [];
    DrivenStream(m, es, ready);
  }

  lemma OneMember(g: TipsetGroup, a: Tipset)
    requires GroupInv(g) && Members(g) <= {a}
    ensures g == TipsetGroup([a], RangeOf(a)) && LastHeaviest(g.tipsets) == a
  {
    assert forall i | 0 <= i < |g.tipsets| :: g.tipsets[i] in Members(g);
    var j := if |g.tipsets| > 1 then 1 else 0;
    assert g.tipsets[0] == g.tipsets[j];
    assert g.tipsets == [a];
  }

  /** The first poll that brings a single tipset begins a range with it. */
  method StartWith(a: Tipset) returns (p: TipsetProcessor)
    ensures fresh(p) && p.Valid() && p.state == Finding(TipsetGroup([a], RangeOf(a)), None, None)
    ensures p.history == [Arrived([a]), Began(p.state.group)]
  {
    p := new TipsetProcessor();
    var closed;
    ghost var es;
    closed, es := p.Poll([a], false, []);
    assert After(Resting, Arrived([a])) == Due(ToSet([a])) && ToSet([a]) == {a};
    OneMember(es[0].group, a);
    assert After(Due({a}), es[0]).Active? && es[1..] == [] && es == [es[0]];
    FollowOne(Due({a}), es[0]);
    assert p.history == [Arrived([a]), es[0]];
    NothingKept(p.state.next);
    NothingGathered(p.state.current);
  }

  lemma NothingKept(next: Option<TipsetGroup>)
    requires NextInv(next, {})
    ensures next == None
  {
  }

  lemma HasMember(g: TipsetGroup)
    requires GroupInv(g)
    ensures Members(g) != {}
  {
    assert g.tipsets[0] in Members(g);
  }

  lemma NothingGathered(current: Option<TipsetGroup>)
    requires current.Some? ==> GroupInv(current.value)
    requires MembersOf(current) == {}
    ensures current == None
  {
    if current.Some? {
      HasMember(current.value);
    }
  }

  lemma NothingArrived(m: Mode)
    requires !m.Due?
    ensures After(m, Arrived([])) == m
  {
    if m.Active? {
      assert InRange([], m.group.range) == {} && Others([], m.group.range) == {};
    }
  }

  lemma OneOther(m: Mode, b: Tipset)
    requires m.Active? && RangeOf(b) != m.group.range
    ensures After(m, Arrived([b])) == m.(outside := m.outside + {b})
  {
    assert InRange([b], m.group.range) == {} && Others([b], m.group.range) == {b};
  }

  lemma OneAnswer(m: Mode, es: seq<Event>, answer: Ready)
    requires m.Active? && Driven(m, es, [answer])
    requires m.group.tipsets != [] && m.span.None?
    ensures es == [Outcome(m, answer)] && Follow(m, es) == After(m, Outcome(m, answer))
  {
    var e := Outcome(m, answer);
    assert es[0] == e && [answer][1..] == [] && Driven(After(m, e), es[1..], []);
    assert es == [e] + es[1..];
    FollowOne(m, e);
  }

  /** A refused search loses the group that was next: `b` came for another range, was kept, and is dropped. */
  method ForgetsNext(a: Tipset, b: Tipset) returns (p: TipsetProcessor, kept: Option<TipsetGroup>)
    requires RangeOf(a) != RangeOf(b)
    ensures fresh(p) && p.Valid() && p.state.Idle? && kept == Some(TipsetGroup([b], RangeOf(b)))
  {
    p := StartWith(a);
    kept := KeepsNext(p, b);
    ghost var m := p.Now();
    var closed;
    ghost var es;
    closed, es := p.Poll([], false, [Ready(a, true)]);
    NothingArrived(m);
    LastHeaviestIs([a], 0);
    OneAnswer(m, es, Ready(a, true));
  }

  /** A tipset of another range is kept for later. */
  method KeepsNext(p: TipsetProcessor, b: Tipset) returns (kept: Option<TipsetGroup>)
    requires p.Valid() && p.state.Finding? && p.state.next.None? && RangeOf(b) != p.state.group.range
    modifies p
    ensures p.Valid() && p.state.Finding? && p.state.group == old(p.state).group && p.state.next == kept
    ensures kept == Some(TipsetGroup([b], RangeOf(b)))
  {
    ghost var m := p.Now();
    OneOther(m, b);
    assert m.outside + {b} == {b};
    var closed;
    ghost var es;
    closed, es := p.Poll([b], false, []);
    kept := p.state.next;
    OneMember(kept.value, b);
  }

  /** The head of a range is scheduled with the range, and once more when it arrives again. */
  method SchedulesHeadTwice(a: Tipset, base: Tipset) returns (p: TipsetProcessor)
    requires a != base && base.epoch <= a.epoch
    ensures fresh(p) && p.Valid() && p.state.Syncing?
    ensures SyncTipsetRange(a, base) in p.state.syncer.tasks && SyncTipset(a) in p.state.syncer.tasks
  {
    p := StartWith(a);
    ghost var m := p.Now();
    var closed;
    ghost var es;
    closed, es := p.Poll([], false, [Ready(base, true)]);
    NothingArrived(m);
    LastHeaviestIs([a], 0);
    OneAnswer(m, es, Ready(base, true));
    m := p.Now();
    closed, es := p.Poll([a], false, []);
    assert a in InRange([a], RangeOf(a));
    InExtra(p.state.syncer, a);
  }
}
