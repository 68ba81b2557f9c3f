/** Ranges of tipsets: finding one, adding to it while it syncs, and choosing what comes after it. */
module TipsetRange {

  import opened Common
  import opened TipsetGroups

  datatype Error = AlreadySynced | InvalidTipsetRangeLength | InvalidTipsetEpoch | InvalidTipsetParent | StreamClosed

  // ---- the range syncer ----

  datatype Task = SyncTipsetRange(head: Tipset, base: Tipset) | SyncTipset(tipset: Tipset)

  datatype RangeSyncer = RangeSyncer(proposed: Tipset, current: Tipset, included: set<TipsetKeys>, tasks: seq<Task>)

  /** The tipsets scheduled beside the proposed head. */
  ghost function Extra(s: RangeSyncer): set<Tipset> {
    set task | task in s.tasks && task.SyncTipset? :: task.tipset
  }

  lemma InExtra(s: RangeSyncer, t: Tipset)
    ensures t in Extra(s) <==> SyncTipset(t) in s.tasks
  {
    if SyncTipset(t) in s.tasks {
      assert SyncTipset(t).tipset in Extra(s);
    }
  }

  lemma OnRecord(s: RangeSyncer, t: Tipset)
    requires SyncerInv(s)
    ensures KeysOf(t) in s.included <==> t in Extra(s)
  {
    InExtra(s, t);
  }

  lemma Recorded(s: RangeSyncer, t: Tipset)
    requires SyncerInv(s) && t !in Extra(s) && RangeOf(t) == RangeOf(s.proposed)
    ensures var r := s.(included := s.included + {KeysOf(t)}, tasks := s.tasks + [SyncTipset(t)]);
            SyncerInv(r) && Extra(r) == Extra(s) + {t}
  {
    var r := s.(included := s.included + {KeysOf(t)}, tasks := s.tasks + [SyncTipset(t)]);
    InExtra(s, t);
    assert r.tasks[|s.tasks|] == SyncTipset(t);
    forall x | x in Extra(r)
      ensures x in Extra(s) + {t}
    {
      InExtra(r, x);
      InExtra(s, x);
    }
    forall x | x in Extra(s) + {t}
      ensures x in Extra(r)
    {
      InExtra(r, x);
      InExtra(s, x);
    }
  }

  /** One range task, then distinct tipsets of the same epoch and parents, whose keys are on record. */
  ghost predicate SyncerInv(s: RangeSyncer) {
    && s.tasks != [] && s.tasks[0] == SyncTipsetRange(s.proposed, s.current)
    && s.proposed.epoch >= s.current.epoch && s.proposed != s.current
    && (forall i | 0 < i < |s.tasks| ::
          && s.tasks[i].SyncTipset? && RangeOf(s.tasks[i].tipset) == RangeOf(s.proposed)
          && KeysOf(s.tasks[i].tipset) in s.included)
    && (forall i, j | 0 < i < j < |s.tasks| :: s.tasks[i] != s.tasks[j])
    && (forall k | k in s.included :: k.KeysOf? && SyncTipset(k.tipset) in s.tasks)
  }

  datatype NewResult = Started(syncer: RangeSyncer) | Refused(error: Error)

  /** TipsetRangeSyncer::new; the key of the proposed head is not put on record. */
  function NewSyncer(proposed: Tipset, current: Tipset): (r: NewResult)
    ensures r.Started? <==> proposed.epoch >= current.epoch
    ensures r.Started? && proposed != current ==> SyncerInv(r.syncer) && Extra(r.syncer) == {}
  {
    if proposed.epoch - current.epoch < 0 then Refused(InvalidTipsetRangeLength)
    else Started(RangeSyncer(proposed, current, {}, [SyncTipsetRange(proposed, current)]))
  }

  datatype AddResult = Ok(added: bool) | Err(error: Error)

  /** add_tipset. */
  method AddTipset(s: RangeSyncer, t: Tipset) returns (r: RangeSyncer, res: AddResult)
    requires SyncerInv(s)
    ensures SyncerInv(r) && r.proposed == s.proposed && r.current == s.current
    ensures res.Ok? <==> t in Extra(s) || (t.epoch == s.proposed.epoch && t.parents == s.proposed.parents)
    ensures res.Ok? ==> Extra(r) == Extra(s) + {t} && res.added == (t !in Extra(s))
    ensures res.Err? ==> r == s
    ensures res.Err? ==> res.error == if t.epoch != s.proposed.epoch then InvalidTipsetEpoch else InvalidTipsetParent
  {
    OnRecord(s, t);
    if KeysOf(t) in s.included {
      return s, Ok(false);
    }
    if t.epoch != s.proposed.epoch {
      return s, Err(InvalidTipsetEpoch);
    }
    if t.parents != s.proposed.parents {
      return s, Err(InvalidTipsetParent);
    }
    Recorded(s, t);
    r := s.(included := s.included + {KeysOf(t)}, tasks := s.tasks + [SyncTipset(t)]);
    res := Ok(true);
  }

  /** Adding the tipsets of a matching group never fails. */
  method AddAll(s: RangeSyncer, ts: seq<Tipset>) returns (r: RangeSyncer)
    requires SyncerInv(s) && forall t | t in ts :: RangeOf(t) == RangeOf(s.proposed)
    ensures SyncerInv(r) && r.proposed == s.proposed && r.current == s.current
    ensures Extra(r) == Extra(s) + ToSet(ts)
  {
    r := s;
    for i := 0 to |ts|
      invariant SyncerInv(r) && r.proposed == s.proposed && r.current == s.current
      invariant Extra(r) == Extra(s) + ToSet(ts[..i])
    {
      assert RangeOf(ts[i]) == RangeOf(s.proposed);
      var res;
      r, res := AddTipset(r, ts[i]);
      assert res.Ok?;
      TakeSnoc(ts, i);
      assert ToSet(ts[..i + 1]) == ToSet(ts[..i]) + {ts[i]};
    }
    assert ts[..|ts|] == ts;
  }

  /** The head of the chain is what the group proposes, or past the epoch of the group. */
  ghost predicate Refuses(g: TipsetGroup, head: Tipset)
    requires g.tipsets != []
  {
    head == LastHeaviest(g.tipsets) || g.range.epoch < head.epoch
  }

  /** find_range, once the current head of the chain is known. */
  method FindRange(g: TipsetGroup, head: Tipset) returns (r: NewResult)
    requires GroupInv(g)
    ensures r.Refused? <==> Refuses(g, head)
    ensures r.Refused? ==>
              r.error == if head == LastHeaviest(g.tipsets) then AlreadySynced else InvalidTipsetRangeLength
    ensures r.Started? ==>
              && SyncerInv(r.syncer) && r.syncer.current == head && r.syncer.proposed == LastHeaviest(g.tipsets)
              && Heaviest(r.syncer.proposed.weight, Members(g))
              && r.syncer.proposed in Members(g) && Extra(r.syncer) == Members(g) - {r.syncer.proposed}
  {
    var proposed, rest := TakeHeaviest(g);
    if head == proposed {
      return Refused(AlreadySynced);
    }
    r := NewSyncer(proposed, head);
    if r.Started? {
      forall t | t in rest
        ensures RangeOf(t) == g.range
      {
        assert t in ToSet(rest);
      }
      var s := AddAll(r.syncer, rest);
      r := Started(s);
    }
  }

  // ---- the processor ----

  datatype State =
    | Idle
    | Finding(group: TipsetGroup, current: Option<TipsetGroup>, next: Option<TipsetGroup>)
    | Syncing(syncer: RangeSyncer, next: Option<TipsetGroup>)

  ghost predicate SameWeight(g: TipsetGroup, s: set<Tipset>) {
    exists w :: Heaviest(w, Members(g)) && Heaviest(w, s)
  }

  /** The next group is as heavy as the heaviest tipset that arrived for other ranges, if any did. */
  ghost predicate NextInv(next: Option<TipsetGroup>, outside: set<Tipset>) {
    match next
    case None => outside == {}
    case Some(g) => GroupInv(g) && Members(g) <= outside && SameWeight(g, outside)
  }

  ghost function MembersOf(g: Option<TipsetGroup>): set<Tipset> {
    if g.Some? then Members(g.value) else {}
  }

  /** Replaces the next group by a heavier one, or merges the two. */
  method UpdateNext(next: Option<TipsetGroup>, g: TipsetGroup, w: int, ghost outside: set<Tipset>, ghost more: set<Tipset>)
    returns (r: Option<TipsetGroup>)
    requires NextInv(next, outside) && GroupInv(g)
    requires Members(g) <= more && Heaviest(w, Members(g)) && Heaviest(w, more)
    ensures r.Some? && NextInv(r, outside + more)
  {
    match next
    case None =>
      assert outside + more == more;
      r := Some(g);
    case Some(ns) =>
      ghost var m :| Heaviest(m, Members(ns)) && Heaviest(m, outside);
      HeaviestUnion(m, outside, w, more);
      if ns.range == g.range {
        HeaviestUnion(m, Members(ns), w, Members(g));
        var merged := Merge(ns, g);
        r := Some(merged);
      } else {
        var v := HeaviestWeight(ns);
        HeaviestUnique(v, m, Members(ns));
        r := if w > v then Some(g) else next;
      }
  }

  ghost function Others(ts: seq<Tipset>, range: RangeKey): set<Tipset> {
    set t | t in ts && RangeOf(t) != range
  }

  method AddToCurrent(current: Option<TipsetGroup>, g: TipsetGroup) returns (r: Option<TipsetGroup>)
    requires GroupInv(g) && (current.Some? ==> GroupInv(current.value) && current.value.range == g.range)
    ensures r.Some? && GroupInv(r.value) && r.value.range == g.range
    ensures MembersOf(r) == MembersOf(current) + Members(g)
  {
    match current
    case Some(cs) =>
      var merged := Merge(cs, g);
      r := Some(merged);
    case None => r := Some(g);
  }

  /** The next group after a poll that brought `groups`, those of the present range aside. */
  method NextAfter(next: Option<TipsetGroup>, groups: map<RangeKey, TipsetGroup>, range: RangeKey,
                   ghost arrivals: seq<Tipset>, ghost outside: set<Tipset>)
    returns (r: Option<TipsetGroup>)
    requires Grouped(groups, arrivals) && NextInv(next, outside)
    ensures NextInv(r, outside + Others(arrivals, range))
  {
    var rest := groups - {range};
    if rest == map[] {
      forall t | t in arrivals
        ensures RangeOf(t) == range
      {
        assert RangeOf(t) in groups && RangeOf(t) !in rest;
      }
      assert outside + Others(arrivals, range) == outside;
      return next;
    }
    var g, w := HeaviestGroup(rest);
    OtherGroups(groups, arrivals, range, w, g);
    r := UpdateNext(next, g, w, outside, Others(arrivals, range));
  }

  lemma OtherGroups(groups: map<RangeKey, TipsetGroup>, ts: seq<Tipset>, range: RangeKey, w: int, g: TipsetGroup)
    requires Grouped(groups, ts) && g.range in groups && g == groups[g.range] && g.range != range
    requires Heaviest(w, Members(g))
    requires forall k, t | k in groups - {range} && t in Members((groups - {range})[k]) :: t.weight <= w
    ensures Members(g) <= Others(ts, range) && Heaviest(w, Others(ts, range))
  {
    var x :| x in Members(g) && x.weight == w;
    assert x in Others(ts, range);
    forall t | t in Others(ts, range)
      ensures t.weight <= w
    {
      var k := RangeOf(t);
      assert k in groups - {range} && t in Members((groups - {range})[k]);
    }
  }

  lemma AllGroups(groups: map<RangeKey, TipsetGroup>, ts: seq<Tipset>, w: int, g: TipsetGroup)
    requires Grouped(groups, ts) && g.range in groups && g == groups[g.range] && Heaviest(w, Members(g))
    requires forall k, t | k in groups && t in Members(groups[k]) :: t.weight <= w
    ensures SameWeight(g, ToSet(ts))
  {
    var x :| x in Members(g) && x.weight == w;
    assert x in ToSet(ts);
    forall t | t in ToSet(ts)
      ensures t.weight <= w
    {
      assert t in Members(groups[RangeOf(t)]);
    }
  }

  lemma GroupsIffArrivals(groups: map<RangeKey, TipsetGroup>, ts: seq<Tipset>)
    requires Grouped(groups, ts)
    ensures groups == map[] <==> ts == []
  {
    forall k | k in groups
      ensures InRange(ts, k) != {}
    {
      assert groups[k].tipsets[0] in Members(groups[k]);
    }
    assert ts != [] ==> RangeOf(ts[0]) in groups;
  }

  lemma NoGroup(groups: map<RangeKey, TipsetGroup>, ts: seq<Tipset>, range: RangeKey)
    requires Grouped(groups, ts)
    ensures InRange(ts, range) == if range in groups then Members(groups[range]) else {}
  {
  }
}
