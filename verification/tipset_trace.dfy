/** What a tipset processor has been through, and what that says it should be doing. */
module TipsetTrace {

  import opened Common
  import opened TipsetGroups
  import opened TipsetRange

  datatype Event =
    | Arrived(tipsets: seq<Tipset>)            // read off the stream in one poll
    | Began(group: TipsetGroup)                // a range search starts from the group
    | Found(head: Tipset, base: Tipset)        // the search proposes a head over the head of the chain
    | TurnedDown(base: Tipset)                 // the search is refused
    | Synced(ok: bool)                         // the range is done

  /** A range: its proposed head and the head of the chain it is to follow. */
  datatype Span = Span(head: Tipset, base: Tipset)

  /**
   `Due`: a range has to begin with one of the candidates.
   `Active`: a range began with `group`; since then `arrived` came for it and `outside` for other ranges.
   It is being searched for until its span is known.
   */
  datatype Mode =
    | Resting
    | Due(candidates: set<Tipset>)
    | Active(group: TipsetGroup, arrived: set<Tipset>, outside: set<Tipset>, span: Option<Span>)

  ghost function After(m: Mode, e: Event): Mode {
    match e
    case Arrived(ts) =>
      (match m
       case Resting => if ts == [] then Resting else Due(ToSet(ts))
       case Due(_) => m
       case Active(g, arrived, outside, span) =>
         Active(g, arrived + InRange(ts, g.range), outside + Others(ts, g.range), span))
    case Began(g) => Active(g, {}, {}, None)
    case Found(head, base) => if m.Active? then m.(span := Some(Span(head, base))) else m
    case TurnedDown(_) => Resting
    case Synced(_) => if m.Active? && m.outside != {} then Due(m.outside) else Resting
  }

  /** The event can happen in the mode. */
  ghost predicate Legal(m: Mode, e: Event) {
    match e
    case Arrived(_) => !m.Due?
    case Began(g) => m.Due? && GroupInv(g) && Members(g) <= m.candidates && SameWeight(g, m.candidates)
    case Found(head, base) =>
      && m.Active? && m.span.None? && m.group.tipsets != []
      && head == LastHeaviest(m.group.tipsets) && !Refuses(m.group, base)
    case TurnedDown(base) => m.Active? && m.span.None? && m.group.tipsets != [] && Refuses(m.group, base)
    case Synced(_) => m.Active? && m.span.Some?
  }

  ghost function Follow(m: Mode, es: seq<Event>): Mode
    decreases |es|
  {
    if es == [] then m else Follow(After(m, es[0]), es[1..])
  }

  ghost predicate LegalFrom(m: Mode, es: seq<Event>)
    decreases |es|
  {
    es != [] ==> Legal(m, es[0]) && LegalFrom(After(m, es[0]), es[1..])
  }

  lemma {:induction false} FollowConcat(m: Mode, a: seq<Event>, b: seq<Event>)
    ensures Follow(m, a + b) == Follow(Follow(m, a), b)
    ensures LegalFrom(m, a + b) <==> LegalFrom(m, a) && LegalFrom(Follow(m, a), b)
    decreases |a|
  {
    if a == [] {
      assert a + b == b;
    } else {
      assert (a + b)[0] == a[0] && (a + b)[1..] == a[1..] + b;
      FollowConcat(After(m, a[0]), a[1..], b);
    }
  }

  lemma FollowOne(m: Mode, e: Event)
    ensures Follow(m, [e]) == After(m, e) && (LegalFrom(m, [e]) <==> Legal(m, e))
  {
    assert [e][1..] == [];
  }

  // ---- what drives a poll on ----

  /** What the futures answer when they complete: the head of the chain, or whether the sync went well. */
  datatype Ready = Ready(head: Tipset, synced: bool)

  /** The event the answer brings about. */
  ghost function Outcome(m: Mode, answer: Ready): Event
    requires m.Active? && m.group.tipsets != []
  {
    if m.span.Some? then Synced(answer.synced)
    else if Refuses(m.group, answer.head) then TurnedDown(answer.head)
    else Found(LastHeaviest(m.group.tipsets), answer.head)
  }

  /** The events of driving on: a range begins as soon as it is due, and each answer in turn has its outcome. */
  ghost predicate Driven(m: Mode, es: seq<Event>, ready: seq<Ready>)
    decreases |es|
  {
    match m
    case Resting => es == []
    case Due(_) => es != [] && es[0].Began? && Legal(m, es[0]) && Driven(After(m, es[0]), es[1..], ready)
    case Active(g, _, _, _) =>
      if ready == [] then es == []
      else
        && g.tipsets != [] && es != [] && es[0] == Outcome(m, ready[0])
        && Driven(After(m, es[0]), es[1..], ready[1..])
  }

  /** Driving on for a while, then on with the answers that are left. */
  lemma {:induction false} DrivenConcat(m: Mode, a: seq<Event>, b: seq<Event>, n: nat, ready: seq<Ready>)
    requires n <= |ready| && Driven(m, a, ready[..n]) && Driven(Follow(m, a), b, ready[n..])
    requires !Follow(m, a).Due?
    ensures Driven(m, a + b, ready)
    decreases |a|
  {
    if a == [] {
      assert a + b == b;
      assert m.Active? ==> n == 0;
      assert n == 0 ==> ready[n..] == ready;
    } else {
      TailOfConcat(a, b);
      var next := After(m, a[0]);
      if m.Due? {
        DrivenConcat(next, a[1..], b, n, ready);
      } else {
        TailOfTake(ready, n);
        DrivenConcat(next, a[1..], b, n - 1, ready[1..]);
      }
    }
  }

  // ---- the same, by position in the history ----

  /** The position of the last event that began a range, or -1. */
  ghost function LastBegan(h: seq<Event>): (k: int)
    ensures -1 <= k < |h|
    ensures k >= 0 ==> h[k].Began?
    ensures forall j | k < j < |h| :: !h[j].Began?
  {
    if h == [] then -1
    else if h[|h| - 1].Began? then |h| - 1
    else LastBegan(h[..|h| - 1])
  }

  /** `t` came off the stream after the present range began. */
  ghost predicate CameSince(h: seq<Event>, t: Tipset) {
    exists j :: LastBegan(h) < j < |h| && h[j].Arrived? && t in h[j].tipsets
  }

  lemma CameSinceStep(h: seq<Event>, e: Event, t: Tipset)
    requires !e.Began?
    ensures LastBegan(h + [e]) == LastBegan(h)
    ensures CameSince(h + [e], t) <==> CameSince(h, t) || (e.Arrived? && t in e.tipsets)
  {
    var n := |h|;
    assert (h + [e])[..n] == h && (h + [e])[n] == e;
    if CameSince(h, t) {
      var j :| LastBegan(h) < j < |h| && h[j].Arrived? && t in h[j].tipsets;
      assert (h + [e])[j] == h[j];
    }
    if e.Arrived? && t in e.tipsets {
      assert (h + [e])[n].Arrived? && t in (h + [e])[n].tipsets;
    }
  }

  /** The sets of the mode are what the history says came since the range began. */
  lemma {:induction false} ModeIsHistory(h: seq<Event>)
    requires LegalFrom(Resting, h) && Follow(Resting, h).Active?
    ensures LastBegan(h) >= 0 && h[LastBegan(h)].group == Follow(Resting, h).group
    ensures forall t :: t in Follow(Resting, h).outside <==>
                        CameSince(h, t) && RangeOf(t) != Follow(Resting, h).group.range
    ensures forall t :: t in Follow(Resting, h).arrived <==>
                        CameSince(h, t) && RangeOf(t) == Follow(Resting, h).group.range
  {
    var n := |h| - 1;
    var init, e := h[..n], h[n];
    assert h == init + [e];
    FollowConcat(Resting, init, [e]);
    FollowOne(Follow(Resting, init), e);
    if e.Began? {
      assert LastBegan(h) == n;
    } else {
      ModeIsHistory(init);
      forall t {
        CameSinceStep(init, e, t);
      }
    }
  }

  /** Everything that came off the stream, in order. */
  function Stream(h: seq<Event>): seq<Tipset> {
    if h == [] then []
    else Stream(h[..|h| - 1]) + (if h[|h| - 1].Arrived? then h[|h| - 1].tipsets else [])
  }

  lemma {:induction false} StreamConcat(a: seq<Event>, b: seq<Event>)
    ensures Stream(a + b) == Stream(a) + Stream(b)
  {
    if b == [] {
      assert a + b == a;
    } else {
      assert (a + b)[..|a + b| - 1] == a + b[..|b| - 1];
      StreamConcat(a, b[..|b| - 1]);
    }
  }

  /** Driving on takes nothing off the stream. */
  lemma {:induction false} DrivenStream(m: Mode, es: seq<Event>, ready: seq<Ready>)
    requires Driven(m, es, ready)
    ensures Stream(es) == []
    decreases |es|
  {
    if es == [] {
    } else {
      assert es == [es[0]] + es[1..];
      StreamConcat([es[0]], es[1..]);
      assert [es[0]][..0] == [];
      DrivenStream(After(m, es[0]), es[1..], if m.Due? then ready else ready[1..]);
    }
  }
}
