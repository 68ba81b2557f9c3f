/**
 Whole runs of the scanner: forward legs, joined where a length moves the cursor back or a count wraps round.
 What the scanner accepts is exactly what such a journey ends in; and when it never ends.
 */
module CborLegs {

  import opened Common
  import opened CborHeader
  import opened IpldModel
  import opened CborScan
  import opened CborItems
  import opened CborStops
  import opened CborRounds
  import opened Iteration
  import opened CborLoop

  // ---- a leg is a forward scan ----

  /** Where the loop is, or how it was left, after a forward scan of what lies before the end of `size` bytes. */
  ghost predicate Leads(checked: bool, size: nat, s: Scan, m: Machine) {
    && m.links == s.links
    && match s.end {
         case Done(rest) => Accepted(m) && m.pos == size - |rest|
         case Overrun => Accepted(m) && m.pos > size
         case Failed(e) => m.Broke? && m.error == e
         case Panicked => m.Panic?
         case Turned(SeekBack(d), rest, left) =>
           if size - |rest| < d then m.Broke? && m.error == BeforeStart
           else m.At? && m.pos == size - |rest| - d && m.remaining == left
         case Turned(CountOverflow, rest, left) =>
           if checked then m.Panic? else m.At? && m.pos == size - |rest| && m.remaining == left
       }
  }

  /** Where a round leads that reads one item as the forward scan does. */
  ghost predicate Matches(checked: bool, size: nat, step: Step, pending: nat, m: Machine) {
    match step
    case Go(links, rest, left) => |rest| <= size && m == At(size - |rest|, left, links)
    case Stop(Done(_)) => false
    case Stop(Overrun) => m.At? && pending == m.remaining == 0 && m.pos > size && m.links == []
    case Stop(Failed(e)) =>
      || m == Broke(e, [])
      || (e == BadHeader(Eof) && m.At? && 0 < pending == m.remaining && m.pos > size && m.links == [])
    case Stop(Panicked) => m == Panic([])
    case Stop(Turned(SeekBack(d), rest, left)) => m == SeekTo(size - |rest| - d, left)
    case Stop(Turned(CountOverflow, rest, left)) =>
      |rest| <= size && m == if checked then Panic([]) else At(size - |rest|, left, [])
  }

  lemma BodyMatches(parse: CidParser, checked: bool, data: seq<Byte>, pos: nat, maj: nat, extra: nat, remaining: nat)
    requires pos <= |data| && 0 < remaining < U64 && extra < U64
    ensures Matches(checked, |data|, StepBody(parse, maj, extra, data[pos..], remaining - 1), remaining - 1,
                    Body(parse, checked, data, pos, maj, extra, remaining))
  {
    if maj == 2 || maj == 3 {
      assert extra <= |data| - pos ==> data[pos..][extra..] == data[pos + extra..];
    }
  }

  lemma HeaderRead(data: seq<Byte>, pos: nat)
    requires pos <= |data| && DecodeHeader(data[pos..]).Header?
    ensures var h := DecodeHeader(data[pos..]);
            h.extra < U64 && |h.rest| < |data| && data[|data| - |h.rest|..] == h.rest
  {
    HeaderIsCanonical(data[pos..]);
  }

  lemma HeaderMatches(parse: CidParser, checked: bool, data: seq<Byte>, pos: nat, remaining: nat)
    requires pos <= |data| && 0 < remaining < U64 && DecodeHeader(data[pos..]).Header?
    ensures var h := DecodeHeader(data[pos..]);
            && |h.rest| <= |data|
            && Matches(checked, |data|, StepBody(parse, h.maj, h.extra, h.rest, remaining - 1), remaining - 1,
                       Body(parse, checked, data, |data| - |h.rest|, h.maj, h.extra, remaining))
  {
    HeaderRead(data, pos);
    var h := DecodeHeader(data[pos..]);
    BodyMatches(parse, checked, data, |data| - |h.rest|, h.maj, h.extra, remaining);
  }

  /** The round at a position reads what the forward scan reads there. */
  ghost predicate SameRound(parse: CidParser, checked: bool, data: seq<Byte>, pos: nat, remaining: nat)
    requires pos <= |data| && 0 < remaining
  {
    Matches(checked, |data|, StepOver(parse, data[pos..], remaining - 1), remaining - 1,
            RoundAt(parse, checked, data, pos, remaining))
  }

  lemma RoundMatches(parse: CidParser, checked: bool, data: seq<Byte>, pos: nat, remaining: nat)
    requires pos <= |data| && 0 < remaining < U64
    ensures SameRound(parse, checked, data, pos, remaining)
  {
    var h := DecodeHeader(data[pos..]);
    assert BytesFrom(data, pos) == data[pos..];
    if h.Header? {
      HeaderMatches(parse, checked, data, pos, remaining);
    }
  }

  lemma OneRound(parse: CidParser, checked: bool, data: seq<Byte>, pos: nat, remaining: nat)
    requires remaining > 0
    ensures Iterate(Loop(Rounds(parse, checked, data)), At(pos, remaining, []), 1) == RoundAt(parse, checked, data, pos, remaining)
  {
    var f, m := Loop(Rounds(parse, checked, data)), At(pos, remaining, []);
    assert Iterate(f, m, 1) == f(Iterate(f, m, 0)) == Round(Rounds(parse, checked, data), m);
    var r := RoundAt(parse, checked, data, pos, remaining);
    assert [] + r.links == r.links;
  }

  lemma StopLeads(parse: CidParser, checked: bool, data: seq<Byte>, pos: nat, remaining: nat) returns (n: nat)
    requires pos <= |data| && 0 < remaining < U64 && StepOver(parse, data[pos..], remaining - 1).Stop?
    ensures Leads(checked, |data|, Scan([], StepOver(parse, data[pos..], remaining - 1).end),
                  Iterate(Loop(Rounds(parse, checked, data)), At(pos, remaining, []), n))
    ensures n > 0
  {
    var end := StepOver(parse, data[pos..], remaining - 1).end;
    var f, m := Loop(Rounds(parse, checked, data)), RoundAt(parse, checked, data, pos, remaining);
    RoundMatches(parse, checked, data, pos, remaining);
    OneRound(parse, checked, data, pos, remaining);
    n := 1;
    if end.Failed? && m.At? {
      PastEnd(parse, checked, data, m.pos, m.remaining);
      OneRound(parse, checked, data, m.pos, m.remaining);
      IterateConcat(f, At(pos, remaining, []), 1, 1);
      n := 2;
    }
  }

  lemma Suffix(parse: CidParser, data: seq<Byte>, pos: nat, remaining: nat)
    requires pos <= |data| && 0 < remaining < U64 && StepOver(parse, data[pos..], remaining - 1).Go?
    ensures var step := StepOver(parse, data[pos..], remaining - 1);
            step.remaining < U64 && |step.rest| < |data| - pos && data[|data| - |step.rest|..] == step.rest
  {
    var it := HeadRead(parse, data[pos..], remaining);
    var rest := StepOver(parse, data[pos..], remaining - 1).rest;
    DropPrefix(Head(it), rest);
  }

  lemma LeadsAfter(checked: bool, size: nat, links: seq<Cid>, s: Scan, m: Machine)
    requires Leads(checked, size, s, m)
    ensures Leads(checked, size, CborScan.After(links, s), AddLinks(links, m))
  {
  }

  lemma JoinLeads(parse: CidParser, checked: bool, data: seq<Byte>, m: Machine, links: seq<Cid>, next: Machine, s: Scan,
                  k: nat)
    requires Iterate(Loop(Rounds(parse, checked, data)), m, 1) == AddLinks(links, next)
    requires Leads(checked, |data|, s, Iterate(Loop(Rounds(parse, checked, data)), next, k))
    ensures Leads(checked, |data|, CborScan.After(links, s), Iterate(Loop(Rounds(parse, checked, data)), m, 1 + k))
  {
    var f := Loop(Rounds(parse, checked, data));
    IterateConcat(f, m, 1, k);
    LinksCarry(Rounds(parse, checked, data), links, next, k);
    LeadsAfter(checked, |data|, links, s, Iterate(f, next, k));
  }

  lemma GoStep(parse: CidParser, checked: bool, data: seq<Byte>, pos: nat, remaining: nat)
    requires pos <= |data| && 0 < remaining < U64 && StepOver(parse, data[pos..], remaining - 1).Go?
    ensures var step := StepOver(parse, data[pos..], remaining - 1);
            && |step.rest| <= |data|
            && Iterate(Loop(Rounds(parse, checked, data)), At(pos, remaining, []), 1) ==
               AddLinks(step.links, At(|data| - |step.rest|, step.remaining, []))
  {
    RoundMatches(parse, checked, data, pos, remaining);
    OneRound(parse, checked, data, pos, remaining);
    var links := StepOver(parse, data[pos..], remaining - 1).links;
    assert links + [] == links;
  }

  /** After `n` rounds from a position the loop is where the forward scan from there leads. */
  ghost predicate LegLeads(parse: CidParser, checked: bool, data: seq<Byte>, pos: nat, remaining: nat, n: nat)
    requires pos <= |data|
  {
    Leads(checked, |data|, ScanFrom(parse, data[pos..], remaining),
          Iterate(Loop(Rounds(parse, checked, data)), At(pos, remaining, []), n))
  }

  /** The loop from a place follows the forward scan of the bytes from there, to its end or its turn. */
  lemma {:induction false} LegRuns(parse: CidParser, checked: bool, data: seq<Byte>, pos: nat, remaining: nat)
    returns (n: nat)
    requires pos <= |data| && remaining < U64
    ensures LegLeads(parse, checked, data, pos, remaining, n)
    ensures remaining > 0 ==> n > 0
    decreases |data| - pos
  {
    if remaining == 0 {
      n := 0;
    } else {
      var step := StepOver(parse, data[pos..], remaining - 1);
      if step.Stop? {
        StopEnds(parse, data[pos..], remaining, step.end);
        n := StopLeads(parse, checked, data, pos, remaining);
      } else {
        Suffix(parse, data, pos, remaining);
        var k := LegRuns(parse, checked, data, |data| - |step.rest|, step.remaining);
        var next := At(|data| - |step.rest|, step.remaining, []);
        GoStep(parse, checked, data, pos, remaining);
        var more := ScanFrom(parse, step.rest, step.remaining);
        ScanUnfolds(parse, data[pos..], remaining, step.links, step.rest, step.remaining);
        JoinLeads(parse, checked, data, At(pos, remaining, []), step.links, next, more, k);
        n := 1 + k;
      }
    }
  }

  // ---- journeys ----

  /** A place of the cursor and the count there. */
  datatype Place = Place(pos: nat, remaining: nat)

  function AtPlace(p: Place): Machine {
    At(p.pos, p.remaining, [])
  }

  ghost predicate Inside(data: seq<Byte>, p: Place) {
    p.pos <= |data| && p.remaining < U64
  }

  /** The forward scan from a place. */
  ghost function LegFrom(parse: CidParser, data: seq<Byte>, p: Place): Scan
    requires Inside(data, p)
  {
    ScanFrom(parse, data[p.pos..], p.remaining)
  }

  /** The leg from `p` turns, and the loop goes on from `q`. */
  ghost predicate Turns(parse: CidParser, checked: bool, data: seq<Byte>, p: Place, q: Place) {
    && Inside(data, p) && Inside(data, q)
    && var end := LegFrom(parse, data, p).end;
       && end.Turned? && q.remaining == end.remaining
       && match end.turn {
            case SeekBack(d) => q.pos == |data| - |end.rest| - d
            case CountOverflow => !checked && q.pos == |data| - |end.rest|
          }
  }

  /** The loop goes on behind such a leg: it turned, and not to before the first byte or into a checked count. */
  ghost predicate GoesOn(checked: bool, size: nat, s: Scan) {
    && s.end.Turned?
    && match s.end.turn {
         case SeekBack(d) => d <= size - |s.end.rest|
         case CountOverflow => !checked
       }
  }

  /** Legs from `p`, each turning to where the next begins, the last of which ends the loop. */
  ghost predicate Journey(parse: CidParser, checked: bool, data: seq<Byte>, p: Place, ps: seq<Place>)
    decreases |ps|
  {
    if ps == [] then Inside(data, p) && !GoesOn(checked, |data|, LegFrom(parse, data, p))
    else Turns(parse, checked, data, p, ps[0]) && Journey(parse, checked, data, ps[0], ps[1..])
  }

  /** The end of the last leg, with the links of all. */
  ghost function JourneyScan(parse: CidParser, checked: bool, data: seq<Byte>, p: Place, ps: seq<Place>): Scan
    requires Journey(parse, checked, data, p, ps)
    decreases |ps|
  {
    if ps == [] then LegFrom(parse, data, p)
    else CborScan.After(LegFrom(parse, data, p).links, JourneyScan(parse, checked, data, ps[0], ps[1..]))
  }

  /** A turn leaves the cursor behind bytes that were read, and the count in its word. */
  lemma TurnIsInside(parse: CidParser, data: seq<Byte>, remaining: nat)
    requires remaining < U64 && ScanFrom(parse, data, remaining).end.Turned?
    ensures var end := ScanFrom(parse, data, remaining).end;
            && |end.rest| < |data| && end.remaining < U64 && (end.turn.SeekBack? ==> end.turn.distance > 0)
  {
    var hs, tail, pending := StopsAt(parse, data, remaining);
    if ScanFrom(parse, data, remaining).end.turn.SeekBack? {
      var text := LongStringBehind(parse, tail, pending);
    } else {
      var maj, n := TooManyBehind(parse, tail, pending);
    }
  }

  lemma TurnRuns(parse: CidParser, checked: bool, data: seq<Byte>, p: Place, q: Place) returns (n: nat)
    requires Turns(parse, checked, data, p, q)
    ensures Runs(Rounds(parse, checked, data), AtPlace(p), n, AddLinks(LegFrom(parse, data, p).links, AtPlace(q)))
    ensures n > 0
  {
    n := LegRuns(parse, checked, data, p.pos, p.remaining);
    TurnIsInside(parse, data[p.pos..], p.remaining);
    var links := LegFrom(parse, data, p).links;
    assert links + [] == links;
  }

  lemma LastLegRuns(parse: CidParser, checked: bool, data: seq<Byte>, p: Place) returns (n: nat, m: Machine)
    requires Inside(data, p) && !GoesOn(checked, |data|, LegFrom(parse, data, p))
    ensures Ends(Rounds(parse, checked, data), AtPlace(p), n, m) && Leads(checked, |data|, LegFrom(parse, data, p), m)
  {
    n := LegRuns(parse, checked, data, p.pos, p.remaining);
    m := Iterate(Loop(Rounds(parse, checked, data)), AtPlace(p), n);
  }

  lemma JoinEnds(parse: CidParser, checked: bool, data: seq<Byte>, p: Place, q: Place, k: nat, r: Machine)
    returns (n: nat, m: Machine)
    requires Turns(parse, checked, data, p, q) && Ends(Rounds(parse, checked, data), AtPlace(q), k, r)
    ensures Ends(Rounds(parse, checked, data), AtPlace(p), n, m) && m == AddLinks(LegFrom(parse, data, p).links, r)
  {
    var links := LegFrom(parse, data, p).links;
    var first := TurnRuns(parse, checked, data, p, q);
    JoinRuns(Rounds(parse, checked, data), AtPlace(p), links, AtPlace(q), first, k, r);
    n, m := first + k, AddLinks(links, r);
  }

  /** A journey is a run, and ends as its last leg does. */
  lemma {:induction false} JourneyRuns(parse: CidParser, checked: bool, data: seq<Byte>, p: Place, ps: seq<Place>)
    returns (n: nat, m: Machine)
    requires Journey(parse, checked, data, p, ps)
    ensures Ends(Rounds(parse, checked, data), AtPlace(p), n, m)
    ensures Leads(checked, |data|, JourneyScan(parse, checked, data, p, ps), m)
    decreases |ps|
  {
    if ps == [] {
      n, m := LastLegRuns(parse, checked, data, p);
    } else {
      var k, r := JourneyRuns(parse, checked, data, ps[0], ps[1..]);
      n, m := JoinEnds(parse, checked, data, p, ps[0], k, r);
      LeadsAfter(checked, |data|, LegFrom(parse, data, p).links, JourneyScan(parse, checked, data, ps[0], ps[1..]), r);
    }
  }

  /** Where a leg turns to. */
  lemma TurnPlace(parse: CidParser, checked: bool, data: seq<Byte>, p: Place) returns (q: Place)
    requires Inside(data, p) && GoesOn(checked, |data|, LegFrom(parse, data, p))
    ensures Turns(parse, checked, data, p, q)
  {
    TurnIsInside(parse, data[p.pos..], p.remaining);
    var end := LegFrom(parse, data, p).end;
    q := Place(|data| - |end.rest| - if end.turn.SeekBack? then end.turn.distance else 0, end.remaining);
  }

  /** A run that ends is a journey. */
  lemma {:induction false} EndedJourney(parse: CidParser, checked: bool, data: seq<Byte>, p: Place, n: nat, r: Machine)
    returns (ps: seq<Place>)
    requires Inside(data, p) && Ends(Rounds(parse, checked, data), AtPlace(p), n, r)
    ensures Journey(parse, checked, data, p, ps)
    decreases n
  {
    if GoesOn(checked, |data|, LegFrom(parse, data, p)) {
      var q := TurnPlace(parse, checked, data, p);
      var k := TurnRuns(parse, checked, data, p, q);
      var links := LegFrom(parse, data, p).links;
      var left, s := RestEnds(Rounds(parse, checked, data), AtPlace(p), n, r, k, links, AtPlace(q));
      var more := EndedJourney(parse, checked, data, q, left, s);
      ps := [q] + more;
      assert ps[1..] == more;
    } else {
      ps := [];
    }
  }

  /** A journey from the first byte, with one item to read. */
  ghost predicate Route(parse: CidParser, checked: bool, data: seq<Byte>, ps: seq<Place>) {
    Journey(parse, checked, data, Place(0, 1), ps)
  }

  ghost function RouteScan(parse: CidParser, checked: bool, data: seq<Byte>, ps: seq<Place>): Scan
    requires Route(parse, checked, data, ps)
  {
    JourneyScan(parse, checked, data, Place(0, 1), ps)
  }

  lemma RouteEnds(parse: CidParser, checked: bool, data: seq<Byte>, ps: seq<Place>)
    requires Route(parse, checked, data, ps)
    ensures Halted(Scanned(parse, checked, data))
    ensures Leads(checked, |data|, RouteScan(parse, checked, data, ps), Scanned(parse, checked, data))
  {
    var n, m := JourneyRuns(parse, checked, data, Place(0, 1), ps);
    assert AtPlace(Place(0, 1)) == Start();
    RoundsBounded(parse, checked, data);
    EndsInFinal(Rounds(parse, checked, data), |data|, n);
  }

  /** The scan of a block ends if and only if there is a journey from its first byte, and ends as that does. */
  lemma EndsIff(parse: CidParser, checked: bool, data: seq<Byte>)
    ensures Halted(Scanned(parse, checked, data)) <==> exists ps :: Route(parse, checked, data, ps)
    ensures forall ps | Route(parse, checked, data, ps) ::
              Leads(checked, |data|, RouteScan(parse, checked, data, ps), Scanned(parse, checked, data))
  {
    forall ps | Route(parse, checked, data, ps)
      ensures Halted(Scanned(parse, checked, data))
      ensures Leads(checked, |data|, RouteScan(parse, checked, data, ps), Scanned(parse, checked, data))
    {
      RouteEnds(parse, checked, data, ps);
    }
    if Halted(Scanned(parse, checked, data)) {
      var ps := EndedJourney(parse, checked, data, Place(0, 1), PlaceCount(|data|) + 1, Scanned(parse, checked, data));
      assert Route(parse, checked, data, ps);
    }
  }

  /** What the scanner accepts: a journey whose last leg ends, in the data or past them. */
  ghost predicate AcceptedRoute(parse: CidParser, checked: bool, data: seq<Byte>, ps: seq<Place>) {
    Route(parse, checked, data, ps) && var end := RouteScan(parse, checked, data, ps).end; end.Done? || end.Overrun?
  }

  lemma AcceptsIff(parse: CidParser, checked: bool, data: seq<Byte>)
    ensures Accepted(Scanned(parse, checked, data)) <==> exists ps :: AcceptedRoute(parse, checked, data, ps)
  {
    EndsIff(parse, checked, data);
    if Accepted(Scanned(parse, checked, data)) {
      var ps :| Route(parse, checked, data, ps);
      RouteLasts(parse, checked, data, ps);
      assert AcceptedRoute(parse, checked, data, ps);
    }
  }

  /** Where the scanner panics: a journey whose last leg does, or comes to a count that a checked build refuses. */
  ghost predicate PanickedRoute(parse: CidParser, checked: bool, data: seq<Byte>, ps: seq<Place>) {
    Route(parse, checked, data, ps) && var end := RouteScan(parse, checked, data, ps).end;
    end.Panicked? || (end.Turned? && end.turn.CountOverflow?)
  }

  lemma PanicsIff(parse: CidParser, checked: bool, data: seq<Byte>)
    ensures Scanned(parse, checked, data).Panic? <==> exists ps :: PanickedRoute(parse, checked, data, ps)
  {
    EndsIff(parse, checked, data);
    forall ps | PanickedRoute(parse, checked, data, ps)
      ensures Scanned(parse, checked, data).Panic?
    {
      RouteLasts(parse, checked, data, ps);
    }
    if Scanned(parse, checked, data).Panic? {
      var ps :| Route(parse, checked, data, ps);
      RouteLasts(parse, checked, data, ps);
      assert PanickedRoute(parse, checked, data, ps);
    }
  }

  /** The last leg of a journey does not go on. */
  lemma RouteLasts(parse: CidParser, checked: bool, data: seq<Byte>, ps: seq<Place>)
    requires Route(parse, checked, data, ps)
    ensures !GoesOn(checked, |data|, RouteScan(parse, checked, data, ps))
  {
    JourneyLasts(parse, checked, data, Place(0, 1), ps);
  }

  lemma {:induction false} JourneyLasts(parse: CidParser, checked: bool, data: seq<Byte>, p: Place, ps: seq<Place>)
    requires Journey(parse, checked, data, p, ps)
    ensures !GoesOn(checked, |data|, JourneyScan(parse, checked, data, p, ps))
    decreases |ps|
  {
    if ps == [] {
    } else {
      JourneyLasts(parse, checked, data, ps[0], ps[1..]);
    }
  }

  // ---- blocks that do not turn ----

  /** A block whose forward scan does not turn ends as that scan says. */
  lemma ForwardEnds(parse: CidParser, checked: bool, data: seq<Byte>)
    requires !ScanFrom(parse, data, 1).end.Turned?
    ensures Leads(checked, |data|, ScanFrom(parse, data, 1), Scanned(parse, checked, data))
  {
    assert data[0..] == data;
    var n := LegRuns(parse, checked, data, 0, 1);
    RoundsBounded(parse, checked, data);
    EndsInFinal(Rounds(parse, checked, data), |data|, n);
  }

  // ---- blocks that do ----

  lemma LongHeader(maj: nat, n: nat)
    requires maj < 8 && 0x1_0000_0000 <= n < U64
    ensures |EncodeHeader(maj, n)| == 9
  {
  }

  lemma RoundReads(parse: CidParser, checked: bool, data: seq<Byte>, pos: nat, remaining: nat, maj: nat, n: nat,
                   rest: seq<Byte>)
    requires maj < 8 && n < U64 && remaining > 0 && pos <= |data| && data[pos..] == EncodeHeader(maj, n) + rest
    ensures Rounds(parse, checked, data)(pos, remaining) ==
            Body(parse, checked, data, |data| - |rest|, maj, n, remaining)
  {
    HeaderDecodes(maj, n, rest);
  }

  /** The header of a string of 2^64 - 9 bytes alone moves the cursor back over itself and is accepted. */
  lemma SeeksBackAccepted(parse: CidParser, checked: bool)
    ensures Accepted(Scanned(parse, checked, EncodeHeader(2, U64 - 9)))
  {
    var data := EncodeHeader(2, U64 - 9);
    var round := Rounds(parse, checked, data);
    LongHeader(2, U64 - 9);
    assert data[0..] == data + [];
    RoundReads(parse, checked, data, 0, 1, 2, U64 - 9, []);
    NextRound(round, 0);
    RoundsBounded(parse, checked, data);
    EndsInFinal(round, |data|, 1);
  }

  lemma FirstAgain(round: Rounder)
    requires round(0, 1) == At(1, 2, []) && round(1, 2) == At(0, 1, [])
    ensures NeverEnds(round)
  {
    NextRound(round, 0);
    NextRound(round, 1);
    RepeatNeverEnds(round, 0, 2);
  }

  /** An array of two whose first member is a string of 2^64 - 10 bytes is read again and again. */
  lemma ScansForEver(parse: CidParser, checked: bool)
    ensures NeverEnds(Rounds(parse, checked, EncodeHeader(4, 2) + EncodeHeader(2, U64 - 10)))
  {
    var long := EncodeHeader(2, U64 - 10);
    var data := EncodeHeader(4, 2) + long;
    LongHeader(2, U64 - 10);
    assert data[0..] == data && data[1..] == long + [];
    RoundReads(parse, checked, data, 0, 1, 4, 2, long);
    RoundReads(parse, checked, data, 1, 2, 2, U64 - 10, []);
    FirstAgain(Rounds(parse, checked, data));
  }

  /** A map of 2^63 pairs that has none is accepted, or panics in a build that checks its arithmetic. */
  lemma CountWraps(parse: CidParser, checked: bool)
    ensures var m := Scanned(parse, checked, EncodeHeader(5, I64)); if checked then m.Panic? else Accepted(m)
  {
    var data := EncodeHeader(5, I64);
    var round := Rounds(parse, checked, data);
    LongHeader(5, I64);
    assert data[0..] == data + [];
    RoundReads(parse, checked, data, 0, 1, 5, I64, []);
    NextRound(round, 0);
    RoundsBounded(parse, checked, data);
    EndsInFinal(round, |data|, 1);
  }
}
