/**
 The loop of the scanner over any round: a round is told by the place of the cursor and the count, so a run that
 comes back to a place never ends, and one that goes on for longer than there are places has come back to one.
 */
module CborLoop {

  import opened Common
  import opened CborHeader
  import opened IpldModel
  import opened Iteration
  import opened CborScan

  /** Where the loop is, or how it was left early; it ends normally when no item remains. */
  datatype Machine =
    | At(pos: nat, remaining: nat, links: seq<Cid>)
    | Broke(error: ScanError, links: seq<Cid>)
    | Panic(links: seq<Cid>)

  /** What a round does from a position and a count, and the links it reports. */
  type Rounder = (nat, nat) -> Machine

  predicate Halted(m: Machine) {
    m.At? ==> m.remaining == 0
  }

  /** The loop ended normally. */
  predicate Accepted(m: Machine) {
    m.At? && m.remaining == 0
  }

  function AddLinks(links: seq<Cid>, m: Machine): Machine {
    m.(links := links + m.links)
  }

  function Round(round: Rounder, m: Machine): Machine {
    if Halted(m) then m else AddLinks(m.links, round(m.pos, m.remaining))
  }

  function Loop(round: Rounder): Machine -> Machine {
    m => Round(round, m)
  }

  function Start(): Machine {
    At(0, 1, [])
  }

  /** The state after `n` rounds. */
  function RunFor(round: Rounder, n: nat): Machine {
    Iterate(Loop(round), Start(), n)
  }

  lemma NextRound(round: Rounder, n: nat)
    ensures RunFor(round, n + 1) == Round(round, RunFor(round, n))
  {
  }

  lemma GoOn(round: Rounder, n: nat, m: Machine, step: Machine)
    requires m == RunFor(round, n) && !Halted(m) && step == round(m.pos, m.remaining)
    ensures AddLinks(m.links, step) == RunFor(round, n + 1)
  {
    NextRound(round, n);
  }

  lemma HaltedStays(round: Rounder, m: Machine, n: nat, k: nat)
    requires n <= k && Halted(Iterate(Loop(round), m, n))
    ensures Iterate(Loop(round), m, k) == Iterate(Loop(round), m, n)
  {
    FixedStays(Loop(round), m, n, k);
  }

  lemma EarlierUnhalted(round: Rounder, n: nat, k: nat)
    requires n <= k && !Halted(RunFor(round, k))
    ensures !Halted(RunFor(round, n))
  {
    if Halted(RunFor(round, n)) {
      HaltedStays(round, Start(), n, k);
    }
  }

  /** A run has one end. */
  lemma OneEnd(round: Rounder, m: Machine, n: nat, k: nat)
    requires Halted(Iterate(Loop(round), m, n)) && Halted(Iterate(Loop(round), m, k))
    ensures Iterate(Loop(round), m, n) == Iterate(Loop(round), m, k)
  {
    if n <= k {
      HaltedStays(round, m, n, k);
    } else {
      HaltedStays(round, m, k, n);
    }
  }

  /** Links already reported change nothing. */
  lemma {:induction false} LinksCarry(round: Rounder, links: seq<Cid>, m: Machine, n: nat)
    ensures Iterate(Loop(round), AddLinks(links, m), n) == AddLinks(links, Iterate(Loop(round), m, n))
  {
    if n == 0 {
    } else {
      LinksCarry(round, links, m, n - 1);
      CarryOnce(round, links, Iterate(Loop(round), m, n - 1));
    }
  }

  lemma CarryOnce(round: Rounder, links: seq<Cid>, m: Machine)
    ensures Round(round, AddLinks(links, m)) == AddLinks(links, Round(round, m))
  {
    if Halted(m) {
    } else {
      ConcatAssoc(links, m.links, round(m.pos, m.remaining).links);
    }
  }

  lemma {:induction false} LinksGrow(round: Rounder, n: nat, k: nat)
    requires n <= k
    ensures RunFor(round, n).links <= RunFor(round, k).links
  {
    if k == n {
    } else {
      LinksGrow(round, n, k - 1);
      NextRound(round, k - 1);
    }
  }

  // ---- runs without end ----

  ghost predicate NeverEnds(round: Rounder) {
    forall n: nat :: !Halted(RunFor(round, n))
  }

  /** The same place of the cursor and the same count. */
  predicate SamePlace(m: Machine, r: Machine) {
    m.At? && r.At? && m.pos == r.pos && m.remaining == r.remaining
  }

  function Plain(m: Machine): Machine {
    m.(links := [])
  }

  function PlainLoop(round: Rounder): Machine -> Machine {
    m => Plain(Round(round, m))
  }

  lemma {:induction false} PlainRuns(round: Rounder, n: nat)
    ensures Plain(RunFor(round, n)) == Iterate(PlainLoop(round), Start(), n)
  {
    if n == 0 {
    } else {
      PlainRuns(round, n - 1);
      NextRound(round, n - 1);
    }
  }

  /** Once a place comes back, only places that have been come. */
  lemma PlacesRecur(round: Rounder, i: nat, j: nat, n: nat) returns (k: nat)
    requires i < j && SamePlace(RunFor(round, i), RunFor(round, j)) && !Halted(RunFor(round, j))
    ensures k < j && SamePlace(RunFor(round, n), RunFor(round, k)) && !Halted(RunFor(round, n))
  {
    PlainRuns(round, i);
    PlainRuns(round, j);
    k := RepeatsForever(PlainLoop(round), Start(), i, j, n);
    PlainRuns(round, n);
    PlainRuns(round, k);
    EarlierUnhalted(round, k, j);
    SameIfPlain(RunFor(round, k), RunFor(round, n));
  }

  lemma SameIfPlain(m: Machine, r: Machine)
    requires Plain(m) == Plain(r) && !Halted(m)
    ensures SamePlace(m, r)
  {
  }

  /** A run that comes back to a place never ends. */
  lemma RepeatNeverEnds(round: Rounder, i: nat, j: nat)
    requires i < j && SamePlace(RunFor(round, i), RunFor(round, j)) && !Halted(RunFor(round, j))
    ensures NeverEnds(round)
  {
    forall n: nat
      ensures !Halted(RunFor(round, n))
    {
      var k := PlacesRecur(round, i, j, n);
    }
  }

  /** The count stays in its word, and no round goes on from past the end of `size` bytes. */
  ghost predicate Bounded(round: Rounder, size: nat) {
    forall pos: nat, remaining: nat | 0 < remaining < U64 && round(pos, remaining).At? ::
      pos <= size && round(pos, remaining).remaining < U64
  }

  lemma {:induction false} CountInWord(round: Rounder, size: nat, n: nat)
    requires Bounded(round, size)
    ensures RunFor(round, n).At? ==> RunFor(round, n).remaining < U64
  {
    if n == 0 {
    } else {
      CountInWord(round, size, n - 1);
      NextRound(round, n - 1);
    }
  }

  /** A run that is not over after the next round is at a byte of the block. */
  lemma StillInside(round: Rounder, size: nat, n: nat)
    requires Bounded(round, size) && !Halted(RunFor(round, n + 1))
    ensures var m := RunFor(round, n); m.At? && m.pos <= size && 0 < m.remaining < U64
  {
    EarlierUnhalted(round, n, n + 1);
    CountInWord(round, size, n);
    NextRound(round, n);
  }

  /** One number for each place. */
  function PlaceNumber(m: Machine): nat {
    if m.At? then m.pos * U64 + m.remaining else 0
  }

  /** The number of places in a block of `size` bytes. */
  function PlaceCount(size: nat): nat {
    (size + 1) * U64
  }

  lemma NumberBelow(m: Machine, size: nat)
    requires m.At? && m.pos <= size && m.remaining < U64
    ensures PlaceNumber(m) < PlaceCount(size)
  {
  }

  lemma NumberTells(m: Machine, r: Machine)
    requires m.At? && r.At? && m.remaining < U64 && r.remaining < U64 && PlaceNumber(m) == PlaceNumber(r)
    ensures SamePlace(m, r)
  {
  }

  /** A run still on after more rounds than there are places has been at one of them twice. */
  lemma PlacesRepeat(round: Rounder, size: nat) returns (i: nat, j: nat)
    requires Bounded(round, size) && !Halted(RunFor(round, PlaceCount(size) + 1))
    ensures i < j <= PlaceCount(size) && SamePlace(RunFor(round, i), RunFor(round, j)) && !Halted(RunFor(round, j))
  {
    var count := PlaceCount(size);
    var numbers := seq(count + 1, k requires 0 <= k => PlaceNumber(RunFor(round, k)));
    forall k: nat | k <= count
      ensures numbers[k] < count && var m := RunFor(round, k); m.At? && 0 < m.remaining < U64
    {
      EarlierUnhalted(round, k + 1, count + 1);
      StillInside(round, size, k);
      NumberBelow(RunFor(round, k), size);
    }
    i, j := Pigeonhole(numbers, count);
    NumberTells(RunFor(round, i), RunFor(round, j));
  }

  /** The state of a run at its end, or after as many rounds as tell that it has none. */
  function Final(round: Rounder, size: nat): Machine {
    RunFor(round, PlaceCount(size) + 1)
  }

  /** A run ends within one round more than there are places, or never. */
  lemma NeverEndsIff(round: Rounder, size: nat)
    requires Bounded(round, size)
    ensures NeverEnds(round) <==> !Halted(Final(round, size))
  {
    if !Halted(Final(round, size)) {
      var i, j := PlacesRepeat(round, size);
      RepeatNeverEnds(round, i, j);
    }
  }

  /** Whenever a run ends, it ends in its final state. */
  lemma EndsInFinal(round: Rounder, size: nat, n: nat)
    requires Bounded(round, size) && Halted(RunFor(round, n))
    ensures Final(round, size) == RunFor(round, n)
  {
    NeverEndsIff(round, size);
    OneEnd(round, Start(), n, PlaceCount(size) + 1);
  }

  /** Even of an endless run, the final state holds every link that is ever reported. */
  lemma {:induction false} AllLinksFound(round: Rounder, size: nat, n: nat, c: Cid)
    requires Bounded(round, size) && c in RunFor(round, n).links
    ensures c in Final(round, size).links
  {
    var limit := PlaceCount(size) + 1;
    if n <= limit {
      LinksGrow(round, n, limit);
    } else if Halted(Final(round, size)) {
      HaltedStays(round, Start(), limit, n);
    } else if c in RunFor(round, n - 1).links {
      AllLinksFound(round, size, n - 1, c);
    } else {
      var i, j := PlacesRepeat(round, size);
      var k := PlacesRecur(round, i, j, n - 1);
      LinksOfPlace(round, n - 1, k, c);
      LinksGrow(round, k + 1, limit);
    }
  }

  /** The links of a round are told by its place. */
  lemma LinksOfPlace(round: Rounder, n: nat, k: nat, c: Cid)
    requires !Halted(RunFor(round, n)) && SamePlace(RunFor(round, n), RunFor(round, k))
    requires c in RunFor(round, n + 1).links && c !in RunFor(round, n).links
    ensures c in RunFor(round, k + 1).links
  {
    NextRound(round, n);
    NextRound(round, k);
  }

  // ---- joining runs ----

  /** The loop gets from one state to another in `n` rounds. */
  ghost predicate Runs(round: Rounder, m: Machine, n: nat, r: Machine) {
    Iterate(Loop(round), m, n) == r
  }

  /** The loop is over after `n` rounds. */
  ghost predicate Ends(round: Rounder, m: Machine, n: nat, r: Machine) {
    Runs(round, m, n, r) && Halted(r)
  }

  lemma JoinRuns(round: Rounder, m: Machine, links: seq<Cid>, next: Machine, n: nat, k: nat, r: Machine)
    requires Runs(round, m, n, AddLinks(links, next)) && Runs(round, next, k, r)
    ensures Runs(round, m, n + k, AddLinks(links, r))
  {
    IterateConcat(Loop(round), m, n, k);
    LinksCarry(round, links, next, k);
  }

  /** From a later state the run ends with fewer rounds to go. */
  lemma RestEnds(round: Rounder, m: Machine, n: nat, r: Machine, k: nat, links: seq<Cid>, next: Machine)
    returns (left: nat, s: Machine)
    requires Ends(round, m, n, r) && 0 < n && Runs(round, m, k, AddLinks(links, next)) && 0 < k
    ensures left < n && Ends(round, next, left, s)
  {
    left := Resume(Loop(round), m, n, k);
    s := Iterate(Loop(round), next, left);
    LinksCarry(round, links, next, left);
  }
}
