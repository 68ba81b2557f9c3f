/**
 Building the message chains of one actor: selection of an includable run of messages, chunking,
 merging and linking, over a slot map shared with the chains of other actors.
 */
module MsgChain {

  import opened Common
  import opened ChainHull

  type NodeKey = nat

  /** `msgs` holds each message with the reward computed for it. */
  datatype MsgChainNode = MsgChainNode(msgs: seq<Paid>, gasReward: int, gasLimit: int, gasPerf: real, valid: bool,
                                       prev: Option<NodeKey>, next: Option<NodeKey>)

  function GasReward(m: Msg, baseFee: int): int {
    var maxPrem := m.gasFeeCap - baseFee;
    (if maxPrem < m.gasPremium then m.gasPremium else maxPrem) * m.gasLimit
  }

  // ---- selection ----

  ghost predicate Increasing(msgs: seq<Msg>) {
    forall i, j | 0 <= i < j < |msgs| :: msgs[i].sequence < msgs[j].sequence
  }

  /** The run at the front of `msgs` can be included after `gas` was used, with `balance` left. */
  ghost predicate Includable(run: seq<Msg>, sequence: nat, gas: int, balance: int, minGas: Msg -> int)
    decreases |run|
  {
    run != [] ==>
    && run[0].sequence == sequence
    && minGas(run[0]) <= run[0].gasLimit
    && gas + run[0].gasLimit <= BLOCK_GAS_LIMIT
    && run[0].requiredFunds <= balance
    && Includable(run[1..], sequence + 1, gas + run[0].gasLimit,
                  balance - run[0].requiredFunds - run[0].value, minGas)
  }

  /** `run` is the longest includable run of `msgs` past its `skip` stale messages. */
  ghost predicate Selected(msgs: seq<Msg>, skip: nat, run: seq<Msg>, sequence: nat, balance: int, minGas: Msg -> int) {
    && Stale(msgs, skip, sequence) && (skip < |msgs| ==> sequence <= msgs[skip].sequence)
    && Slice(msgs, skip, run) && Includable(run, sequence, 0, balance, minGas)
    && (skip + |run| < |msgs| ==> !Includable(run + [msgs[skip + |run|]], sequence, 0, balance, minGas))
  }

  ghost predicate Stale(msgs: seq<Msg>, skip: nat, sequence: nat) {
    skip <= |msgs| && forall k | 0 <= k < skip :: msgs[k].sequence < sequence
  }

  ghost predicate Slice(msgs: seq<Msg>, skip: nat, run: seq<Msg>) {
    skip + |run| <= |msgs| && run == msgs[skip..skip + |run|]
  }

  function MsgGas(ms: seq<Msg>): int {
    if ms == [] then 0 else MsgGas(ms[..|ms| - 1]) + ms[|ms| - 1].gasLimit
  }

  function Spent(ms: seq<Msg>): int {
    if ms == [] then 0 else Spent(ms[..|ms| - 1]) + ms[|ms| - 1].requiredFunds + ms[|ms| - 1].value
  }

  /** One more message fits at the end of an includable run. */
  predicate Fits(run: seq<Msg>, m: Msg, sequence: nat, gas: int, balance: int, minGas: Msg -> int) {
    && m.sequence == sequence + |run|
    && minGas(m) <= m.gasLimit
    && gas + MsgGas(run) + m.gasLimit <= BLOCK_GAS_LIMIT
    && m.requiredFunds <= balance - Spent(run)
  }

  lemma {:induction false} GasOfTail(ms: seq<Msg>)
    requires ms != []
    ensures MsgGas(ms) == ms[0].gasLimit + MsgGas(ms[1..])
    ensures Spent(ms) == ms[0].requiredFunds + ms[0].value + Spent(ms[1..])
  {
    if |ms| <= 1 {
    } else {
      GasOfTail(ms[..|ms| - 1]);
      assert ms[..|ms| - 1][1..] == ms[1..][..|ms| - 2];
    }
  }

  lemma {:induction false} IncludableSnoc(run: seq<Msg>, m: Msg, sequence: nat, gas: int, balance: int, minGas: Msg -> int)
    ensures Includable(run + [m], sequence, gas, balance, minGas)
       <==> Includable(run, sequence, gas, balance, minGas) && Fits(run, m, sequence, gas, balance, minGas)
    decreases |run|
  {
    var all := run + [m];
    if run == [] {
      assert all == [m] && all[1..] == [];
    } else {
      var f := run[0];
      assert all[0] == f && all[1..] == run[1..] + [m];
      GasOfTail(run);
      IncludableSnoc(run[1..], m, sequence + 1, gas + f.gasLimit, balance - f.requiredFunds - f.value, minGas);
    }
  }

  /** What each message pays, at a base fee. */
  function Rewards(baseFee: int): Msg -> int {
    m => GasReward(m, baseFee)
  }

  function Pay(ms: seq<Msg>, reward: Msg -> int): (ps: seq<Paid>)
    ensures |ps| == |ms|
    ensures forall k | 0 <= k < |ms| :: ps[k] == Paid(ms[k], reward(ms[k]))
  {
    if ms == [] then [] else
      Pay(ms[..|ms| - 1], reward) + [Paid(ms[|ms| - 1], reward(ms[|ms| - 1]))]
  }

  /** A message pays the larger of its premium and what its fee cap leaves above the base fee, for all its gas. */
  lemma PaysLargerPremium(run: seq<Msg>, baseFee: int, k: nat, premium: int)
    requires k < |run| && (premium == run[k].gasPremium || premium == run[k].gasFeeCap - baseFee)
    requires premium >= run[k].gasPremium && premium >= run[k].gasFeeCap - baseFee
    ensures Pay(run, Rewards(baseFee))[k] == Paid(run[k], premium * run[k].gasLimit)
  {
    assert Rewards(baseFee)(run[k]) == premium * run[k].gasLimit;
  }

  lemma PaySnoc(run: seq<Msg>, m: Msg, reward: Msg -> int)
    ensures Pay(run + [m], reward) == Pay(run, reward) + [Paid(m, reward(m))]
  {
    assert (run + [m])[..|run|] == run;
  }

  lemma SnocSums(run: seq<Msg>, m: Msg)
    ensures MsgGas(run + [m]) == MsgGas(run) + m.gasLimit
    ensures Spent(run + [m]) == Spent(run) + m.requiredFunds + m.value
  {
    assert (run + [m])[..|run|] == run;
  }

  lemma SliceSnoc(msgs: seq<Msg>, skip: nat, run: seq<Msg>)
    requires Slice(msgs, skip, run) && skip + |run| < |msgs|
    ensures Slice(msgs, skip, run + [msgs[skip + |run|]])
  {
  }

  /** The checks on the next message: no gap, enough gas, room in the block, funds. */
  predicate CanTake(m: Msg, curSeq: nat, gas: int, left: int, minGas: Msg -> int) {
    m.sequence == curSeq && minGas(m) <= m.gasLimit && gas + m.gasLimit <= BLOCK_GAS_LIMIT && m.requiredFunds <= left
  }

  /** The state of the selection loop: the run kept so far and what it used. */
  ghost predicate Selecting(msgs: seq<Msg>, skip: nat, run: seq<Msg>, sequence: nat, balance: int, minGas: Msg -> int,
                            curSeq: nat, gas: int, left: int) {
    && Stale(msgs, skip, sequence) && Slice(msgs, skip, run) && Includable(run, sequence, 0, balance, minGas)
    && curSeq == sequence + |run| && left == balance - Spent(run) && gas == MsgGas(run)
    && (run != [] ==> run[0].sequence == sequence && run[|run| - 1].sequence + 1 == curSeq)
  }

  /** Once a message was kept, none after it is stale. */
  lemma SelectSkips(msgs: seq<Msg>, skip: nat, run: seq<Msg>, sequence: nat, balance: int, minGas: Msg -> int,
                    curSeq: nat, gas: int, left: int)
    requires Increasing(msgs) && Selecting(msgs, skip, run, sequence, balance, minGas, curSeq, gas, left)
    requires skip + |run| < |msgs| && msgs[skip + |run|].sequence < curSeq
    ensures run == [] && Selecting(msgs, skip + 1, run, sequence, balance, minGas, curSeq, gas, left)
  {
  }

  lemma SelectTakes(msgs: seq<Msg>, skip: nat, run: seq<Msg>, sequence: nat, balance: int, minGas: Msg -> int,
                    curSeq: nat, gas: int, left: int)
    requires Selecting(msgs, skip, run, sequence, balance, minGas, curSeq, gas, left) && skip + |run| < |msgs|
    requires CanTake(msgs[skip + |run|], curSeq, gas, left, minGas)
    ensures var m := msgs[skip + |run|];
            Selecting(msgs, skip, run + [m], sequence, balance, minGas, curSeq + 1, gas + m.gasLimit,
                      left - m.requiredFunds - m.value)
  {
    var m := msgs[skip + |run|];
    IncludableSnoc(run, m, sequence, 0, balance, minGas);
    SnocSums(run, m);
    SliceSnoc(msgs, skip, run);
  }

  lemma SelectStops(msgs: seq<Msg>, skip: nat, run: seq<Msg>, sequence: nat, balance: int, minGas: Msg -> int,
                    curSeq: nat, gas: int, left: int)
    requires Selecting(msgs, skip, run, sequence, balance, minGas, curSeq, gas, left)
    requires skip + |run| < |msgs| ==>
               curSeq <= msgs[skip + |run|].sequence && !CanTake(msgs[skip + |run|], curSeq, gas, left, minGas)
    ensures Selected(msgs, skip, run, sequence, balance, minGas)
  {
    if skip + |run| < |msgs| {
      IncludableSnoc(run, msgs[skip + |run|], sequence, 0, balance, minGas);
    }
    assert run != [] ==> run[0] == msgs[skip];
  }

  method Select(msgs: seq<Msg>, sequence: nat, balance: int, reward: Msg -> int, minGas: Msg -> int)
    returns (skip: nat, run: seq<Msg>, paid: seq<Paid>)
    requires Increasing(msgs)
    ensures Selected(msgs, skip, run, sequence, balance, minGas)
    ensures paid == Pay(run, reward)
  {
    var curSeq, left, gas := sequence, balance, 0;
    paid, run, skip := [], [], 0;
    while skip + |run| < |msgs|
      invariant Selecting(msgs, skip, run, sequence, balance, minGas, curSeq, gas, left)
      invariant skip + |run| <= |msgs| && paid == Pay(run, reward)
      decreases |msgs| - skip - |run|
    {
      var m := msgs[skip + |run|];
      if m.sequence < curSeq {
        SelectSkips(msgs, skip, run, sequence, balance, minGas, curSeq, gas, left);
        skip := skip + 1;
        continue;
      }
      if !CanTake(m, curSeq, gas, left, minGas) {
        break;
      }
      SelectTakes(msgs, skip, run, sequence, balance, minGas, curSeq, gas, left);
      PaySnoc(run, m, reward);
      curSeq, gas, left := curSeq + 1, gas + m.gasLimit, left - m.requiredFunds - m.value;
      paid, run := paid + [Paid(m, reward(m))], run + [m];
    }
    SelectStops(msgs, skip, run, sequence, balance, minGas, curSeq, gas, left);
  }

  /** What the selection promises of the run it keeps. */
  lemma {:induction false} SelectedRunIsSound(run: seq<Msg>, sequence: nat, balance: int, minGas: Msg -> int)
    requires Includable(run, sequence, 0, balance, minGas)
    ensures run != [] ==> MsgGas(run) <= BLOCK_GAS_LIMIT
    ensures forall k | 0 <= k < |run| ::
              && run[k].sequence == sequence + k && minGas(run[k]) <= run[k].gasLimit
              && run[k].requiredFunds <= balance - Spent(run[..k])
  {
    if run == [] {
    } else {
      var n := |run| - 1;
      assert run == run[..n] + [run[n]];
      IncludableSnoc(run[..n], run[n], sequence, 0, balance, minGas);
      SelectedRunIsSound(run[..n], sequence, balance, minGas);
      assert forall k | 0 <= k < n :: run[..n][..k] == run[..k];
    }
  }

  lemma {:induction false} IncludablePrefix(run: seq<Msg>, k: nat, sequence: nat, balance: int, minGas: Msg -> int)
    requires k <= |run| && Includable(run, sequence, 0, balance, minGas)
    ensures Includable(run[..k], sequence, 0, balance, minGas)
  {
    if k == |run| {
      assert run[..k] == run;
    } else {
      var n := |run| - 1;
      assert run == run[..n] + [run[n]];
      IncludableSnoc(run[..n], run[n], sequence, 0, balance, minGas);
      IncludablePrefix(run[..n], k, sequence, balance, minGas);
      assert run[..n][..k] == run[..k];
    }
  }

  lemma SelectedNotLonger(msgs: seq<Msg>, skip: nat, a: seq<Msg>, b: seq<Msg>, sequence: nat, balance: int,
                          minGas: Msg -> int)
    requires Selected(msgs, skip, a, sequence, balance, minGas) && Selected(msgs, skip, b, sequence, balance, minGas)
    ensures |a| <= |b|
  {
    if |b| < |a| {
      assert a[..|b| + 1] == b + [msgs[skip + |b|]];
      IncludablePrefix(a, |b| + 1, sequence, balance, minGas);
    }
  }

  lemma StaleNotLonger(msgs: seq<Msg>, s: nat, t: nat, sequence: nat)
    requires Stale(msgs, s, sequence) && Stale(msgs, t, sequence)
    requires t < |msgs| ==> sequence <= msgs[t].sequence
    ensures s <= t
  {
  }

  /** The pending messages determine what is selected. */
  lemma SelectionIsUnique(msgs: seq<Msg>, s: nat, a: seq<Msg>, t: nat, b: seq<Msg>, sequence: nat, balance: int,
                          minGas: Msg -> int)
    requires Selected(msgs, s, a, sequence, balance, minGas) && Selected(msgs, t, b, sequence, balance, minGas)
    ensures s == t && a == b
  {
    StaleNotLonger(msgs, s, t, sequence);
    StaleNotLonger(msgs, t, s, sequence);
    SelectedNotLonger(msgs, s, a, b, sequence, balance, minGas);
    SelectedNotLonger(msgs, s, b, a, sequence, balance, minGas);
  }

  // ---- nodes in the slot map ----

  function View(nodes: map<NodeKey, MsgChainNode>, keys: seq<NodeKey>): (v: seq<MsgChainNode>)
    requires forall i | 0 <= i < |keys| :: keys[i] in nodes
    ensures |v| == |keys| && forall i | 0 <= i < |keys| :: v[i] == nodes[keys[i]]
  {
    seq(|keys|, i requires 0 <= i < |keys| => nodes[keys[i]])
  }

  /** The slot map holds the nodes of `base`, untouched, and those named by `keys`, nothing else. */
  ghost predicate Extends(base: map<NodeKey, MsgChainNode>, nodes: map<NodeKey, MsgChainNode>, keys: seq<NodeKey>) {
    && (forall i | 0 <= i < |keys| :: keys[i] in nodes && keys[i] !in base)
    && (forall i, j | 0 <= i < j < |keys| :: keys[i] != keys[j])
    && (forall k | k in base :: k in nodes && nodes[k] == base[k])
    && (forall k | k in nodes :: k in base || k in keys)
  }

  /** The totals of a node are those of its messages, and no prefix performs better. */
  ghost predicate Accounts(n: MsgChainNode) {
    && PrefixBelow(n.msgs)
    && n.gasReward == Reward(n.msgs) && n.gasLimit == Gas(n.msgs) && n.gasPerf == Perf(n.msgs)
  }

  ghost predicate Ready(n: MsgChainNode) {
    n.valid && n.prev.None? && n.next.None? && Accounts(n)
  }

  ghost predicate AllReady(v: seq<MsgChainNode>) {
    forall i | 0 <= i < |v| :: Ready(v[i])
  }

  /** The messages held by the valid nodes, in order. */
  function Flat(v: seq<MsgChainNode>): seq<Paid> {
    if v == [] then [] else Flat(v[..|v| - 1]) + (if v[|v| - 1].valid then v[|v| - 1].msgs else [])
  }

  function Lists(v: seq<MsgChainNode>): (r: seq<seq<Paid>>)
    ensures |r| == |v| && forall i | 0 <= i < |v| :: r[i] == v[i].msgs
  {
    seq(|v|, i requires 0 <= i < |v| => v[i].msgs)
  }

  lemma {:induction false} FlatConcat(a: seq<MsgChainNode>, b: seq<MsgChainNode>)
    ensures Flat(a + b) == Flat(a) + Flat(b)
  {
    if b == [] {
      assert a + b == a;
    } else {
      FlatConcat(a, b[..|b| - 1]);
      assert (a + b)[..|a + b| - 1] == a + b[..|b| - 1];
    }
  }

  lemma {:induction false} FlatIsConcat(v: seq<MsgChainNode>)
    requires forall i | 0 <= i < |v| :: v[i].valid
    ensures Flat(v) == Concat(Lists(v))
    decreases |v|
  {
    if v == [] {
    } else {
      FlatCons(v);
      FlatIsConcat(v[1..]);
      ListsTail(v);
    }
  }

  lemma FlatCons(v: seq<MsgChainNode>)
    requires v != [] && v[0].valid
    ensures Flat(v) == v[0].msgs + Flat(v[1..])
  {
    var x, t := v[0], v[1..];
    assert v == [x] + t;
    FlatConcat([x], t);
    FlatSnoc([], x);
    assert [] + [x] == [x];
  }

  lemma ListsTail(v: seq<MsgChainNode>)
    requires v != []
    ensures Lists(v)[0] == v[0].msgs && Lists(v)[1..] == Lists(v[1..])
  {
  }

  function Merged(x: MsgChainNode, y: MsgChainNode): MsgChainNode
    requires x.gasLimit + y.gasLimit > 0
  {
    x.(msgs := x.msgs + y.msgs, gasReward := x.gasReward + y.gasReward, gasLimit := x.gasLimit + y.gasLimit,
       gasPerf := GasPerf(x.gasReward + y.gasReward, x.gasLimit + y.gasLimit))
  }

  lemma MergedIsReady(x: MsgChainNode, y: MsgChainNode)
    requires Ready(x) && Ready(y) && y.gasPerf >= x.gasPerf
    ensures x.gasLimit + y.gasLimit > 0 && Ready(Merged(x, y))
  {
    GasPositive(x.msgs);
    GasPositive(y.msgs);
    SumsConcat(x.msgs, y.msgs);
    MergeKeepsPrefixBelow(x.msgs, y.msgs);
  }

  /** Absorbing a node into its predecessor moves no message. */
  lemma MergeKeepsFlat(v: seq<MsgChainNode>, i: nat, x: MsgChainNode, y: MsgChainNode)
    requires 0 < i < |v| && v[i - 1].valid && v[i].valid
    requires x.valid && !y.valid && x.msgs == v[i - 1].msgs + v[i].msgs
    ensures Flat(v[i - 1 := x][i := y]) == Flat(v)
  {
    var a, b := v[..i - 1], v[i + 1..];
    assert v == a + [v[i - 1], v[i]] + b && v[i - 1 := x][i := y] == a + [x, y] + b;
    FlatConcat(a + [v[i - 1], v[i]], b);
    FlatConcat(a, [v[i - 1], v[i]]);
    FlatConcat(a + [x, y], b);
    FlatConcat(a, [x, y]);
    FlatPair(x, y);
    FlatPair(v[i - 1], v[i]);
  }

  lemma FlatPair(x: MsgChainNode, y: MsgChainNode)
    ensures Flat([x, y]) == (if x.valid then x.msgs else []) + (if y.valid then y.msgs else [])
  {
    FlatSnoc([], x);
    FlatSnoc([x], y);
    assert [] + [x] == [x] && [x] + [y] == [x, y];
  }

  ghost predicate Decreasing(v: seq<MsgChainNode>, from: nat) {
    forall j | from <= j < |v| && 0 < j :: v[j].gasPerf < v[j - 1].gasPerf
  }

  /** Neighbouring chains point at each other, the ends at nothing. */
  ghost predicate Linked(v: seq<MsgChainNode>, keys: seq<NodeKey>)
    requires |v| == |keys|
  {
    forall i | 0 <= i < |v| ::
      && v[i].next == (if i + 1 < |v| then Some(keys[i + 1]) else None)
      && v[i].prev == (if 0 < i then Some(keys[i - 1]) else None)
  }

  /** The chains filed so far hold, with the one being built, the messages met so far. */
  ghost predicate Chunking(base: map<NodeKey, MsgChainNode>, nodes: map<NodeKey, MsgChainNode>, keys: seq<NodeKey>,
                           cur: MsgChainNode, done: seq<Paid>) {
    && Extends(base, nodes, keys) && AllReady(View(nodes, keys)) && Ready(cur)
    && Flat(View(nodes, keys)) + cur.msgs == done
  }

  ghost predicate Filed(base: map<NodeKey, MsgChainNode>, nodes: map<NodeKey, MsgChainNode>, keys: seq<NodeKey>,
                        done: seq<Paid>) {
    Extends(base, nodes, keys) && keys != [] && AllReady(View(nodes, keys)) && Flat(View(nodes, keys)) == done
  }

  lemma FirstChain(base: map<NodeKey, MsgChainNode>, m: Paid)
    requires m.msg.gasLimit > 0
    ensures Chunking(base, base, [], NewChain(m), [m])
  {
  }

  lemma GrowChain(base: map<NodeKey, MsgChainNode>, nodes: map<NodeKey, MsgChainNode>, keys: seq<NodeKey>,
                  cur: MsgChainNode, m: Paid, done: seq<Paid>)
    requires Chunking(base, nodes, keys, cur, done) && m.msg.gasLimit > 0 && Extend(cur, m).gasPerf >= cur.gasPerf
    ensures Chunking(base, nodes, keys, Extend(cur, m), done + [m])
  {
    ExtendIsReady(cur, m);
    ConcatAssoc(Flat(View(nodes, keys)), cur.msgs, [m]);
  }

  lemma FileChain(base: map<NodeKey, MsgChainNode>, nodes: map<NodeKey, MsgChainNode>, keys: seq<NodeKey>,
                  v: seq<MsgChainNode>, cur: MsgChainNode, done: seq<Paid>)
    requires Extends(base, nodes, keys) && View(nodes, keys) == v + [cur]
    requires AllReady(v) && Ready(cur) && Flat(v) + cur.msgs == done
    ensures Filed(base, nodes, keys, done)
  {
    FlatSnoc(v, cur);
    assert |v + [cur]| == |keys|;
  }

  /** The nodes kept so far and those still to be looked at. */
  ghost predicate Retaining(base: map<NodeKey, MsgChainNode>, nodes: map<NodeKey, MsgChainNode>, r: seq<NodeKey>,
                            keys: seq<NodeKey>, i: nat, v: seq<MsgChainNode>)
    requires i <= |keys| == |v|
  {
    && |r| <= i && Extends(base, nodes, r + keys[i..])
    && View(nodes, r + keys[i..]) == ValidOnly(v[..i]) + v[i..] && |r| == |ValidOnly(v[..i])|
  }

  lemma RetainingBegins(base: map<NodeKey, MsgChainNode>, nodes: map<NodeKey, MsgChainNode>, keys: seq<NodeKey>)
    requires Extends(base, nodes, keys)
    ensures Retaining(base, nodes, [], keys, 0, View(nodes, keys))
  {
    WholeSlice([], keys);
    WholeSlice([], View(nodes, keys));
  }

  lemma RetainingEnds(base: map<NodeKey, MsgChainNode>, nodes: map<NodeKey, MsgChainNode>, r: seq<NodeKey>,
                      keys: seq<NodeKey>, v: seq<MsgChainNode>)
    requires |keys| == |v| && Retaining(base, nodes, r, keys, |keys|, v)
    ensures Extends(base, nodes, r) && View(nodes, r) == ValidOnly(v)
  {
    WholeSlice(r, keys);
    WholeSlice(ValidOnly(v), v);
  }

  class Chains {
    var nodes: map<NodeKey, MsgChainNode>
    var keyVec: seq<NodeKey>
    /** Slot map keys are never handed out twice. */
    var nextKey: NodeKey

    ghost predicate Valid()
      reads this
    {
      && Fresh()
      && (forall k | k in keyVec :: k in nodes)
    }

    ghost predicate Fresh()
      reads this
    {
      forall k | k in nodes :: k < nextKey
    }

    constructor ()
      ensures Valid() && nodes == map[] && keyVec == []
    {
      nodes, keyVec, nextKey := map[], [], 0;
    }

    method PushWith(n: MsgChainNode, keys: seq<NodeKey>, ghost base: map<NodeKey, MsgChainNode>)
      returns (r: seq<NodeKey>)
      requires Fresh() && Extends(base, nodes, keys)
      modifies this`nodes, this`nextKey
      ensures Fresh() && Extends(base, nodes, r)
      ensures r == keys + [old(nextKey)] && nextKey == old(nextKey) + 1 && old(nextKey) !in old(nodes)
      ensures nodes == old(nodes)[old(nextKey) := n]
      ensures View(nodes, r) == old(View(nodes, keys)) + [n]
    {
      ghost var v := View(nodes, keys);
      var key := nextKey;
      nodes, nextKey := nodes[key := n], key + 1;
      r := keys + [key];
      assert View(nodes, r) == v + [n];
    }

    /** Files a finished chain. */
    method Close(cur: MsgChainNode, keys: seq<NodeKey>, ghost base: map<NodeKey, MsgChainNode>, ghost done: seq<Paid>)
      returns (r: seq<NodeKey>)
      requires Fresh() && Chunking(base, nodes, keys, cur, done)
      modifies this`nodes, this`nextKey
      ensures Fresh() && Filed(base, nodes, r, done)
    {
      ghost var v := View(nodes, keys);
      r := PushWith(cur, keys, base);
      FileChain(base, nodes, r, v, cur, done);
    }

    /** Splits the messages where one would lower the performance of the chain it follows. */
    method Chunk(msgs: seq<Paid>, ghost base: map<NodeKey, MsgChainNode>) returns (keys: seq<NodeKey>)
      requires Fresh() && base == nodes && msgs != [] && PositiveGas(msgs)
      modifies this`nodes, this`nextKey
      ensures Fresh() && Filed(base, nodes, keys, msgs)
    {
      var cur := NewChain(msgs[0]);
      keys := [];
      FirstChain(base, msgs[0]);
      assert msgs[..1] == [msgs[0]] && msgs[..|msgs|] == msgs;
      for i := 1 to |msgs|
        invariant Fresh() && Chunking(base, nodes, keys, cur, msgs[..i])
      {
        TakeSnoc(msgs, i);
        var longer := Extend(cur, msgs[i]);
        if longer.gasPerf < cur.gasPerf {
          keys := Close(cur, keys, base, msgs[..i]);
          cur := NewChain(msgs[i]);
        } else {
          GrowChain(base, nodes, keys, cur, msgs[i], msgs[..i]);
          cur := longer;
        }
      }
      keys := Close(cur, keys, base, msgs);
    }

    /** Overwrites the node under the key at position `i`. */
    method SetAt(keys: seq<NodeKey>, i: nat, n: MsgChainNode, ghost base: map<NodeKey, MsgChainNode>)
      requires Fresh() && Extends(base, nodes, keys) && i < |keys|
      modifies this`nodes
      ensures Fresh() && Extends(base, nodes, keys) && View(nodes, keys) == old(View(nodes, keys))[i := n]
    {
      Update(base, nodes, keys, i, n);
      nodes := nodes[keys[i] := n];
    }

    /** Absorbs chain `i` into its predecessor. */
    method MergeInto(keys: seq<NodeKey>, i: nat, ghost base: map<NodeKey, MsgChainNode>)
      requires Fresh() && Extends(base, nodes, keys) && 0 < i < |keys| && PassInv(View(nodes, keys), i + 1)
      requires nodes[keys[i]].gasPerf >= nodes[keys[i - 1]].gasPerf
      modifies this`nodes
      ensures Fresh() && Extends(base, nodes, keys) && PassInv(View(nodes, keys), i)
      ensures Flat(View(nodes, keys)) == old(Flat(View(nodes, keys)))
      ensures SomeInvalid(View(nodes, keys))
    {
      ghost var v := View(nodes, keys);
      assert v[i] == nodes[keys[i]] && v[i - 1] == nodes[keys[i - 1]];
      var x, y := nodes[keys[i - 1]], nodes[keys[i]];
      MergedIsReady(x, y);
      MergeStep(v, i, Merged(x, y), y.(valid := false));
      Update(base, nodes, keys, i - 1, Merged(x, y));
      Update(base, nodes[keys[i - 1] := Merged(x, y)], keys, i, y.(valid := false));
      nodes := nodes[keys[i - 1] := Merged(x, y)][keys[i] := y.(valid := false)];
    }

    /** One pass from the back, merging every chain that does not fall below its predecessor. */
    method MergePass(keys: seq<NodeKey>, ghost base: map<NodeKey, MsgChainNode>) returns (merged: nat)
      requires Fresh() && Extends(base, nodes, keys) && PassInv(View(nodes, keys), |keys|)
      modifies this`nodes
      ensures Fresh() && Extends(base, nodes, keys) && PassInv(View(nodes, keys), 0)
      ensures Flat(View(nodes, keys)) == old(Flat(View(nodes, keys)))
      ensures merged == 0 ==> nodes == old(nodes) && Decreasing(View(nodes, keys), 1)
      ensures merged > 0 ==> SomeInvalid(View(nodes, keys))
    {
      merged := 0;
      var i := |keys|;
      ghost var all, start := Flat(View(nodes, keys)), nodes;
      while i > 1
        invariant 0 <= i <= |keys| && Fresh() && Extends(base, nodes, keys)
        invariant Passing(View(nodes, keys), i, all, merged)
        invariant merged == 0 ==> nodes == start
      {
        i := i - 1;
        if nodes[keys[i]].gasPerf >= nodes[keys[i - 1]].gasPerf {
          MergeInto(keys, i, base);
          merged := merged + 1;
        } else {
          PassOver(View(nodes, keys), i, all, merged);
        }
      }
    }

    ghost predicate Sifting(r: seq<NodeKey>, keys: seq<NodeKey>, i: nat, base: map<NodeKey, MsgChainNode>,
                            v: seq<MsgChainNode>)
      requires i <= |keys| == |v|
      reads this
    {
      Fresh() && Retaining(base, nodes, r, keys, i, v)
    }

    /** Keeps the next key if its node is valid, else drops it with its node. */
    method Retain(r: seq<NodeKey>, keys: seq<NodeKey>, i: nat, ghost base: map<NodeKey, MsgChainNode>,
                  ghost v: seq<MsgChainNode>)
      returns (s: seq<NodeKey>)
      requires i < |keys| == |v| && Sifting(r, keys, i, base, v)
      modifies this`nodes
      ensures Sifting(s, keys, i + 1, base, v)
    {
      RetainStep(base, nodes, r, keys, i, v);
      if nodes[keys[i]].valid {
        s := r + [keys[i]];
      } else {
        nodes := nodes - {keys[i]};
        s := r;
      }
    }

    /** Drops the nodes a pass has absorbed. */
    method DropInvalid(keys: seq<NodeKey>, ghost base: map<NodeKey, MsgChainNode>) returns (r: seq<NodeKey>)
      requires Fresh() && Extends(base, nodes, keys)
      modifies this`nodes
      ensures Fresh() && Extends(base, nodes, r) && View(nodes, r) == ValidOnly(old(View(nodes, keys)))
    {
      r := [];
      ghost var v := View(nodes, keys);
      RetainingBegins(base, nodes, keys);
      for i := 0 to |keys|
        invariant Sifting(r, keys, i, base, v)
      {
        r := Retain(r, keys, i, base, v);
      }
      RetainingEnds(base, nodes, r, keys, v);
    }

    /** Merges until the performance strictly decreases along the chains. */
    method MergeAll(start: seq<NodeKey>, ghost base: map<NodeKey, MsgChainNode>) returns (keys: seq<NodeKey>)
      requires Fresh() && Extends(base, nodes, start) && AllReady(View(nodes, start))
      modifies this`nodes
      ensures Fresh() && Extends(base, nodes, keys) && AllReady(View(nodes, keys))
      ensures Flat(View(nodes, keys)) == old(Flat(View(nodes, start))) && Decreasing(View(nodes, keys), 1)
    {
      keys := start;
      ghost var all := Flat(View(nodes, start));
      while true
        invariant Fresh() && Extends(base, nodes, keys) && AllReady(View(nodes, keys))
        invariant Flat(View(nodes, keys)) == all
        decreases |keys|
      {
        var merged := MergePass(keys, base);
        if merged == 0 {
          break;
        }
        ghost var v := View(nodes, keys);
        SurvivorsReady(v);
        SurvivorsHoldAll(v);
        FewerSurvive(v);
        keys := DropInvalid(keys, base);
      }
    }

    /** Points every chain at its successor. */
    method LinkNext(keys: seq<NodeKey>, ghost base: map<NodeKey, MsgChainNode>)
      requires Fresh() && Extends(base, nodes, keys) && keys != [] && AllReady(View(nodes, keys))
      modifies this`nodes
      ensures Fresh() && Extends(base, nodes, keys)
      ensures View(nodes, keys) == WithNext(old(View(nodes, keys)), keys, |keys| - 1)
    {
      ghost var v := View(nodes, keys);
      for i := 0 to |keys| - 1
        invariant Fresh() && Extends(base, nodes, keys)
        invariant View(nodes, keys) == WithNext(v, keys, i)
      {
        var n := nodes[keys[i]].(next := Some(keys[i + 1]));
        NextStep(v, keys, i);
        SetAt(keys, i, n, base);
      }
    }

    /** Points every chain at its predecessor, from the back. */
    method LinkPrev(keys: seq<NodeKey>, ghost base: map<NodeKey, MsgChainNode>)
      requires Fresh() && Extends(base, nodes, keys) && keys != []
      modifies this`nodes
      ensures Fresh() && Extends(base, nodes, keys)
      ensures View(nodes, keys) == WithPrev(old(View(nodes, keys)), keys, 0)
    {
      ghost var v := View(nodes, keys);
      var i := |keys| - 1;
      while i > 0
        invariant 0 <= i < |keys| && Fresh() && Extends(base, nodes, keys)
        invariant View(nodes, keys) == WithPrev(v, keys, i)
      {
        i := i - 1;
        PrevStep(v, keys, i);
        assert nodes[keys[i + 1]] == WithPrev(v, keys, i + 1)[i + 1];
        var n := nodes[keys[i + 1]].(prev := Some(keys[i]));
        SetAt(keys, i + 1, n, base);
        assert View(nodes, keys) == WithPrev(v, keys, i);
      }
    }

    /** Chunks, merges and links the chains of a nonempty run. */
    method Build(paid: seq<Paid>, ghost base: map<NodeKey, MsgChainNode>) returns (keys: seq<NodeKey>)
      requires Fresh() && base == nodes && paid != [] && PositiveGas(paid)
      modifies this`nodes, this`nextKey
      ensures Fresh() && Extends(base, nodes, keys) && Chained(View(nodes, keys), keys, paid)
    {
      keys := Chunk(paid, base);
      keys := MergeAll(keys, base);
      ghost var v := View(nodes, keys);
      ReadyIsHull(v);
      assert Flat([]) == [];
      LinkNext(keys, base);
      LinkPrev(keys, base);
      LinksKeep(v, keys);
    }

    /** Invalidates a chain and all that follow it; `ks` are their keys. */
    method Invalidate(key: Option<NodeKey>, ghost ks: seq<NodeKey>)
      requires NextPath(nodes, key, ks)
      modifies this`nodes
      ensures nodes.Keys == old(nodes.Keys)
      ensures forall k | k in nodes && k !in ks :: nodes[k] == old(nodes)[k]
      ensures forall k | k in nodes && k in ks ::
                && !nodes[k].valid && nodes[k].msgs == [] && nodes[k].next.None?
                && nodes[k].prev == old(nodes)[k].prev && nodes[k].gasReward == old(nodes)[k].gasReward
                && nodes[k].gasLimit == old(nodes)[k].gasLimit && nodes[k].gasPerf == old(nodes)[k].gasPerf
    {
      var nextKeys, cur := [], key;
      ghost var i := 0;
      while cur.Some?
        invariant nodes == old(nodes) && i <= |ks| && nextKeys == ks[..i] && NextPath(nodes, cur, ks[i..])
        decreases |ks| - i
      {
        assert ks[i..][0] == ks[i] && ks[i..][1..] == ks[i + 1..];
        TakeSnoc(ks, i);
        nextKeys := nextKeys + [cur.value];
        cur := nodes[cur.value].next;
        i := i + 1;
      }
      assert nextKeys == ks;
      PathStored(nodes, key, ks);
      var j := |nextKeys|;
      while j > 0
        invariant 0 <= j <= |ks| && nodes.Keys == old(nodes.Keys)
        invariant forall k | k in nodes && k !in ks[j..] :: nodes[k] == old(nodes)[k]
        invariant forall k | k in nodes && k in ks[j..] ::
                    nodes[k] == old(nodes)[k].(valid := false, msgs := [], next := None)
      {
        j := j - 1;
        assert ks[j..] == [ks[j]] + ks[j + 1..];
        nodes := nodes[nextKeys[j] := nodes[nextKeys[j]].(valid := false, msgs := [], next := None)];
      }
      assert ks[0..] == ks;
    }

    /**
     Adds the chains of one actor: `msgs` are its pending messages by sequence number,
     `minGas` is the price list's minimum for a message.
     */
    method CreateMessageChains(msgs: seq<Msg>, sequence: nat, balance: int, baseFee: int, minGas: Msg -> int)
      returns (skip: nat, run: seq<Msg>, ghost keys: seq<NodeKey>)
      requires Valid() && Increasing(msgs) && forall m :: minGas(m) > 0
      modifies this
      ensures Valid() && Selected(msgs, skip, run, sequence, balance, minGas)
      ensures keyVec == old(keyVec) + keys && Extends(old(nodes), nodes, keys)
      ensures Chained(View(nodes, keys), keys, Pay(run, Rewards(baseFee)))
    {
      var paid;
      skip, run, paid := Select(msgs, sequence, balance, Rewards(baseFee), minGas);
      keys := [];
      if run == [] {
        NothingChained();
        return;
      }
      SelectedRunIsSound(run, sequence, balance, minGas);
      var nodeVec := Build(paid, nodes);
      keyVec, keys := keyVec + nodeVec, nodeVec;
    }
  }

  /** Following `next` from `key` visits `ks` and ends. */
  ghost predicate NextPath(nodes: map<NodeKey, MsgChainNode>, key: Option<NodeKey>, ks: seq<NodeKey>)
    decreases |ks|
  {
    if ks == [] then key.None?
    else key == Some(ks[0]) && ks[0] in nodes && NextPath(nodes, nodes[ks[0]].next, ks[1..])
  }

  lemma {:induction false} PathStored(nodes: map<NodeKey, MsgChainNode>, key: Option<NodeKey>, ks: seq<NodeKey>)
    requires NextPath(nodes, key, ks)
    ensures forall i | 0 <= i < |ks| :: ks[i] in nodes
    decreases |ks|
  {
    if ks == [] {
    } else {
      PathStored(nodes, nodes[ks[0]].next, ks[1..]);
    }
  }

  /** In the chains of one actor the path from any chain is the rest of the list. */
  lemma {:induction false} LinkedIsPath(nodes: map<NodeKey, MsgChainNode>, keys: seq<NodeKey>, i: nat)
    requires i < |keys| && (forall j | 0 <= j < |keys| :: keys[j] in nodes) && Linked(View(nodes, keys), keys)
    ensures NextPath(nodes, Some(keys[i]), keys[i..])
    decreases |keys| - i
  {
    assert keys[i..][0] == keys[i] && keys[i..][1..] == keys[i + 1..];
    assert View(nodes, keys)[i] == nodes[keys[i]];
    if i + 1 >= |keys| {
    } else {
      LinkedIsPath(nodes, keys, i + 1);
    }
  }

  lemma NothingChained()
    ensures Chained([], [], [])
  {
    assert Lists([]) == [];
  }

  /** The new chains: linked both ways, holding exactly the paid messages, and their hull. */
  ghost predicate Chained(v: seq<MsgChainNode>, keys: seq<NodeKey>, paid: seq<Paid>)
    requires |v| == |keys|
  {
    && Hull(Lists(v)) && Concat(Lists(v)) == paid
    && Linked(v, keys)
    && forall i | 0 <= i < |v| :: v[i].valid && Accounts(v[i])
  }

  function WithNext(v: seq<MsgChainNode>, keys: seq<NodeKey>, n: nat): (w: seq<MsgChainNode>)
    requires |v| == |keys| && n < |keys|
    ensures |w| == |v|
  {
    seq(|v|, i requires 0 <= i < |v| => if i < n then v[i].(next := Some(keys[i + 1])) else v[i])
  }

  function WithPrev(v: seq<MsgChainNode>, keys: seq<NodeKey>, n: nat): (w: seq<MsgChainNode>)
    requires |v| == |keys|
    ensures |w| == |v|
  {
    seq(|v|, i requires 0 <= i < |v| => if i > n then v[i].(prev := Some(keys[i - 1])) else v[i])
  }

  lemma NextStep(v: seq<MsgChainNode>, keys: seq<NodeKey>, i: nat)
    requires |v| == |keys| && i + 1 < |keys|
    ensures var w := WithNext(v, keys, i); w[i := w[i].(next := Some(keys[i + 1]))] == WithNext(v, keys, i + 1)
  {
  }

  lemma PrevStep(v: seq<MsgChainNode>, keys: seq<NodeKey>, i: nat)
    requires |v| == |keys| && i + 1 < |keys|
    ensures var w := WithPrev(v, keys, i + 1); w[i + 1 := w[i + 1].(prev := Some(keys[i]))] == WithPrev(v, keys, i)
  {
  }

  lemma ReadyIsHull(v: seq<MsgChainNode>)
    requires AllReady(v) && Decreasing(v, 1)
    ensures Hull(Lists(v)) && Concat(Lists(v)) == Flat(v)
  {
    FlatIsConcat(v);
    forall k | 0 <= k < |Lists(v)|
      ensures PrefixBelow(Lists(v)[k])
    {
      assert Ready(v[k]);
    }
    forall k | 0 < k < |Lists(v)|
      ensures Perf(Lists(v)[k]) < Perf(Lists(v)[k - 1])
    {
      assert v[k].gasPerf < v[k - 1].gasPerf && Ready(v[k]) && Ready(v[k - 1]);
    }
  }

  lemma LinksKeep(v: seq<MsgChainNode>, keys: seq<NodeKey>)
    requires AllReady(v) && |v| == |keys| && keys != [] && Hull(Lists(v))
    ensures Chained(WithPrev(WithNext(v, keys, |keys| - 1), keys, 0), keys, Concat(Lists(v)))
  {
    var w := WithPrev(WithNext(v, keys, |keys| - 1), keys, 0);
    assert Lists(w) == Lists(v);
    forall i | 0 <= i < |w|
      ensures w[i].valid && Accounts(w[i])
    {
      assert Ready(v[i]);
    }
  }

  /** During a pass: the nodes before `i` are still to be visited, the later ones hold or are gone. */
  ghost predicate PassInv(v: seq<MsgChainNode>, i: nat) {
    forall j | 0 <= j < |v| && (j < i || v[j].valid) :: Ready(v[j])
  }

  /** A pass has come down to `i` with `merged` merges, moving no message. */
  ghost predicate Passing(v: seq<MsgChainNode>, i: nat, all: seq<Paid>, merged: nat) {
    PassInv(v, i) && Flat(v) == all && if merged == 0 then Decreasing(v, i) else SomeInvalid(v)
  }

  lemma PassOver(v: seq<MsgChainNode>, i: nat, all: seq<Paid>, merged: nat)
    requires 0 < i < |v| && Passing(v, i + 1, all, merged) && v[i].gasPerf < v[i - 1].gasPerf
    ensures Passing(v, i, all, merged)
  {
  }

  ghost predicate SomeInvalid(v: seq<MsgChainNode>) {
    exists i | 0 <= i < |v| :: !v[i].valid
  }

  /** The valid nodes, in order. */
  function ValidOnly(v: seq<MsgChainNode>): (r: seq<MsgChainNode>)
    ensures |r| <= |v|
  {
    if v == [] then [] else
      ValidOnly(v[..|v| - 1]) + (if v[|v| - 1].valid then [v[|v| - 1]] else [])
  }

  lemma ValidOnlySnoc(v: seq<MsgChainNode>, n: MsgChainNode)
    ensures ValidOnly(v + [n]) == ValidOnly(v) + (if n.valid then [n] else [])
  {
    assert (v + [n])[..|v|] == v;
  }

  lemma {:induction false} SurvivorsReady(v: seq<MsgChainNode>)
    requires PassInv(v, 0)
    ensures AllReady(ValidOnly(v))
  {
    if v == [] {
    } else {
      SurvivorsReady(v[..|v| - 1]);
    }
  }

  lemma {:induction false} SurvivorsHoldAll(v: seq<MsgChainNode>)
    ensures Flat(ValidOnly(v)) == Flat(v)
  {
    if v == [] {
    } else {
      SurvivorsHoldAll(v[..|v| - 1]);
      var u, n := ValidOnly(v[..|v| - 1]), v[|v| - 1];
      FlatSnoc(u, n);
      assert ValidOnly(v) == if n.valid then u + [n] else u;
    }
  }

  lemma {:induction false} FewerSurvive(v: seq<MsgChainNode>)
    requires SomeInvalid(v)
    ensures |ValidOnly(v)| < |v|
  {
    var i :| 0 <= i < |v| && !v[i].valid;
    if i >= |v| - 1 {
    } else {
      assert !v[..|v| - 1][i].valid;
      FewerSurvive(v[..|v| - 1]);
    }
  }

  lemma FlatSnoc(v: seq<MsgChainNode>, n: MsgChainNode)
    ensures Flat(v + [n]) == Flat(v) + (if n.valid then n.msgs else [])
  {
    assert (v + [n])[..|v|] == v;
  }

  lemma MergeStep(v: seq<MsgChainNode>, i: nat, x: MsgChainNode, y: MsgChainNode)
    requires 0 < i < |v| && PassInv(v, i + 1)
    requires Ready(x) && !y.valid && x.msgs == v[i - 1].msgs + v[i].msgs
    ensures var w := v[i - 1 := x][i := y];
            PassInv(w, i) && Flat(w) == Flat(v) && SomeInvalid(w)
  {
    var w := v[i - 1 := x][i := y];
    assert Ready(v[i]) && Ready(v[i - 1]);
    MergeKeepsFlat(v, i, x, y);
    assert !w[i].valid;
  }

  lemma Update(base: map<NodeKey, MsgChainNode>, nodes: map<NodeKey, MsgChainNode>, keys: seq<NodeKey>, i: nat,
               n: MsgChainNode)
    requires i < |keys| && Extends(base, nodes, keys)
    ensures Extends(base, nodes[keys[i] := n], keys)
    ensures View(nodes[keys[i] := n], keys) == View(nodes, keys)[i := n]
  {
  }

  /** Keeping the next key, or dropping it with its node, keeps the shape of the slot map. */
  lemma Advance(base: map<NodeKey, MsgChainNode>, nodes: map<NodeKey, MsgChainNode>, r: seq<NodeKey>,
                keys: seq<NodeKey>, i: nat, kept: seq<MsgChainNode>, v: seq<MsgChainNode>)
    requires i < |keys| == |v| && |kept| == |r| && Extends(base, nodes, r + keys[i..])
    requires View(nodes, r + keys[i..]) == kept + v[i..]
    ensures keys[i] in nodes && nodes[keys[i]] == v[i]
    ensures (r + [keys[i]]) + keys[i + 1..] == r + keys[i..] && (kept + [v[i]]) + v[i + 1..] == kept + v[i..]
    ensures Extends(base, nodes - {keys[i]}, r + keys[i + 1..])
    ensures View(nodes - {keys[i]}, r + keys[i + 1..]) == kept + v[i + 1..]
  {
    SplitAt(r, keys, i);
    SplitAt(kept, v, i);
    RemoveKey(base, nodes, r, keys[i], keys[i + 1..]);
  }

  lemma RetainStep(base: map<NodeKey, MsgChainNode>, nodes: map<NodeKey, MsgChainNode>, r: seq<NodeKey>,
                   keys: seq<NodeKey>, i: nat, v: seq<MsgChainNode>)
    requires i < |keys| == |v| && Retaining(base, nodes, r, keys, i, v)
    ensures keys[i] in nodes && nodes[keys[i]] == v[i]
    ensures v[i].valid ==> Retaining(base, nodes, r + [keys[i]], keys, i + 1, v)
    ensures !v[i].valid ==> Retaining(base, nodes - {keys[i]}, r, keys, i + 1, v)
  {
    TakeSnoc(v, i);
    ValidOnlySnoc(v[..i], v[i]);
    Advance(base, nodes, r, keys, i, ValidOnly(v[..i]), v);
  }

  lemma RemoveKey(base: map<NodeKey, MsgChainNode>, nodes: map<NodeKey, MsgChainNode>, a: seq<NodeKey>, k: NodeKey,
                  b: seq<NodeKey>)
    requires Extends(base, nodes, a + [k] + b)
    ensures k in nodes && Extends(base, nodes - {k}, a + b)
    ensures var v := View(nodes, a + [k] + b);
            v[|a|] == nodes[k] && View(nodes - {k}, a + b) == v[..|a|] + v[|a| + 1..]
  {
    var all, rest, left := a + [k] + b, a + b, nodes - {k};
    SkipOne(a, k, b);
    OthersStay(base, nodes, all, rest, k, |a|);
    forall x | x in left
      ensures x in base || x in rest
    {
      assert x in nodes && x != k;
    }
    ViewWithout(nodes, left, all, rest, |a|);
  }

  lemma OthersStay(base: map<NodeKey, MsgChainNode>, nodes: map<NodeKey, MsgChainNode>, all: seq<NodeKey>,
                   rest: seq<NodeKey>, k: NodeKey, n: nat)
    requires Extends(base, nodes, all) && |all| == |rest| + 1 && n < |all| && all[n] == k
    requires forall j | 0 <= j < |rest| :: rest[j] == all[Skip(n, j)]
    ensures forall i, j | 0 <= i < j < |rest| :: rest[i] != rest[j]
    ensures forall j | 0 <= j < |rest| ::
              rest[j] in nodes - {k} && rest[j] !in base && (nodes - {k})[rest[j]] == nodes[all[Skip(n, j)]]
  {
    forall i, j | 0 <= i < j < |rest|
      ensures rest[i] != rest[j]
    {
      assert all[Skip(n, i)] != all[Skip(n, j)];
    }
    forall j | 0 <= j < |rest|
      ensures rest[j] != k && rest[j] in nodes && rest[j] !in base
    {
      var i := Skip(n, j);
      assert all[i] in nodes && all[i] !in base && all[i] != all[n];
    }
  }

  lemma SkipOne(a: seq<NodeKey>, k: NodeKey, b: seq<NodeKey>)
    ensures (a + [k] + b)[|a|] == k && |a + [k] + b| == |a + b| + 1
    ensures forall j | 0 <= j < |a + b| :: (a + b)[j] == (a + [k] + b)[Skip(|a|, j)]
  {
  }

  lemma ViewWithout(nodes: map<NodeKey, MsgChainNode>, left: map<NodeKey, MsgChainNode>, all: seq<NodeKey>,
                    rest: seq<NodeKey>, n: nat)
    requires n < |all| && |rest| + 1 == |all|
    requires forall j | 0 <= j < |all| :: all[j] in nodes
    requires forall j | 0 <= j < |rest| :: rest[j] in left && left[rest[j]] == nodes[all[Skip(n, j)]]
    ensures View(left, rest) == View(nodes, all)[..n] + View(nodes, all)[n + 1..]
  {
  }

  function Skip(n: nat, j: nat): nat { if j < n then j else j + 1 }

  function Extend(cur: MsgChainNode, m: Paid): MsgChainNode
    requires Ready(cur) && m.msg.gasLimit > 0
  {
    AppendSums(cur.msgs, m);
    var gasReward, gasLimit := cur.gasReward + m.reward, cur.gasLimit + m.msg.gasLimit;
    cur.(msgs := cur.msgs + [m], gasReward := gasReward, gasLimit := gasLimit, gasPerf := GasPerf(gasReward, gasLimit))
  }

  lemma ExtendIsReady(cur: MsgChainNode, m: Paid)
    requires Ready(cur) && m.msg.gasLimit > 0 && Extend(cur, m).gasPerf >= cur.gasPerf
    ensures Ready(Extend(cur, m))
  {
    AppendSums(cur.msgs, m);
    AppendKeepsPrefixBelow(cur.msgs, m);
  }

  function NewChain(m: Paid): (n: MsgChainNode)
    requires m.msg.gasLimit > 0
    ensures Ready(n) && n.msgs == [m]
  {
    SinglePrefixBelow(m);
    SingleSums(m);
    MsgChainNode([m], m.reward, m.msg.gasLimit, GasPerf(m.reward, m.msg.gasLimit), true, None, None)
  }

  lemma SingleSums(m: Paid)
    ensures Gas([m]) == m.msg.gasLimit && Reward([m]) == m.reward
  {
    assert [m][..0] == [];
  }

  lemma AppendSums(c: seq<Paid>, m: Paid)
    requires PositiveGas(c) && m.msg.gasLimit > 0
    ensures PositiveGas(c + [m]) && Gas(c) + m.msg.gasLimit > 0
    ensures Gas(c + [m]) == Gas(c) + m.msg.gasLimit && Reward(c + [m]) == Reward(c) + m.reward
    ensures Perf(c + [m]) == GasPerf(Reward(c) + m.reward, Gas(c) + m.msg.gasLimit)
  {
    SumsConcat(c, [m]);
    SingleSums(m);
    GasPositive(c);
  }
}
