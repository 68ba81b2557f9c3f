/** Calling a function on one entry after another, until it wants no more or fails. */
module Callbacks {

  import opened Common

  /** What a callback answers: `Ok(true)`, `Ok(false)` or an error. */
  datatype Reply = GoOn | Leave | Fail

  /** The calls made, and the reply to the last of them if it was not to go on. */
  datatype Called<T> = Called(calls: seq<T>, reply: Reply)

  ghost function CallEach<T>(l: seq<T>, f: T -> Reply): Called<T> {
    if l == [] then Called([], GoOn)
    else if !f(l[0]).GoOn? then Called([l[0]], f(l[0]))
    else var rest := CallEach(l[1..], f); Called([l[0]] + rest.calls, rest.reply)
  }

  lemma {:induction false} CallConcat<T>(l: seq<T>, m: seq<T>, f: T -> Reply)
    ensures CallEach(l + m, f) ==
            if CallEach(l, f).reply.GoOn? then Called(CallEach(l, f).calls + CallEach(m, f).calls, CallEach(m, f).reply)
            else CallEach(l, f)
  {
    if l == [] {
      assert l + m == m;
    } else {
      CallConcat(l[1..], m, f);
      assert (l + m)[0] == l[0] && (l + m)[1..] == l[1..] + m;
      ConcatAssoc([l[0]], CallEach(l[1..], f).calls, CallEach(m, f).calls);
    }
  }

  lemma CallOne<T>(x: T, f: T -> Reply)
    ensures CallEach([x], f) == Called([x], f(x))
  {
    assert [x][1..] == [];
  }

  /** Everything is called on while the reply is to go on; any other reply is to the last call. */
  lemma {:induction false} CallsMean<T>(l: seq<T>, f: T -> Reply)
    ensures var run := CallEach(l, f);
            var n := |run.calls|;
            && n <= |l| && run.calls == l[..n] && (if run.reply.GoOn? then n == |l| else n > 0 && f(l[n - 1]) == run.reply)
            && forall k | 0 <= k < n :: f(l[k]).GoOn? <==> run.reply.GoOn? || k < n - 1
  {
    if l == [] || !f(l[0]).GoOn? {
    } else {
      var t := l[1..];
      CallsMean(t, f);
      var n := |CallEach(t, f).calls|;
      assert l[..n + 1] == [l[0]] + t[..n];
      assert forall k | 1 <= k <= n :: l[k] == t[k - 1];
    }
  }
}
