/**
 * Bounded repetition of a state transition that keeps an invariant: the
 * shape of a cooperative work loop that performs units of work until none
 * is left or its allowance runs out.
 */
module Iteration {
  import opened Util

  /** `step` may be applied to every state satisfying `inv` and keeps `inv`. */
  ghost predicate Closed<S(!new)>(step: S --> S, inv: S -> bool)
  {
    forall s :: inv(s) ==> step.requires(s) && inv(step(s))
  }

  /** Apply `step` until `idle` holds or `n` steps have been taken. */
  function Repeat<S(!new)>(step: S --> S, inv: S -> bool, idle: S -> bool, s: S, n: nat): (t: S)
    requires Closed(step, inv) && inv(s)
    ensures inv(t)
    decreases n
  {
    if n == 0 || idle(s) then s else Repeat(step, inv, idle, step(s), n - 1)
  }

  /** The answer of a deadline's `timeRemaining() < 1` after the step at
      position `c` of a slice; once the given answers run out, the time has. */
  function Answer(answers: seq<bool>, c: nat): bool
  {
    if c < |answers| then answers[c] else true
  }

  /** The steps a slice takes under these answers, unless it goes idle
      first: one more than the position of the first `true`. */
  function Budget(answers: seq<bool>): (b: nat)
    ensures 1 <= b <= |answers| + 1
    ensures Answer(answers, b - 1)
    ensures forall c :: 0 <= c < b - 1 ==> !Answer(answers, c)
  {
    if answers == [] || answers[0] then 1
    else
      var b := 1 + Budget(answers[1..]);
      forall c | 1 <= c
        ensures Answer(answers, c) == Answer(answers[1..], c - 1)
      {
      }
      b
  }

  /** `while (!idle(s) && !shouldYield) { s := step(s); shouldYield := ... }`
      with the deadline answered from `answers`: it takes `Budget(answers)`
      steps, or fewer when it goes idle. */
  method RepeatUntilYield<S(!new)>(step: S --> S, inv: S -> bool, idle: S -> bool, s: S, answers: seq<bool>)
    returns (u: S)
    requires Closed(step, inv) && inv(s)
    ensures u == Repeat(step, inv, idle, s, Budget(answers))
  {
    var budget := Budget(answers);
    u := s;
    var shouldYield := false;
    var c: nat := 0;
    while !idle(u) && !shouldYield
      invariant inv(u) && c <= budget
      invariant u == Repeat(step, inv, idle, s, c)
      invariant shouldYield <==> c == budget
      decreases budget - c
    {
      RepeatNext(step, inv, idle, s, c);
      u := step(u);
      shouldYield := Answer(answers, c);
      c := c + 1;
    }
    if c < budget {
      RepeatSettles(step, inv, idle, s, c, budget);
    }
  }

  /** One more step from a busy state. */
  lemma RepeatNext<S(!new)>(step: S --> S, inv: S -> bool, idle: S -> bool, s: S, c: nat)
    requires Closed(step, inv) && inv(s) && !idle(Repeat(step, inv, idle, s, c))
    ensures Repeat(step, inv, idle, s, c + 1) == step(Repeat(step, inv, idle, s, c))
  {
    RepeatAdd(step, inv, idle, s, c, 1);
    var u := Repeat(step, inv, idle, s, c);
    assert Repeat(step, inv, idle, step(u), 0) == step(u);
  }

  /** Once idle, repetition changes nothing. */
  lemma {:induction false} RepeatIdle<S(!new)>(step: S --> S, inv: S -> bool, idle: S -> bool, s: S, n: nat)
    requires Closed(step, inv) && inv(s) && idle(s)
    ensures Repeat(step, inv, idle, s, n) == s
  {
  }

  /** `m` steps followed by `n` steps are `m + n` steps. */
  lemma {:induction false} RepeatAdd<S(!new)>(step: S --> S, inv: S -> bool, idle: S -> bool, s: S, m: nat, n: nat)
    requires Closed(step, inv) && inv(s)
    ensures Repeat(step, inv, idle, Repeat(step, inv, idle, s, m), n) == Repeat(step, inv, idle, s, m + n)
    decreases m
  {
    if m > 0 && !idle(s) {
      RepeatAdd(step, inv, idle, step(s), m - 1, n);
    }
  }

  /** A state that is idle after `m` steps stays as it is however many more
      steps are allowed. */
  lemma {:induction false} RepeatSettles<S(!new)>(step: S --> S, inv: S -> bool, idle: S -> bool, s: S, m: nat, n: nat)
    requires Closed(step, inv) && inv(s) && m <= n
    requires idle(Repeat(step, inv, idle, s, m))
    ensures Repeat(step, inv, idle, s, n) == Repeat(step, inv, idle, s, m)
  {
    RepeatAdd(step, inv, idle, s, m, n - m);
    RepeatIdle(step, inv, idle, Repeat(step, inv, idle, s, m), n - m);
  }

  /** A property every step keeps from a non-idle state holds throughout. */
  lemma {:induction false} RepeatKeeps<S(!new)>(step: S --> S, inv: S -> bool, idle: S -> bool, p: S -> bool, s: S, n: nat)
    requires Closed(step, inv) && inv(s) && p(s)
    requires forall t :: inv(t) && p(t) && !idle(t) ==> p(step(t))
    ensures p(Repeat(step, inv, idle, s, n))
    decreases n
  {
    if n > 0 && !idle(s) {
      RepeatKeeps(step, inv, idle, p, step(s), n - 1);
    }
  }

  /** A property that holds after the first step, and that every later step
      keeps, holds after any positive number of steps. */
  lemma RepeatKeepsAfterFirst<S(!new)>(step: S --> S, inv: S -> bool, idle: S -> bool, p: S -> bool, s: S, n: nat)
    requires Closed(step, inv) && inv(s) && !idle(s) && n > 0 && p(step(s))
    requires forall t :: inv(t) && p(t) && !idle(t) ==> p(step(t))
    ensures p(Repeat(step, inv, idle, s, n))
  {
    RepeatKeeps(step, inv, idle, p, step(s), n - 1);
  }

  /** What `obs` reads of each state a step is taken from, in order. */
  function Trace<S(!new), T>(step: S --> S, inv: S -> bool, idle: S -> bool, obs: S -> T, s: S, n: nat): (tr: seq<T>)
    requires Closed(step, inv) && inv(s)
    ensures |tr| <= n
    decreases n
  {
    if n == 0 || idle(s) then [] else [obs(s)] + Trace(step, inv, idle, obs, step(s), n - 1)
  }

  /** None of the first `n` states is idle. */
  ghost predicate Busy<S(!new)>(step: S --> S, inv: S -> bool, idle: S -> bool, s: S, n: nat)
    requires Closed(step, inv) && inv(s)
  {
    forall k :: 0 <= k < n ==> !idle(Repeat(step, inv, idle, s, k))
  }

  /** A step from a busy state: the repetition and the trace both begin with it. */
  lemma Advance<S(!new), T>(step: S --> S, inv: S -> bool, idle: S -> bool, obs: S -> T, s: S, n: nat)
    requires Closed(step, inv) && inv(s) && n > 0 && !idle(s)
    ensures Repeat(step, inv, idle, s, n) == Repeat(step, inv, idle, step(s), n - 1)
    ensures Trace(step, inv, idle, obs, s, n) == [obs(s)] + Trace(step, inv, idle, obs, step(s), n - 1)
  {
  }

  /** A busy run one step longer: prefixing a step to `n - 1` busy ones. */
  lemma BusyStep<S(!new)>(step: S --> S, inv: S -> bool, idle: S -> bool, s: S, n: nat)
    requires Closed(step, inv) && inv(s) && n > 0 && !idle(s)
    requires Busy(step, inv, idle, step(s), n - 1)
    ensures Busy(step, inv, idle, s, n)
  {
    forall k | 0 <= k < n
      ensures !idle(Repeat(step, inv, idle, s, k))
    {
      if k > 0 {
        assert Repeat(step, inv, idle, s, k) == Repeat(step, inv, idle, step(s), k - 1);
      }
    }
  }

  /** After `n` busy steps the state is idle exactly from step `n` on. */
  lemma {:induction false} IdleFrom<S(!new)>(step: S --> S, inv: S -> bool, idle: S -> bool, s: S, n: nat, k: nat)
    requires Closed(step, inv) && inv(s)
    requires Busy(step, inv, idle, s, n) && idle(Repeat(step, inv, idle, s, n))
    ensures idle(Repeat(step, inv, idle, s, k)) <==> n <= k
    ensures n <= k ==> Repeat(step, inv, idle, s, k) == Repeat(step, inv, idle, s, n)
  {
    if n <= k {
      RepeatSettles(step, inv, idle, s, n, k);
    }
  }

  // ----- Draining -----

  predicate Distinct<U(==)>(l: seq<U>)
  {
    forall i, j :: 0 <= i < j < |l| ==> l[i] != l[j]
  }

  /** A key outside `seen` followed by distinct keys outside `seen + {x}`
      makes a list of distinct keys outside `seen`. */
  lemma DistinctCons<U>(x: U, v: seq<U>, seen: set<U>)
    requires x !in seen && Distinct(v) && forall k :: 0 <= k < |v| ==> v[k] !in seen + {x}
    ensures Distinct([x] + v) && forall k :: 0 <= k < |v| + 1 ==> ([x] + v)[k] !in seen
  {
    var q := [x] + v;
    forall i, j | 0 <= i < j < |q|
      ensures q[i] != q[j]
    {
      if i > 0 {
        assert q[i] == v[i - 1];
      }
      assert q[j] == v[j - 1];
    }
    forall k | 0 <= k < |q|
      ensures q[k] !in seen
    {
      if k > 0 {
        assert q[k] == v[k - 1];
      }
    }
  }

  /** The tail of a repeat-free list is repeat-free and lacks the head. */
  lemma DistinctTail<U>(x: U, v: seq<U>)
    requires Distinct([x] + v)
    ensures Distinct(v) && x !in v
  {
    var q := [x] + v;
    forall i, j | 0 <= i < j < |v|
      ensures v[i] != v[j]
    {
      assert v[i] == q[i + 1] && v[j] == q[j + 1];
    }
    forall k | 0 <= k < |v|
      ensures v[k] != x
    {
      assert v[k] == q[k + 1] && q[0] == x;
    }
  }

  /** From every state `ready` for the keys `sn` already used, a step takes
      the first of the observations `rem` still ahead, on a key not in `sn`,
      and leaves a state ready for `sn` and that key; an idle state has
      nothing ahead. */
  ghost predicate Advances<S(!new), T, U(!new)>(step: S --> S, inv: S -> bool, idle: S -> bool, obs: S -> T, key: S -> U,
                                               rem: S -> seq<T>, ready: (S, set<U>) -> bool)
    requires Closed(step, inv)
  {
    forall t, sn :: AdvancesAt(step, inv, idle, obs, key, rem, ready, t, sn)
  }

  /** `Advances` at one state `t` and set `sn` of keys already seen. */
  ghost predicate AdvancesAt<S(!new), T, U(!new)>(step: S --> S, inv: S -> bool, idle: S -> bool, obs: S -> T, key: S -> U,
                                                 rem: S -> seq<T>, ready: (S, set<U>) -> bool, t: S, sn: set<U>)
    requires Closed(step, inv)
  {
    inv(t) && ready(t, sn) ==>
      if idle(t) then rem(t) == []
      else key(t) !in sn && rem(t) == [obs(t)] + rem(step(t)) && ready(step(t), sn + {key(t)})
  }

  /** Such a run goes idle after exactly `|rem(s)|` steps; its steps observe
      `rem(s)` in order, on distinct keys outside `seen`. */
  lemma {:induction false} Drains<S(!new), T, U(!new)>(step: S --> S, inv: S -> bool, idle: S -> bool, obs: S -> T, key: S -> U,
                                                      rem: S -> seq<T>, ready: (S, set<U>) -> bool, s: S, seen: set<U>)
    requires Closed(step, inv) && inv(s) && ready(s, seen)
    requires Advances(step, inv, idle, obs, key, rem, ready)
    ensures Busy(step, inv, idle, s, |rem(s)|) && idle(Repeat(step, inv, idle, s, |rem(s)|))
    ensures Trace(step, inv, idle, obs, s, |rem(s)|) == rem(s)
    ensures |Trace(step, inv, idle, key, s, |rem(s)|)| == |rem(s)|
    ensures Distinct(Trace(step, inv, idle, key, s, |rem(s)|))
    ensures forall k :: 0 <= k < |rem(s)| ==> Trace(step, inv, idle, key, s, |rem(s)|)[k] !in seen
    decreases |rem(s)|
  {
    assert AdvancesAt(step, inv, idle, obs, key, rem, ready, s, seen);
    assert if idle(s) then rem(s) == []
           else key(s) !in seen && rem(s) == [obs(s)] + rem(step(s)) && ready(step(s), seen + {key(s)});
    if !idle(s) {
      var n := |rem(s)|;
      var t := step(s);
      Drains(step, inv, idle, obs, key, rem, ready, t, seen + {key(s)});
      Advance(step, inv, idle, obs, s, n);
      Advance(step, inv, idle, key, s, n);
      BusyStep(step, inv, idle, s, n);
      DistinctCons(key(s), Trace(step, inv, idle, key, t, n - 1), seen);
    }
  }

  // ----- Slices -----

  /** `finish` may be applied to every state satisfying `inv` and keeps it. */
  ghost predicate Finishes<S(!new)>(finish: S --> S, inv: S -> bool)
  {
    forall s :: inv(s) ==> finish.requires(s) && inv(finish(s))
  }

  /** One slice with budget `b`: up to `Max(b, 1)` steps (so at least one is
      always attempted), then `finish` if the run is over and `ready` holds.
      The second component is whether another slice is wanted. */
  function Slice<S(!new)>(step: S --> S, inv: S -> bool, idle: S -> bool, ready: S -> bool, finish: S --> S,
                          s: S, b: nat): (r: (S, bool))
    requires Closed(step, inv) && Finishes(finish, inv) && inv(s)
    ensures inv(r.0)
  {
    var u := Repeat(step, inv, idle, s, Max(b, 1));
    if idle(u) && ready(u) then (finish(u), false) else (u, true)
  }

  /** One slice per budget, stopping after the first slice that does not ask
      for another; the second component is whether one is still asked for. */
  function Slices<S(!new)>(step: S --> S, inv: S -> bool, idle: S -> bool, ready: S -> bool, finish: S --> S,
                           s: S, budgets: seq<nat>): (r: (S, bool))
    requires Closed(step, inv) && Finishes(finish, inv) && inv(s)
    ensures inv(r.0)
    ensures budgets == [] ==> r == (s, true)
    decreases |budgets|
  {
    if budgets == [] then (s, true)
    else
      var w := Slice(step, inv, idle, ready, finish, s, budgets[0]);
      if w.1 then Slices(step, inv, idle, ready, finish, w.0, budgets[1..]) else w
  }

  /** The steps a chain of slices may take: each slice takes at least one. */
  function Allowance(budgets: seq<nat>): (n: nat)
    ensures n >= |budgets|
  {
    if budgets == [] then 0 else Max(budgets[0], 1) + Allowance(budgets[1..])
  }

  /** `ready` holds of `s` and no step from a busy state loses it. */
  ghost predicate StaysReady<S(!new)>(step: S --> S, inv: S -> bool, idle: S -> bool, ready: S -> bool, s: S)
    requires Closed(step, inv)
  {
    ready(s) && forall t :: inv(t) && ready(t) && !idle(t) ==> ready(step(t))
  }

  /** In a run that is busy for exactly `n` steps and stays ready, the slice
      from step `p < n` either finishes the whole run or stops `Max(b, 1)`
      steps further on. */
  lemma SliceFrom<S(!new)>(step: S --> S, inv: S -> bool, idle: S -> bool, ready: S -> bool, finish: S --> S,
                           s: S, n: nat, p: nat, b: nat)
    requires Closed(step, inv) && Finishes(finish, inv) && inv(s) && p < n
    requires Busy(step, inv, idle, s, n) && idle(Repeat(step, inv, idle, s, n))
    requires StaysReady(step, inv, idle, ready, s)
    ensures Slice(step, inv, idle, ready, finish, Repeat(step, inv, idle, s, p), b)
         == if p + Max(b, 1) >= n then (finish(Repeat(step, inv, idle, s, n)), false)
            else (Repeat(step, inv, idle, s, p + Max(b, 1)), true)
  {
    var m := Max(b, 1);
    RepeatAdd(step, inv, idle, s, p, m);
    IdleFrom(step, inv, idle, s, n, p + m);
    RepeatKeeps(step, inv, idle, ready, s, p + m);
  }

  /** A chain of slices from step `p` of such a run finishes exactly when its
      allowance covers the rest of the run. */
  lemma {:induction false} SlicesFrom<S(!new)>(step: S --> S, inv: S -> bool, idle: S -> bool, ready: S -> bool, finish: S --> S,
                                               s: S, n: nat, p: nat, budgets: seq<nat>)
    requires Closed(step, inv) && Finishes(finish, inv) && inv(s) && p < n
    requires Busy(step, inv, idle, s, n) && idle(Repeat(step, inv, idle, s, n))
    requires StaysReady(step, inv, idle, ready, s)
    ensures Slices(step, inv, idle, ready, finish, Repeat(step, inv, idle, s, p), budgets)
         == if p + Allowance(budgets) >= n then (finish(Repeat(step, inv, idle, s, n)), false)
            else (Repeat(step, inv, idle, s, p + Allowance(budgets)), true)
    decreases |budgets|
  {
    if budgets != [] {
      var m := Max(budgets[0], 1);
      SliceFrom(step, inv, idle, ready, finish, s, n, p, budgets[0]);
      if p + m < n {
        SlicesFrom(step, inv, idle, ready, finish, s, n, p + m, budgets[1..]);
      }
    }
  }

  /** Slicing a run that is busy for exactly `n` steps: the chain finishes
      exactly when the slices allow `n` steps, with the state the unsliced run
      reaches; until then it is where the allowed steps leave it. */
  lemma SlicesRun<S(!new)>(step: S --> S, inv: S -> bool, idle: S -> bool, ready: S -> bool, finish: S --> S,
                           s: S, n: nat, budgets: seq<nat>)
    requires Closed(step, inv) && Finishes(finish, inv) && inv(s) && 0 < n
    requires Busy(step, inv, idle, s, n) && idle(Repeat(step, inv, idle, s, n))
    requires StaysReady(step, inv, idle, ready, s)
    ensures Slices(step, inv, idle, ready, finish, s, budgets)
         == if Allowance(budgets) >= n then (finish(Repeat(step, inv, idle, s, n)), false)
            else (Repeat(step, inv, idle, s, Allowance(budgets)), true)
  {
    SlicesFrom(step, inv, idle, ready, finish, s, n, 0, budgets);
  }

  /** A property kept by every step from a busy state and by `finish` holds
      after any chain of slices. */
  lemma {:induction false} SlicesKeep<S(!new)>(step: S --> S, inv: S -> bool, idle: S -> bool, ready: S -> bool, finish: S --> S,
                                               p: S -> bool, s: S, budgets: seq<nat>)
    requires Closed(step, inv) && Finishes(finish, inv) && inv(s) && p(s)
    requires forall t :: inv(t) && p(t) && !idle(t) ==> p(step(t))
    requires forall t :: inv(t) && p(t) ==> p(finish(t))
    ensures p(Slices(step, inv, idle, ready, finish, s, budgets).0)
    decreases |budgets|
  {
    if budgets != [] {
      RepeatKeeps(step, inv, idle, p, s, Max(budgets[0], 1));
      var w := Slice(step, inv, idle, ready, finish, s, budgets[0]);
      if w.1 {
        SlicesKeep(step, inv, idle, ready, finish, p, w.0, budgets[1..]);
      }
    }
  }
}
