/**
 The read limiter of c++/src/capnp/arena.h, raced by any number of threads.

 `canRead` is a relaxed load of the shared limit followed, if the read is granted, by a
 separate relaxed store, so a thread can store back a value that other threads have long
 since spent.  The model interleaves loads and stores of `n` threads in every order.
 The class comment claims that races only loosen the limit and that it still kicks in
 eventually; this module decides exactly how much is let through.
 */
module ReadLimiter {

  const WORD64: nat := 0x1_0000_0000_0000_0000

  type uint64 = x: int | 0 <= x < WORD64

  /** Subtraction of two `uint64_t`, wrapping as in C++. */
  function Sub64(a: uint64, b: uint64): (r: uint64)
    ensures b <= a ==> r == a - b
  {
    (a - b) % WORD64
  }

  /** A thread is outside `canRead`, or has loaded the limit and has yet to store `value`. */
  datatype Thread = Idle | Pending(value: uint64)

  datatype State = State(limit: uint64, threads: seq<Thread>)

  /** `Load(t, amount)` is the load and the comparison of `canRead(amount)`, `Store(t)` its store. */
  datatype Step = Load(thread: nat, amount: uint64) | Store(thread: nat)

  function Init(n: nat, limit: uint64): State {
    State(limit, seq(n, _ => Idle))
  }

  predicate Enabled(s: State, step: Step) {
    step.thread < |s.threads| && (step.Load? <==> s.threads[step.thread].Idle?)
  }

  /** Does this step grant a read? */
  predicate Grants(s: State, step: Step) {
    step.Load? && step.amount <= s.limit
  }

  function Apply(s: State, step: Step): State
    requires Enabled(s, step)
  {
    match step
    case Load(t, amount) =>
      if amount > s.limit then s
      else s.(threads := s.threads[t := Pending(Sub64(s.limit, amount))])
    case Store(t) =>
      State(s.threads[t].value, s.threads[t := Idle])
  }

  /** A call of `canRead` with nobody interfering: its verdict and the limit it leaves. */
  function CanReadAlone(limit: uint64, amount: uint64): (bool, uint64) {
    var s := Apply(State(limit, [Idle]), Load(0, amount));
    if s.threads[0].Pending? then (true, Apply(s, Store(0)).limit) else (false, s.limit)
  }

  // ---------------------------------------------------------------------------------------
  // Runs

  predicate ValidRun(s: State, run: seq<Step>)
    decreases run
  {
    run == [] || (Enabled(s, run[0]) && ValidRun(Apply(s, run[0]), run[1..]))
  }

  function After(s: State, run: seq<Step>): State
    requires ValidRun(s, run)
    decreases run
  {
    if run == [] then s else After(Apply(s, run[0]), run[1..])
  }

  /** Number of reads granted along a run. */
  function GrantCount(s: State, run: seq<Step>): nat
    requires ValidRun(s, run)
    decreases run
  {
    if run == [] then 0
    else (if Grants(s, run[0]) then 1 else 0) + GrantCount(Apply(s, run[0]), run[1..])
  }

  /** Number of words granted along a run. */
  function GrantWords(s: State, run: seq<Step>): nat
    requires ValidRun(s, run)
    decreases run
  {
    if run == [] then 0
    else (if Grants(s, run[0]) then run[0].amount else 0) + GrantWords(Apply(s, run[0]), run[1..])
  }

  /** Number of reads attempted along a run. */
  function LoadCount(run: seq<Step>): nat {
    if run == [] then 0 else (if run[0].Load? then 1 else 0) + LoadCount(run[1..])
  }

  /** Every read of the run asks for at least one word. */
  predicate Positive(run: seq<Step>) {
    forall i :: 0 <= i < |run| && run[i].Load? ==> run[i].amount >= 1
  }

  lemma {:induction false} RunConcat(s: State, a: seq<Step>, b: seq<Step>)
    requires ValidRun(s, a) && ValidRun(After(s, a), b)
    ensures ValidRun(s, a + b)
    ensures After(s, a + b) == After(After(s, a), b)
    ensures GrantCount(s, a + b) == GrantCount(s, a) + GrantCount(After(s, a), b)
    ensures GrantWords(s, a + b) == GrantWords(s, a) + GrantWords(After(s, a), b)
    decreases a
  {
    if a == [] {
      assert a + b == b;
    } else {
      RunConcat(Apply(s, a[0]), a[1..], b);
      assert (a + b)[0] == a[0] && (a + b)[1..] == a[1..] + b;
    }
  }

  lemma SingleStep(s: State, step: Step)
    requires Enabled(s, step)
    ensures ValidRun(s, [step]) && After(s, [step]) == Apply(s, step)
    ensures GrantCount(s, [step]) == (if Grants(s, step) then 1 else 0)
    ensures GrantWords(s, [step]) == (if Grants(s, step) then step.amount else 0)
  {
    assert [step][1..] == [];
  }

  // ---------------------------------------------------------------------------------------
  // Safety: nothing wraps, nothing exceeds the initial limit (zero-word reads included)

  predicate WithinLimit(s: State, max: nat) {
    s.limit <= max && forall t :: 0 <= t < |s.threads| && s.threads[t].Pending? ==> s.threads[t].value <= max
  }

  /** In every interleaving the limit and every value about to be stored stay within the
      initial limit, and no granted subtraction wraps below zero. */
  lemma {:induction false} NeverExceedsOrWraps(s: State, run: seq<Step>, max: nat)
    requires WithinLimit(s, max) && ValidRun(s, run)
    ensures WithinLimit(After(s, run), max)
    ensures |After(s, run).threads| == |s.threads|
    ensures forall i :: 0 <= i < |run| ==> ValidRun(s, run[..i])
    ensures forall i {:trigger run[i]} :: 0 <= i < |run| && Grants(After(s, run[..i]), run[i]) ==>
              Sub64(After(s, run[..i]).limit, run[i].amount) == After(s, run[..i]).limit - run[i].amount
    decreases run
  {
    if run == [] {
    } else {
      var s' := Apply(s, run[0]);
      NeverExceedsOrWraps(s', run[1..], max);
      forall i | 0 <= i < |run|
        ensures ValidRun(s, run[..i])
        ensures Grants(After(s, run[..i]), run[i]) ==>
                  Sub64(After(s, run[..i]).limit, run[i].amount) == After(s, run[..i]).limit - run[i].amount
      {
        if i > 0 {
          assert run[..i][1..] == run[1..][..i - 1];
          assert run[i] == run[1..][i - 1];
        }
      }
    }
  }

  // ---------------------------------------------------------------------------------------
  // Counting: binomial coefficients

  /** Pascal's triangle. */
  function Choose(n: nat, k: nat): nat {
    if k == 0 then 1 else if n == 0 then 0 else Choose(n - 1, k - 1) + Choose(n - 1, k)
  }

  /** Number of multisets of size `v` over `m` kinds. */
  function Multichoose(m: nat, v: nat): nat {
    if v == 0 then 1 else if m == 0 then 0 else Multichoose(m - 1, v) + Multichoose(m, v - 1)
  }

  lemma {:induction false} ChooseZero(n: nat, k: nat)
    requires n < k
    ensures Choose(n, k) == 0
  {
    if n == 0 {
    } else {
      ChooseZero(n - 1, k - 1);
      ChooseZero(n - 1, k);
    }
  }

  lemma {:induction false} MultichooseIsChoose(m: nat, v: nat)
    ensures Multichoose(m + 1, v) == Choose(m + v, v)
  {
    if v == 0 {
    } else {
      MultichooseIsChoose(m, v - 1);
      if m == 0 {
        ChooseZero(v - 1, v);
      } else {
        MultichooseIsChoose(m - 1, v);
      }
    }
  }

  lemma {:induction false} MultichooseMono(a: nat, b: nat, v: nat)
    requires a <= b
    ensures Multichoose(a, v) <= Multichoose(b, v)
    decreases b
  {
    if a == b || v == 0 {
    } else {
      MultichooseMono(a, b - 1, v);
    }
  }

  // ---------------------------------------------------------------------------------------
  // Progress: a measure that no store lowers and every granted read raises

  /** What a thread can still spend: an idle one the limit, a pending one a unit more than it stores. */
  function Height(s: State, t: nat): nat
    requires t < |s.threads|
  {
    match s.threads[t]
    case Idle => s.limit
    case Pending(p) => p + 1
  }

  /** How many of the first `upTo` threads are lower than `v`. */
  function Below(s: State, v: nat, upTo: nat): (r: nat)
    requires upTo <= |s.threads|
    ensures r <= upTo
    decreases upTo
  {
    if upTo == 0 then 0
    else Below(s, v, upTo - 1) + (if Height(s, upTo - 1) < v then 1 else 0)
  }

  function PendingCount(s: State, upTo: nat): nat
    requires upTo <= |s.threads|
    decreases upTo
  {
    if upTo == 0 then 0
    else PendingCount(s, upTo - 1) + (if s.threads[upTo - 1].Pending? then 1 else 0)
  }

  /** Spending that has become impossible at the levels `1..max`. */
  function Spent(s: State, max: nat): nat
    decreases max
  {
    if max == 0 then 0
    else Spent(s, max - 1) + Multichoose(Below(s, max, |s.threads|), max)
  }

  function Progress(s: State, max: nat): nat {
    Spent(s, max) + PendingCount(s, |s.threads|)
  }

  lemma {:induction false} BelowGrows(s: State, s': State, v: nat, v': nat, upTo: nat)
    requires |s.threads| == |s'.threads| && upTo <= |s.threads|
    requires forall t :: 0 <= t < upTo && Height(s, t) < v ==> Height(s', t) < v'
    ensures Below(s, v, upTo) <= Below(s', v', upTo)
    decreases upTo
  {
    if upTo == 0 {
    } else {
      BelowGrows(s, s', v, v', upTo - 1);
    }
  }

  /** As BelowGrows, with one thread newly below. */
  lemma {:induction false} BelowGains(s: State, s': State, v: nat, upTo: nat, t: nat)
    requires |s.threads| == |s'.threads| && t < upTo <= |s.threads|
    requires forall u :: 0 <= u < upTo && Height(s, u) < v ==> Height(s', u) < v
    requires Height(s, t) >= v > Height(s', t)
    ensures Below(s, v, upTo) + 1 <= Below(s', v, upTo)
    decreases upTo
  {
    if t == upTo - 1 {
      BelowGrows(s, s', v, v, upTo - 1);
    } else {
      BelowGains(s, s', v, upTo - 1, t);
    }
  }

  lemma {:induction false} PendingUpdate(s: State, s': State, t: nat, upTo: nat)
    requires |s.threads| == |s'.threads| && upTo <= |s.threads| && t < |s.threads|
    requires forall u :: 0 <= u < |s.threads| && u != t ==> s.threads[u].Pending? == s'.threads[u].Pending?
    ensures t >= upTo ==> PendingCount(s', upTo) == PendingCount(s, upTo)
    ensures t < upTo ==>
              PendingCount(s', upTo) + (if s.threads[t].Pending? then 1 else 0)
              == PendingCount(s, upTo) + (if s'.threads[t].Pending? then 1 else 0)
    decreases upTo
  {
    if upTo == 0 {
    } else {
      PendingUpdate(s, s', t, upTo - 1);
    }
  }

  ghost predicate NoneRises(s: State, s': State, v: nat) {
    |s.threads| == |s'.threads| && forall t :: 0 <= t < |s.threads| && Height(s, t) < v ==> Height(s', t) < v
  }

  /** If no thread rises above a level `from..max`, what is spent there does not shrink. */
  lemma {:induction false} SpentGrows(s: State, s': State, from: nat, max: nat, gain: nat)
    requires |s.threads| == |s'.threads| && from <= max
    requires forall v :: from < v <= max ==> NoneRises(s, s', v)
    requires Spent(s, from) + gain <= Spent(s', from)
    ensures Spent(s, max) + gain <= Spent(s', max)
    decreases max
  {
    if from == max {
    } else {
      assert NoneRises(s, s', max);
      SpentGrows(s, s', from, max - 1, gain);
      BelowGrows(s, s', max, max, |s.threads|);
      MultichooseMono(Below(s, max, |s.threads|), Below(s', max, |s.threads|), max);
    }
  }

  /** A hockey-stick sum bounds everything spent up to a level by the threads below the next one. */
  lemma {:induction false} SpentAtMost(s: State, max: nat, m: nat)
    requires forall v :: 1 <= v <= max ==> Below(s, v, |s.threads|) <= m
    ensures Spent(s, max) + 1 <= Multichoose(m + 1, max)
    decreases max
  {
    if max == 0 {
    } else {
      SpentAtMost(s, max - 1, m);
      MultichooseMono(Below(s, max, |s.threads|), m, max);
    }
  }

  /** A store may raise every idle thread, yet what it gives back was already written off. */
  lemma StoreProgress(s: State, t: nat, max: nat)
    requires Enabled(s, Store(t)) && Height(s, t) <= max
    ensures Progress(s, max) <= Progress(Apply(s, Store(t)), max)
  {
    var s' := Apply(s, Store(t));
    var n: nat, p: nat := |s.threads|, s.threads[t].value;
    var m := Below(s, p + 1, n);
    forall v | 1 <= v <= p
      ensures Below(s, v, n) <= m
    {
      BelowGrows(s, s, v, p + 1, n);
    }
    SpentAtMost(s, p, m);
    BelowGains(s, s', p + 1, n, t);
    MultichooseMono(m + 1, Below(s', p + 1, n), p + 1);
    assert Spent(s, p + 1) + 1 <= Spent(s', p + 1);
    SpentGrows(s, s', p + 1, max, 1);
    PendingUpdate(s, s', t, n);
  }

  /** A thread that drops from height `v` or above to `low` adds to what is spent at every level
      in between. */
  lemma {:induction false} SpentByDrop(s: State, s': State, t: nat, low: nat, v: nat)
    requires |s.threads| == |s'.threads| && t < |s.threads| && Height(s', t) <= low <= v <= Height(s, t)
    requires forall u :: 0 <= u < |s.threads| ==> Height(s', u) <= Height(s, u)
    ensures Spent(s, v) + (v - low) <= Spent(s', v)
    decreases v
  {
    if v == low {
      SpentGrows(s, s', 0, v, 0);
    } else {
      var n := |s.threads|;
      SpentByDrop(s, s', t, low, v - 1);
      BelowGains(s, s', v, n, t);
      MultichooseMono(Below(s, v, n) + 1, Below(s', v, n), v);
      MultichoosePositive(Below(s, v, n), v - 1);
    }
  }

  lemma {:induction false} MultichoosePositive(m: nat, v: nat)
    ensures Multichoose(m + 1, v) >= 1
  {
    if v == 0 {
    } else {
      MultichoosePositive(m, v - 1);
    }
  }

  /** A load that grants a read makes progress by as many words as were granted. */
  lemma LoadProgress(s: State, t: nat, amount: uint64, max: nat)
    requires Enabled(s, Load(t, amount)) && amount >= 1 && s.limit <= max
    ensures Progress(s, max) + (if Grants(s, Load(t, amount)) then amount else 0)
         <= Progress(Apply(s, Load(t, amount)), max)
  {
    if Grants(s, Load(t, amount)) {
      var s' := Apply(s, Load(t, amount));
      SpentByDrop(s, s', t, s.limit - amount + 1, s.limit);
      SpentGrows(s, s', s.limit, max, amount - 1);
      PendingUpdate(s, s', t, |s.threads|);
    }
  }

  predicate HeightsWithin(s: State, max: nat) {
    s.limit <= max && forall t :: 0 <= t < |s.threads| ==> Height(s, t) <= max
  }

  lemma HeightsKept(s: State, step: Step, max: nat)
    requires Enabled(s, step) && HeightsWithin(s, max) && (step.Load? ==> step.amount >= 1)
    ensures HeightsWithin(Apply(s, step), max)
  {
    var s' := Apply(s, step);
    assert Height(s, step.thread) <= max;
    forall t | 0 <= t < |s'.threads|
      ensures Height(s', t) <= max
    {
      assert Height(s, t) <= max;
    }
  }

  lemma {:induction false} RunProgress(s: State, run: seq<Step>, max: nat)
    requires ValidRun(s, run) && Positive(run) && HeightsWithin(s, max)
    ensures HeightsWithin(After(s, run), max)
    ensures Progress(s, max) + GrantWords(s, run) <= Progress(After(s, run), max)
    decreases run
  {
    if run == [] {
    } else {
      match run[0] {
        case Load(t, amount) => LoadProgress(s, t, amount, max);
        case Store(t) => StoreProgress(s, t, max); assert Height(s, t) <= max;
      }
      HeightsKept(s, run[0], max);
      RunProgress(Apply(s, run[0]), run[1..], max);
    }
  }

  lemma {:induction false} PendingNotBelowOne(s: State, upTo: nat)
    requires upTo <= |s.threads|
    ensures Below(s, 1, upTo) + PendingCount(s, upTo) <= upTo
    decreases upTo
  {
    if upTo == 0 {
    } else {
      PendingNotBelowOne(s, upTo - 1);
    }
  }

  lemma {:induction false} ProgressAtMost(s: State, max: nat)
    requires HeightsWithin(s, max)
    ensures Progress(s, max) + 1 <= Multichoose(|s.threads| + 1, max)
  {
    var n := |s.threads|;
    if max == 0 {
      NonePending(s, n);
    } else {
      PendingNotBelowOne(s, n);
      MultichooseOne(Below(s, 1, n));
      MultichooseOne(n + 1);
      SpentAboveOne(s, max);
    }
  }

  lemma {:induction false} MultichooseOne(m: nat)
    ensures Multichoose(m, 1) == m
  {
    if m == 0 {
    } else {
      MultichooseOne(m - 1);
    }
  }

  lemma {:induction false} NonePending(s: State, upTo: nat)
    requires upTo <= |s.threads| && HeightsWithin(s, 0)
    ensures PendingCount(s, upTo) == 0
    decreases upTo
  {
    if upTo == 0 {
    } else {
      NonePending(s, upTo - 1);
      assert Height(s, upTo - 1) <= 0;
    }
  }

  lemma {:induction false} SpentAboveOne(s: State, max: nat)
    requires max >= 1
    ensures Spent(s, max) + Multichoose(|s.threads| + 1, 1) <= Spent(s, 1) + Multichoose(|s.threads| + 1, max)
    decreases max
  {
    if max == 1 {
    } else {
      SpentAboveOne(s, max - 1);
      MultichooseMono(Below(s, max, |s.threads|), |s.threads|, max);
    }
  }

  lemma {:induction false} NothingSpentInitially(n: nat, limit: uint64, v: nat, upTo: nat)
    requires v <= limit && upTo <= n
    ensures Below(Init(n, limit), v, upTo) == 0
    ensures PendingCount(Init(n, limit), upTo) == 0
    decreases upTo
  {
    if upTo == 0 {
    } else {
      NothingSpentInitially(n, limit, v, upTo - 1);
    }
  }

  lemma {:induction false} NoInitialProgress(n: nat, limit: uint64, max: nat)
    requires max <= limit
    ensures Progress(Init(n, limit), max) == 0
  {
    NothingSpentInitially(n, limit, max, n);
    if max == 0 {
    } else {
      NoInitialProgress(n, limit, max - 1);
    }
  }

  // ---------------------------------------------------------------------------------------
  // The limit kicks in, and exactly when

  /** Over `n` threads and every interleaving of their loads and stores, reads of at least one
      word are granted at most C(n + limit, n) - 1 words, so they are granted at most as often. */
  lemma GrantsBounded(n: nat, limit: uint64, run: seq<Step>)
    requires ValidRun(Init(n, limit), run) && Positive(run)
    ensures GrantCount(Init(n, limit), run) <= GrantWords(Init(n, limit), run) <= Choose(n + limit, limit) - 1
  {
    var s := Init(n, limit);
    RunProgress(s, run, limit);
    NoInitialProgress(n, limit, limit);
    SameThreadCount(s, run);
    ProgressAtMost(After(s, run), limit);
    MultichooseIsChoose(n, limit);
    WordsCoverReads(s, run);
  }

  lemma {:induction false} WordsCoverReads(s: State, run: seq<Step>)
    requires ValidRun(s, run) && Positive(run)
    ensures GrantCount(s, run) <= GrantWords(s, run)
    decreases run
  {
    if run == [] {
    } else {
      WordsCoverReads(Apply(s, run[0]), run[1..]);
    }
  }

  lemma {:induction false} SameThreadCount(s: State, run: seq<Step>)
    requires ValidRun(s, run)
    ensures |After(s, run).threads| == |s.threads|
    decreases run
  {
    if run == [] {
    } else {
      SameThreadCount(Apply(s, run[0]), run[1..]);
    }
  }

  /** So a long enough run of attempts always meets a refusal. */
  lemma {:induction false} LimitKicksIn(n: nat, limit: uint64, run: seq<Step>)
    requires ValidRun(Init(n, limit), run) && Positive(run)
    requires LoadCount(run) >= Choose(n + limit, limit)
    ensures exists i :: 0 <= i < |run| && run[i].Load? && ValidRun(Init(n, limit), run[..i])
              && !Grants(After(Init(n, limit), run[..i]), run[i])
  {
    GrantsBounded(n, limit, run);
    var i := FirstRefusal(Init(n, limit), run);
  }

  lemma {:induction false} FirstRefusal(s: State, run: seq<Step>) returns (i: nat)
    requires ValidRun(s, run) && GrantCount(s, run) < LoadCount(run)
    ensures i < |run| && run[i].Load? && ValidRun(s, run[..i]) && !Grants(After(s, run[..i]), run[i])
    decreases run
  {
    if run[0].Load? && !Grants(s, run[0]) {
      i := 0;
    } else {
      var j := FirstRefusal(Apply(s, run[0]), run[1..]);
      i := j + 1;
      assert run[..i][1..] == run[1..][..j];
    }
  }

  /** The worst schedule: park one thread, let the others exhaust the limit, restore it, repeat. */
  function WorstRun(first: nat, n: nat, limit: uint64): seq<Step>
    requires first <= n
    decreases n - first, limit
  {
    if first == n || limit == 0 then []
    else [Load(first, 1)] + WorstRun(first + 1, n, limit) + [Store(first)] + WorstRun(first, n, limit - 1)
  }

  lemma {:induction false} WorstRunGrants(s: State, first: nat, limit: uint64)
    requires first <= |s.threads| && s.limit == limit
    requires forall t :: first <= t < |s.threads| ==> s.threads[t].Idle?
    ensures ValidRun(s, WorstRun(first, |s.threads|, limit))
    ensures After(s, WorstRun(first, |s.threads|, limit)).threads == s.threads
    ensures GrantCount(s, WorstRun(first, |s.threads|, limit)) + 1 == Multichoose(|s.threads| - first + 1, limit)
    decreases |s.threads| - first, limit
  {
    var n := |s.threads|;
    if first == n {
      MultichooseOfOne(limit);
    } else if limit > 0 {
      var s1 := Apply(s, Load(first, 1));
      WorstRunGrants(s1, first + 1, limit);
      var s2 := After(s1, WorstRun(first + 1, n, limit));
      var s3 := Apply(s2, Store(first));
      assert s3.threads == s.threads;
      WorstRunGrants(s3, first, limit - 1);
      ParkAndRestore(s, first, WorstRun(first + 1, n, limit), WorstRun(first, n, limit - 1));
    }
  }

  /** Joins the four parts of one round of WorstRun. */
  lemma ParkAndRestore(s: State, t: nat, inner: seq<Step>, again: seq<Step>)
    requires Enabled(s, Load(t, 1)) && s.limit >= 1
    requires ValidRun(Apply(s, Load(t, 1)), inner)
    requires Enabled(After(Apply(s, Load(t, 1)), inner), Store(t))
    requires ValidRun(Apply(After(Apply(s, Load(t, 1)), inner), Store(t)), again)
    ensures var s1 := Apply(s, Load(t, 1));
            var s3 := Apply(After(s1, inner), Store(t));
            var run := [Load(t, 1)] + inner + [Store(t)] + again;
            ValidRun(s, run) && After(s, run) == After(s3, again)
            && GrantCount(s, run) == 1 + GrantCount(s1, inner) + GrantCount(s3, again)
  {
    var s1 := Apply(s, Load(t, 1));
    var s2 := After(s1, inner);
    SingleStep(s, Load(t, 1));
    RunConcat(s, [Load(t, 1)], inner);
    SingleStep(s2, Store(t));
    RunConcat(s, [Load(t, 1)] + inner, [Store(t)]);
    RunConcat(s, [Load(t, 1)] + inner + [Store(t)], again);
  }

  lemma {:induction false} MultichooseOfOne(v: nat)
    ensures Multichoose(1, v) == 1
  {
    if v == 0 {
    } else {
      MultichooseOfOne(v - 1);
    }
  }

  lemma {:induction false} WorstRunPositive(first: nat, n: nat, limit: uint64)
    requires first <= n
    ensures Positive(WorstRun(first, n, limit))
    decreases n - first, limit
  {
    if first == n || limit == 0 {
    } else {
      WorstRunPositive(first + 1, n, limit);
      WorstRunPositive(first, n, limit - 1);
    }
  }

  /** The bound of GrantsBounded is attained, for every number of threads and every limit. */
  lemma BoundAttained(n: nat, limit: uint64)
    ensures ValidRun(Init(n, limit), WorstRun(0, n, limit)) && Positive(WorstRun(0, n, limit))
    ensures GrantCount(Init(n, limit), WorstRun(0, n, limit)) == Choose(n + limit, limit) - 1
    ensures GrantWords(Init(n, limit), WorstRun(0, n, limit)) == Choose(n + limit, limit) - 1
  {
    WorstRunGrants(Init(n, limit), 0, limit);
    WorstRunPositive(0, n, limit);
    MultichooseIsChoose(n, limit);
    GrantsBounded(n, limit, WorstRun(0, n, limit));
  }

  // ---------------------------------------------------------------------------------------
  // Zero-word reads

  /** The words granted over all runs, zero-word reads allowed, have a common bound. */
  ghost predicate Bounded(n: nat, limit: uint64) {
    exists bound: nat :: WordsWithin(n, limit, bound)
  }

  ghost predicate WordsWithin(n: nat, limit: uint64, bound: nat) {
    forall run :: ValidRun(Init(n, limit), run) ==> GrantWords(Init(n, limit), run) <= bound
  }

  /** One thread parks the limit with a zero-word read while another spends all of it. */
  function ZeroWordRun(limit: uint64, rounds: nat): seq<Step> {
    if rounds == 0 then []
    else [Load(0, 0), Load(1, limit), Store(1), Store(0)] + ZeroWordRun(limit, rounds - 1)
  }

  lemma {:induction false} ZeroWordRunGrants(n: nat, limit: uint64, rounds: nat)
    requires n >= 2
    ensures ValidRun(Init(n, limit), ZeroWordRun(limit, rounds))
    ensures GrantWords(Init(n, limit), ZeroWordRun(limit, rounds)) == rounds * limit
  {
    if rounds == 0 {
    } else {
      var s := Init(n, limit);
      var round := [Load(0, 0), Load(1, limit), Store(1), Store(0)];
      ZeroWordRound(n, limit, round);
      ZeroWordRunGrants(n, limit, rounds - 1);
      RunConcat(s, round, ZeroWordRun(limit, rounds - 1));
    }
  }

  lemma ZeroWordRound(n: nat, limit: uint64, round: seq<Step>)
    requires n >= 2 && round == [Load(0, 0), Load(1, limit), Store(1), Store(0)]
    ensures ValidRun(Init(n, limit), round) && After(Init(n, limit), round) == Init(n, limit)
    ensures GrantWords(Init(n, limit), round) == limit
  {
    var s := Init(n, limit);
    var s1 := Apply(s, round[0]);
    var s2 := Apply(s1, round[1]);
    var s3 := Apply(s2, round[2]);
    SingleStep(s, round[0]);
    SingleStep(s1, round[1]);
    SingleStep(s2, round[2]);
    SingleStep(s3, round[3]);
    RunConcat(s, [round[0]], [round[1]]);
    RunConcat(s, [round[0]] + [round[1]], [round[2]]);
    RunConcat(s, [round[0]] + [round[1]] + [round[2]], [round[3]]);
    assert round == [round[0]] + [round[1]] + [round[2]] + [round[3]];
    assert Apply(s3, round[3]) == s;
  }

  /** What a single thread has left: the limit, or the value it is about to store. */
  function Remaining(s: State): nat
    requires |s.threads| == 1
  {
    if s.threads[0].Pending? then s.threads[0].value else s.limit
  }

  /** With one thread the words granted and the words left always add up to the initial limit. */
  lemma {:induction false} SingleThreadConserves(s: State, run: seq<Step>)
    requires |s.threads| == 1 && ValidRun(s, run)
    ensures |After(s, run).threads| == 1
    ensures GrantWords(s, run) + Remaining(After(s, run)) == Remaining(s)
    decreases run
  {
    if run == [] {
    } else {
      SingleThreadConserves(Apply(s, run[0]), run[1..]);
    }
  }

  lemma {:induction false} NothingToGrant(s: State, run: seq<Step>)
    requires WithinLimit(s, 0) && ValidRun(s, run)
    ensures GrantWords(s, run) == 0
    decreases run
  {
    if run == [] {
    } else {
      NothingToGrant(Apply(s, run[0]), run[1..]);
    }
  }

  /** With zero-word reads in play the limit is enforced exactly when there is at most one
      thread or nothing to read: two threads can pass any number of words. */
  lemma ZeroWordReadsDefeatTheLimit(n: nat, limit: uint64)
    ensures Bounded(n, limit) <==> n <= 1 || limit == 0
  {
    if n <= 1 || limit == 0 {
      forall run | ValidRun(Init(n, limit), run)
        ensures GrantWords(Init(n, limit), run) <= limit
      {
        if limit == 0 {
          NothingToGrant(Init(n, limit), run);
        } else if n == 1 {
          SingleThreadConserves(Init(n, limit), run);
        }
      }
      assert WordsWithin(n, limit, limit);
    } else {
      forall bound: nat
        ensures !WordsWithin(n, limit, bound)
      {
        ZeroWordRunGrants(n, limit, bound + 1);
        assert (bound + 1) * limit > bound;
      }
    }
  }
}
