/**
 * `iter_s_t`: computing `f(s, t)` over a grid of bidegrees so that `f(s, t)`
 * runs only once `f(s - 1, t')` has run for every `t'` in `[min_t, t)`.
 *
 * The work is a pool of pending bidegrees. It starts with the row
 * `s = min_s` and the column `t = min_t`; each call `f(s, t)` reports a
 * range `[a, T)` and unlocks the bidegrees `(s + 1, t')` for `t'` in
 * `[a + 1, min(T + 1, max_t(s + 1)))`. The pool is drained one item at a
 * time, the item chosen arbitrarily, so that every order the parallel
 * version may run things in is covered.
 *
 * `f` sees the set of bidegrees computed so far, its own included, since
 * what it reports is a fact about that set: its range starts at `t` and
 * ends at a `T` such that `f(s, t')` has run for every `t'` in `[min_t, T)`.
 */
module Scheduler {

  /** A bidegree: filtration `s` and internal degree `t`. */
  datatype Bidegree = Bidegree(s: nat, t: int)

  /** A half-open range `[start, end)` of degrees, as Rust's `Range<i32>`. */
  datatype Range = Range(start: int, end: int)

  /** One call of `f`: where it was made and what it returned. */
  datatype Call = Call(at: Bidegree, ret: Range)

  /** The step `f`, given the bidegrees computed so far, the new one included. */
  type Step = (set<Bidegree>, nat, int) -> Range

  /**
   * The contract `f` must meet: called at `(s, t)` once `(s, t)` is computed,
   * it returns a range starting at `t` and ending at a `T` such that every
   * `(s, t')` with `min_t <= t' < T` is computed.
   */
  ghost predicate HonestStep(f: Step, minT: int)
  {
    forall done: set<Bidegree>, s: nat, t: int :: Bidegree(s, t) in done ==>
      f(done, s, t).start == t && RowDone(done, s, minT, f(done, s, t).end)
  }

  /** Every `(s, u)` with `min_t <= u < end` is done. */
  ghost predicate RowDone(done: set<Bidegree>, s: nat, minT: int, end: int)
  {
    forall u :: minT <= u < end ==> Bidegree(s, u) in done
  }

  function Min(a: int, b: int): int
  {
    if a <= b then a else b
  }

  /**
   * The bidegrees a call at `b` returning `ret` unlocks: nothing unless
   * `b.s + 1 < max_s`, and then `(b.s + 1, t')` for every `t'` from
   * `ret.start + 1` up to, not including, `min(ret.end + 1, max_t(b.s + 1))`.
   */
  function Unlocked(b: Bidegree, ret: Range, maxS: nat, maxT: nat -> int): seq<Bidegree>
  {
    if b.s + 1 < maxS then
      seq(Max0(Min(ret.end + 1, maxT(b.s + 1)) - (ret.start + 1)), i => Bidegree(b.s + 1, ret.start + 1 + i))
    else []
  }

  /**
   * Exactly the bidegrees `(b.s + 1, t')` with `ret.start + 1 <= t' <
   * min(ret.end + 1, max_t(b.s + 1))` are unlocked, each once, and only when
   * `b.s + 1 < max_s`.
   */
  lemma UnlockedExactly(b: Bidegree, ret: Range, maxS: nat, maxT: nat -> int)
    ensures var u := Unlocked(b, ret, maxS, maxT);
      forall x :: x in u <==>
        && b.s + 1 < maxS
        && x.s == b.s + 1
        && ret.start + 1 <= x.t < Min(ret.end + 1, maxT(b.s + 1))
    ensures var u := Unlocked(b, ret, maxS, maxT);
      forall i, j :: 0 <= i < j < |u| ==> u[i] != u[j]
  {
    var u := Unlocked(b, ret, maxS, maxT);
    forall x: Bidegree | b.s + 1 < maxS && x.s == b.s + 1 && ret.start + 1 <= x.t < Min(ret.end + 1, maxT(b.s + 1))
      ensures x in u
    {
      assert u[x.t - ret.start - 1] == x;
    }
  }

  function Max0(x: int): nat
  {
    if x < 0 then 0 else x
  }

  /** A call whose range is empty unlocks nothing. */
  lemma EmptyRangeUnlocksNothing(b: Bidegree, ret: Range, maxS: nat, maxT: nat -> int)
    requires ret.end <= ret.start
    ensures Unlocked(b, ret, maxS, maxT) == []
  {
    assert Min(ret.end + 1, maxT(b.s + 1)) - (ret.start + 1) <= 0;
  }

  /**
   * `run`: calls `f(s, t)`; if `s + 1 < max_s`, moves the start of the
   * returned range up by one, caps its end at `max_t(s + 1)` after moving it
   * up by one, and, if what is left is not empty, hands out `(s + 1, t')` for
   * every `t'` in it.
   */
  method Run(f: Step, maxS: nat, maxT: nat -> int, done: set<Bidegree>, b: Bidegree)
    returns (reported: Range, unlocked: seq<Bidegree>)
    ensures reported == f(done, b.s, b.t)
    ensures unlocked == Unlocked(b, reported, maxS, maxT)
  {
    var ret := f(done, b.s, b.t);
    reported := ret;
    unlocked := [];
    if b.s + 1 < maxS {
      ret := ret.(start := ret.start + 1);
      ret := ret.(end := Min(ret.end + 1, maxT(b.s + 1)));
      if ret.start < ret.end {
        var t := ret.start;
        while t < ret.end
          invariant ret.start <= t <= ret.end
          invariant unlocked == seq(t - ret.start, i => Bidegree(b.s + 1, ret.start + i))
        {
          unlocked := unlocked + [Bidegree(b.s + 1, t)];
          t := t + 1;
        }
      }
    }
  }

  /** The first calls: the row `(min_s, t)` for `t` in `[min_t, max_t(min_s))`, then the column `(s, min_t)` for `s` in `(min_s, max_s)`. */
  function Bootstrap(minS: nat, minT: int, maxS: nat, maxT: nat -> int): seq<Bidegree>
  {
    seq(Max0(maxT(minS) - minT), i => Bidegree(minS, minT + i))
    + seq(Max0(maxS - minS - 1), i requires 0 <= i => Bidegree(minS + 1 + i, minT))
  }

  /** The bootstrap holds each bidegree of the row and of the column once, and nothing else. */
  lemma BootstrapExactly(minS: nat, minT: int, maxS: nat, maxT: nat -> int)
    ensures var bs := Bootstrap(minS, minT, maxS, maxT);
      forall b :: b in bs <==>
        || (b.s == minS && minT <= b.t < maxT(minS))
        || (minS < b.s < maxS && b.t == minT)
    ensures var bs := Bootstrap(minS, minT, maxS, maxT);
      forall i, j :: 0 <= i < j < |bs| ==> bs[i] != bs[j]
  {
    var bs := Bootstrap(minS, minT, maxS, maxT);
    var n := Max0(maxT(minS) - minT);
    forall b: Bidegree | minS < b.s < maxS && b.t == minT ensures b in bs {
      assert bs[n + b.s - minS - 1] == b;
    }
    forall b: Bidegree | b.s == minS && minT <= b.t < maxT(minS) ensures b in bs {
      assert bs[b.t - minT] == b;
    }
  }

  /** Every bootstrap call is made in bounds, and is ready from the start. */
  lemma BootstrapPlaced(minS: nat, minT: int, maxS: nat, maxT: nat -> int)
    ensures var bs := Bootstrap(minS, minT, maxS, maxT);
      PoolOk(bs, {}, minS, minT, maxS, maxT)
  {
  }

  /** Where a call may be made: its level and degree bounds. */
  ghost predicate Placed(b: Bidegree, minS: nat, minT: int, maxS: nat, maxT: nat -> int)
  {
    && minS <= b.s && (b.s > minS ==> b.s < maxS)
    && minT <= b.t && (b.t < maxT(b.s) || b.t == minT)
  }

  /** `b` may be computed: every `(b.s - 1, u)` with `min_t <= u < b.t` is done (nothing is asked of the first row). */
  ghost predicate Ready(done: set<Bidegree>, b: Bidegree, minS: nat, minT: int)
  {
    b.s > minS ==> RowDone(done, b.s - 1, minT, b.t)
  }

  /** The bidegrees of a list of calls. */
  function Points(cs: seq<Call>): set<Bidegree>
  {
    set i | 0 <= i < |cs| :: cs[i].at
  }

  function Ats(cs: seq<Call>): seq<Bidegree>
  {
    seq(|cs|, i requires 0 <= i < |cs| => cs[i].at)
  }

  /** Everything the calls of a trace unlocked, with multiplicity. */
  function Spawned(cs: seq<Call>, maxS: nat, maxT: nat -> int): multiset<Bidegree>
  {
    if cs == [] then multiset{}
    else
      var c := cs[|cs| - 1];
      Spawned(cs[..|cs| - 1], maxS, maxT) + multiset(Unlocked(c.at, c.ret, maxS, maxT))
  }

  /** Every call of the trace was made once the level below was far enough along. */
  ghost predicate Respects(trace: seq<Call>, minS: nat, minT: int)
  {
    forall i :: 0 <= i < |trace| ==> Ready(Points(trace[..i]), trace[i].at, minS, minT)
  }

  /** Every call of the trace returned what `f` returns given what was computed by then, itself included. */
  ghost predicate Reports(trace: seq<Call>, f: Step)
  {
    forall i :: 0 <= i < |trace| ==> trace[i].ret == f(Points(trace[..i + 1]), trace[i].at.s, trace[i].at.t)
  }

  // Termination: the pool's load

  /** Bidegrees of level `l` that may be unlocked: `max_t(l) - min_t` at most. */
  function Width(l: nat, minT: int, maxT: nat -> int): nat
  {
    Max0(maxT(l) - minT)
  }

  /** How many calls an item of level `l` can lead to, itself included. */
  function Cost(l: nat, minT: int, maxS: nat, maxT: nat -> int): (c: nat)
    ensures c >= 1
    decreases maxS - l
  {
    if l + 1 < maxS then 1 + Width(l + 1, minT, maxT) * Cost(l + 1, minT, maxS, maxT) else 1
  }

  function Load(ps: seq<Bidegree>, minT: int, maxS: nat, maxT: nat -> int): nat
  {
    if ps == [] then 0 else Load(ps[..|ps| - 1], minT, maxS, maxT) + Cost(ps[|ps| - 1].s, minT, maxS, maxT)
  }

  lemma {:induction false} LoadAppend(a: seq<Bidegree>, b: seq<Bidegree>, minT: int, maxS: nat, maxT: nat -> int)
    ensures Load(a + b, minT, maxS, maxT) == Load(a, minT, maxS, maxT) + Load(b, minT, maxS, maxT)
    decreases |b|
  {
    if b != [] {
      assert (a + b)[..|a + b| - 1] == a + b[..|b| - 1];
      LoadAppend(a, b[..|b| - 1], minT, maxS, maxT);
    } else {
      assert a + b == a;
    }
  }

  lemma {:induction false} LoadLevel(xs: seq<Bidegree>, l: nat, minT: int, maxS: nat, maxT: nat -> int)
    requires forall i :: 0 <= i < |xs| ==> xs[i].s == l
    ensures Load(xs, minT, maxS, maxT) == |xs| * Cost(l, minT, maxS, maxT)
  {
    if xs != [] {
      LoadLevel(xs[..|xs| - 1], l, minT, maxS, maxT);
    }
  }

  lemma MulMono(a: nat, b: nat, c: nat)
    requires a <= b
    ensures a * c <= b * c
  {
  }

  /**
   * Taking an item off the pool and putting back what it unlocks lowers the
   * load: what it unlocks lies at the next level and there are fewer than
   * `Width` of them.
   */
  lemma LoadDrops(pending: seq<Bidegree>, k: nat, u: seq<Bidegree>, minT: int, maxS: nat, maxT: nat -> int)
    requires k < |pending|
    requires pending[k].s + 1 >= maxS ==> u == []
    requires forall i :: 0 <= i < |u| ==> u[i].s == pending[k].s + 1
    requires pending[k].s + 1 < maxS ==> |u| <= Width(pending[k].s + 1, minT, maxT)
    ensures Load(pending[..k] + pending[k + 1..] + u, minT, maxS, maxT) < Load(pending, minT, maxS, maxT)
  {
    UnlockedLoad(u, pending[k].s, minT, maxS, maxT);
    LoadRemove(pending, k, minT, maxS, maxT);
    LoadAppend(pending[..k] + pending[k + 1..], u, minT, maxS, maxT);
  }

  /** Taking the `k`-th item off the pool takes its cost off the load. */
  lemma LoadRemove(pending: seq<Bidegree>, k: nat, minT: int, maxS: nat, maxT: nat -> int)
    requires k < |pending|
    ensures Load(pending[..k] + pending[k + 1..], minT, maxS, maxT) + Cost(pending[k].s, minT, maxS, maxT)
         == Load(pending, minT, maxS, maxT)
  {
    var a := pending[..k];
    var c := pending[k + 1..];
    assert pending == a + [pending[k]] + c;
    LoadSingle(pending[k], minT, maxS, maxT);
    LoadThree(a, [pending[k]], c, minT, maxS, maxT);
    LoadAppend(a, c, minT, maxS, maxT);
  }

  lemma LoadSingle(b: Bidegree, minT: int, maxS: nat, maxT: nat -> int)
    ensures Load([b], minT, maxS, maxT) == Cost(b.s, minT, maxS, maxT)
  {
    assert [b][..0] == [];
  }

  lemma LoadThree(a: seq<Bidegree>, b: seq<Bidegree>, c: seq<Bidegree>, minT: int, maxS: nat, maxT: nat -> int)
    ensures Load(a + b + c, minT, maxS, maxT) == Load(a, minT, maxS, maxT) + Load(b, minT, maxS, maxT) + Load(c, minT, maxS, maxT)
  {
    LoadAppend(a + b, c, minT, maxS, maxT);
    LoadAppend(a, b, minT, maxS, maxT);
  }

  /** What one item of level `l` unlocks weighs less than the item. */
  lemma UnlockedLoad(u: seq<Bidegree>, l: nat, minT: int, maxS: nat, maxT: nat -> int)
    requires l + 1 >= maxS ==> u == []
    requires forall i :: 0 <= i < |u| ==> u[i].s == l + 1
    requires l + 1 < maxS ==> |u| <= Width(l + 1, minT, maxT)
    ensures Load(u, minT, maxS, maxT) < Cost(l, minT, maxS, maxT)
  {
    if l + 1 < maxS {
      CostStep(l, minT, maxS, maxT);
      LoadLevel(u, l + 1, minT, maxS, maxT);
      FewerThanWidth(|u|, Width(l + 1, minT, maxT), Cost(l + 1, minT, maxS, maxT));
    }
  }

  lemma CostStep(l: nat, minT: int, maxS: nat, maxT: nat -> int)
    requires l + 1 < maxS
    ensures Cost(l, minT, maxS, maxT) == 1 + Width(l + 1, minT, maxT) * Cost(l + 1, minT, maxS, maxT)
  {
  }

  lemma FewerThanWidth(n: nat, w: nat, c: nat)
    requires n <= w
    ensures n * c < 1 + w * c
  {
    MulMono(n, w, c);
  }

  // The trace

  lemma PointsSnoc(cs: seq<Call>, c: Call)
    ensures Points(cs + [c]) == Points(cs) + {c.at}
    ensures forall i :: 0 <= i <= |cs| ==> (cs + [c])[..i] == cs[..i]
  {
    var cs' := cs + [c];
    forall b | b in Points(cs) + {c.at} ensures b in Points(cs') {
      if b == c.at {
        assert cs'[|cs|].at == b;
      } else {
        var i :| 0 <= i < |cs| && cs[i].at == b;
        assert cs'[i].at == b;
      }
    }
  }

  /** One more call keeps the trace's promises. */
  lemma TraceStep(trace: seq<Call>, c: Call, f: Step, minS: nat, minT: int)
    requires Respects(trace, minS, minT) && Reports(trace, f)
    requires Ready(Points(trace), c.at, minS, minT)
    requires c.ret == f(Points(trace) + {c.at}, c.at.s, c.at.t)
    ensures Respects(trace + [c], minS, minT) && Reports(trace + [c], f)
  {
    var t' := trace + [c];
    PointsSnoc(trace, c);
    forall i | 0 <= i < |t'| ensures Ready(Points(t'[..i]), t'[i].at, minS, minT) {
      if i < |trace| {
        assert t'[..i] == trace[..i];
      } else {
        assert t'[..i] == trace;
      }
    }
    forall i | 0 <= i < |t'| ensures t'[i].ret == f(Points(t'[..i + 1]), t'[i].at.s, t'[i].at.t) {
      if i < |trace| {
        assert t'[..i + 1] == trace[..i + 1];
      } else {
        assert t'[..i + 1] == t';
      }
    }
  }

  /** One more call adds its unlocked bidegrees to what the trace spawned. */
  lemma SpawnedSnoc(trace: seq<Call>, c: Call, maxS: nat, maxT: nat -> int)
    ensures Spawned(trace + [c], maxS, maxT) == Spawned(trace, maxS, maxT) + multiset(Unlocked(c.at, c.ret, maxS, maxT))
  {
    var t' := trace + [c];
    assert t'[..|t'| - 1] == trace;
    assert t'[|t'| - 1] == c;
  }

  lemma AtsSnoc(trace: seq<Call>, c: Call)
    ensures multiset(Ats(trace + [c])) == multiset(Ats(trace)) + multiset{c.at}
  {
    assert Ats(trace + [c]) == Ats(trace) + [c.at];
  }

  /** Taking the `k`-th item out of the pool. */
  lemma TakeOut(pending: seq<Bidegree>, k: nat)
    requires k < |pending|
    ensures multiset(pending) == multiset(pending[..k] + pending[k + 1..]) + multiset{pending[k]}
  {
    assert pending == pending[..k] + [pending[k]] + pending[k + 1..];
  }

  /** More being done keeps a bidegree ready. */
  lemma ReadyGrows(done: set<Bidegree>, more: set<Bidegree>, b: Bidegree, minS: nat, minT: int)
    requires done <= more && Ready(done, b, minS, minT)
    ensures Ready(more, b, minS, minT)
  {
  }

  /** Every bidegree of `ps` is in bounds and ready given `done`. */
  ghost predicate PoolOk(ps: seq<Bidegree>, done: set<Bidegree>, minS: nat, minT: int, maxS: nat, maxT: nat -> int)
  {
    forall i :: 0 <= i < |ps| ==> Placed(ps[i], minS, minT, maxS, maxT) && Ready(done, ps[i], minS, minT)
  }

  /** What the worklist loop keeps: the calls so far are sound and nothing was lost. */
  ghost predicate Progress(f: Step, minS: nat, minT: int, maxS: nat, maxT: nat -> int, trace: seq<Call>, pending: seq<Bidegree>)
  {
    && (forall i :: 0 <= i < |trace| ==> Placed(trace[i].at, minS, minT, maxS, maxT))
    && PoolOk(pending, Points(trace), minS, minT, maxS, maxT)
    && Respects(trace, minS, minT) && Reports(trace, f)
    && multiset(Ats(trace)) + multiset(pending)
       == multiset(Bootstrap(minS, minT, maxS, maxT)) + Spawned(trace, maxS, maxT)
  }

  /**
   * `iter_s_t`, run to completion on one thread. The trace lists the calls of
   * `f` in the order they were made, with what each returned. Every call is
   * made within the bounds, after the level below has got far enough, and
   * with what `f` returns at that point; the calls made are exactly the
   * bootstrap row and column and everything the calls unlocked, counted with
   * multiplicity.
   */
  method IterST(f: Step, minS: nat, minT: int, maxS: nat, maxT: nat -> int) returns (trace: seq<Call>)
    requires HonestStep(f, minT)
    ensures forall i :: 0 <= i < |trace| ==> Placed(trace[i].at, minS, minT, maxS, maxT)
    ensures Respects(trace, minS, minT)
    ensures Reports(trace, f)
    ensures multiset(Ats(trace)) == multiset(Bootstrap(minS, minT, maxS, maxT)) + Spawned(trace, maxS, maxT)
  {
    var pending := Bootstrap(minS, minT, maxS, maxT);
    BootstrapPlaced(minS, minT, maxS, maxT);
    var done: set<Bidegree> := {};
    trace := [];
    while pending != []
      invariant done == Points(trace)
      invariant Progress(f, minS, minT, maxS, maxT, trace, pending)
      decreases Load(pending, minT, maxS, maxT)
    {
      var k :| 0 <= k < |pending|;
      var b := pending[k];
      done := done + {b};
      var ret, unlocked := Run(f, maxS, maxT, done, b);
      ProgressStep(f, minS, minT, maxS, maxT, trace, pending, k, ret, unlocked);
      trace := trace + [Call(b, ret)];
      pending := pending[..k] + pending[k + 1..] + unlocked;
    }
  }

  /** One round of the loop keeps `Progress` and lowers the load. */
  lemma ProgressStep(f: Step, minS: nat, minT: int, maxS: nat, maxT: nat -> int,
                     trace: seq<Call>, pending: seq<Bidegree>, k: nat, ret: Range, u: seq<Bidegree>)
    requires HonestStep(f, minT)
    requires Progress(f, minS, minT, maxS, maxT, trace, pending)
    requires k < |pending|
    requires ret == f(Points(trace) + {pending[k]}, pending[k].s, pending[k].t)
    requires u == Unlocked(pending[k], ret, maxS, maxT)
    ensures Progress(f, minS, minT, maxS, maxT, trace + [Call(pending[k], ret)], pending[..k] + pending[k + 1..] + u)
    ensures Points(trace + [Call(pending[k], ret)]) == Points(trace) + {pending[k]}
    ensures Load(pending[..k] + pending[k + 1..] + u, minT, maxS, maxT) < Load(pending, minT, maxS, maxT)
  {
    var b := pending[k];
    var c := Call(b, ret);
    var done := Points(trace) + {b};
    UnlockedFacts(f, done, b, ret, u, minS, minT, maxS, maxT);
    LoadDrops(pending, k, u, minT, maxS, maxT);
    PointsSnoc(trace, c);
    TraceStep(trace, c, f, minS, minT);
    CountStep(trace, pending, k, c, multiset(Bootstrap(minS, minT, maxS, maxT)), maxS, maxT);
    PoolStep(pending, k, u, Points(trace), done, minS, minT, maxS, maxT);
    PlacedSnoc(trace, c, minS, minT, maxS, maxT);
  }

  lemma PlacedSnoc(trace: seq<Call>, c: Call, minS: nat, minT: int, maxS: nat, maxT: nat -> int)
    requires forall i :: 0 <= i < |trace| ==> Placed(trace[i].at, minS, minT, maxS, maxT)
    requires Placed(c.at, minS, minT, maxS, maxT)
    ensures forall i :: 0 <= i < |trace + [c]| ==> Placed((trace + [c])[i].at, minS, minT, maxS, maxT)
  {
  }

  /** One round of the loop moves a bidegree from the pool to the trace and adds what it unlocked to both sides. */
  lemma CountStep(trace: seq<Call>, pending: seq<Bidegree>, k: nat, c: Call, initial: multiset<Bidegree>,
                  maxS: nat, maxT: nat -> int)
    requires k < |pending| && c.at == pending[k]
    requires multiset(Ats(trace)) + multiset(pending) == initial + Spawned(trace, maxS, maxT)
    ensures multiset(Ats(trace + [c])) + multiset(pending[..k] + pending[k + 1..] + Unlocked(c.at, c.ret, maxS, maxT))
         == initial + Spawned(trace + [c], maxS, maxT)
  {
    SpawnedSnoc(trace, c, maxS, maxT);
    AtsSnoc(trace, c);
    TakeOut(pending, k);
    var rest := pending[..k] + pending[k + 1..];
    var u := Unlocked(c.at, c.ret, maxS, maxT);
    assert multiset(rest + u) == multiset(rest) + multiset(u);
    calc {
      multiset(Ats(trace + [c])) + multiset(rest + u);
      multiset(Ats(trace)) + multiset{c.at} + multiset(rest) + multiset(u);
      multiset(Ats(trace)) + multiset(pending) + multiset(u);
      initial + Spawned(trace, maxS, maxT) + multiset(u);
      initial + Spawned(trace + [c], maxS, maxT);
    }
  }

  /** Taking one bidegree out of the pool and adding what it unlocked keeps the pool sound. */
  lemma PoolStep(pending: seq<Bidegree>, k: nat, u: seq<Bidegree>, before: set<Bidegree>, done: set<Bidegree>,
                 minS: nat, minT: int, maxS: nat, maxT: nat -> int)
    requires k < |pending| && before <= done
    requires PoolOk(pending, before, minS, minT, maxS, maxT)
    requires PoolOk(u, done, minS, minT, maxS, maxT)
    ensures PoolOk(pending[..k] + pending[k + 1..] + u, done, minS, minT, maxS, maxT)
  {
    var next := pending[..k] + pending[k + 1..] + u;
    forall i | 0 <= i < |next|
      ensures Placed(next[i], minS, minT, maxS, maxT) && Ready(done, next[i], minS, minT)
    {
      if i < k {
        assert next[i] == pending[i];
        ReadyGrows(before, done, pending[i], minS, minT);
      } else if i < |pending| - 1 {
        assert next[i] == pending[i + 1];
        ReadyGrows(before, done, pending[i + 1], minS, minT);
      } else {
        assert next[i] == u[i - (|pending| - 1)];
      }
    }
  }

  /** What a call at an allowed place unlocks is allowed, ready and counted. */
  lemma UnlockedFacts(f: Step, done: set<Bidegree>, b: Bidegree, ret: Range, u: seq<Bidegree>,
                      minS: nat, minT: int, maxS: nat, maxT: nat -> int)
    requires HonestStep(f, minT) && b in done && Placed(b, minS, minT, maxS, maxT)
    requires ret == f(done, b.s, b.t) && u == Unlocked(b, ret, maxS, maxT)
    ensures PoolOk(u, done, minS, minT, maxS, maxT)
    ensures b.s + 1 >= maxS ==> u == []
    ensures forall i :: 0 <= i < |u| ==> u[i].s == b.s + 1
    ensures b.s + 1 < maxS ==> |u| <= Width(b.s + 1, minT, maxT)
  {
    assert ret.start == b.t;
  }
}
