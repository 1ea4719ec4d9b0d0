/**
 * The walking loop of the two legacy APIs (`wrain`, `wract`). They follow
 * `unwrap` with no history, so a cyclic chain makes them loop forever.
 *
 * A loop body looks at the current reference and either returns, moves to
 * another reference, or stays where it is. `Run` evaluates such a loop and
 * reports `Diverges` as soon as the walk reaches a reference it has already
 * been at: the body is a function of the reference, so from there on the
 * loop repeats itself. `Iterate`, a plain step-by-step reading of the loop,
 * justifies that: `Run` returns `v` exactly when some number of steps
 * finishes with `v`, and diverges exactly when no number of steps finishes.
 */
module LegacyLoop {
  import opened Options
  import opened Refs
  import opened Errors

  datatype Action<T> = Return(value: T) | MoveTo(next: Ref) | Stay

  datatype Outcome<T> = Returns(value: T) | Diverges

  /** Every reference a loop over the graph `h` can be at. */
  function Universe<N>(h: map<NodeId, N>): (u: set<Ref>)
    ensures Null in u
    ensures forall id | id in h :: Obj(id) in u
    ensures forall r | r in u :: RefIn(r, h.Keys)
  {
    {Null} + set id | id in h :: Obj(id)
  }

  lemma InUniverse<N>(h: map<NodeId, N>, r: Ref)
    requires RefIn(r, h.Keys)
    ensures r in Universe(h)
  {
    if r.Obj? {
      assert r == Obj(r.id);
    }
  }

  /** The body never moves outside `universe`. */
  ghost predicate Moves<T>(universe: set<Ref>, body: Ref -> Action<T>) {
    forall r | r in universe :: body(r).MoveTo? ==> body(r).next in universe
  }

  function Run<T>(universe: set<Ref>, body: Ref -> Action<T>, at: Ref, history: set<Ref>): Outcome<T>
    requires Moves(universe, body) && at in universe && history <= universe && at !in history
    decreases universe - history
  {
    match body(at)
    case Return(v) => Returns(v)
    case Stay => Diverges
    case MoveTo(next) =>
      if next in history || next == at then Diverges
      else Run(universe, body, next, history + {at})
  }

  /* ---------------------------------------------------------------------- */
  /* Step-by-step reading                                                   */
  /* ---------------------------------------------------------------------- */

  datatype State<T> = Running(at: Ref) | Finished(value: T)

  function Step<T>(body: Ref -> Action<T>, st: State<T>): State<T> {
    match st
    case Finished(_) => st
    case Running(at) =>
      match body(at)
      case Return(v) => Finished(v)
      case MoveTo(next) => Running(next)
      case Stay => st
  }

  function Iterate<T>(body: Ref -> Action<T>, st: State<T>, k: nat): State<T>
    decreases k
  {
    if k == 0 then st else Iterate(body, Step(body, st), k - 1)
  }

  /** A finished loop stays finished with the same value. */
  lemma {:induction false} FinishedStays<T>(body: Ref -> Action<T>, v: T, k: nat)
    ensures Iterate(body, Finished(v), k) == Finished(v)
  {
    if k > 0 {
      FinishedStays(body, v, k - 1);
    }
  }

  /** When `Run` returns, the loop finishes with that value after `k` steps. */
  lemma {:induction false} ReturnsFinishes<T>(universe: set<Ref>, body: Ref -> Action<T>, at: Ref, history: set<Ref>)
    returns (k: nat)
    requires Moves(universe, body) && at in universe && history <= universe && at !in history
    requires Run(universe, body, at, history).Returns?
    ensures Iterate(body, Running(at), k) == Finished(Run(universe, body, at, history).value)
    decreases universe - history
  {
    match body(at)
    case Return(v) =>
      k := 1;
    case MoveTo(next) =>
      var k' := ReturnsFinishes(universe, body, next, history + {at});
      k := k' + 1;
  }

  /** No step leaves `s`, and nothing in it returns. */
  ghost predicate Trap<T>(body: Ref -> Action<T>, s: set<Ref>) {
    forall r | r in s :: body(r).Stay? || (body(r).MoveTo? && body(r).next in s)
  }

  /**
   * When `Run` diverges, the references it walked (each of which moved on
   * to the next) together with the current one form a trap.
   */
  lemma {:induction false} DivergesTraps<T>(universe: set<Ref>, body: Ref -> Action<T>, at: Ref, history: set<Ref>)
    returns (s: set<Ref>)
    requires Moves(universe, body) && at in universe && history <= universe && at !in history
    requires Run(universe, body, at, history).Diverges?
    requires forall r | r in history :: body(r).MoveTo? && body(r).next in history + {at}
    ensures history + {at} <= s && Trap(body, s)
    decreases universe - history
  {
    match body(at)
    case Stay =>
      s := history + {at};
    case MoveTo(next) =>
      if next in history || next == at {
        s := history + {at};
      } else {
        s := DivergesTraps(universe, body, next, history + {at});
      }
  }

  lemma {:induction false} TrappedRuns<T>(body: Ref -> Action<T>, s: set<Ref>, at: Ref, k: nat)
    requires Trap(body, s) && at in s
    ensures Iterate(body, Running(at), k).Running?
    decreases k
  {
    if k > 0 {
      var next := if body(at).Stay? then at else body(at).next;
      assert Step(body, Running(at)) == Running(next);
      TrappedRuns(body, s, next, k - 1);
    }
  }

  /**
   * `Run` is faithful to the loop: from `start`, it returns `v` exactly when
   * the loop finishes with `v` after some number of steps, and it diverges
   * exactly when the loop runs forever.
   */
  lemma RunIsFaithful<T>(universe: set<Ref>, body: Ref -> Action<T>, start: Ref)
    requires Moves(universe, body) && start in universe
    ensures Run(universe, body, start, {}).Returns? ==>
      exists k: nat :: Iterate(body, Running(start), k) == Finished(Run(universe, body, start, {}).value)
    ensures Run(universe, body, start, {}).Diverges? ==> forall k: nat :: Iterate(body, Running(start), k).Running?
  {
    if Run(universe, body, start, {}).Returns? {
      var k := ReturnsFinishes(universe, body, start, {});
    } else {
      var s := DivergesTraps(universe, body, start, {});
      forall k: nat ensures Iterate(body, Running(start), k).Running? {
        TrappedRuns(body, s, start, k);
      }
    }
  }

  /* ---------------------------------------------------------------------- */
  /* Walks along a path                                                     */
  /* ---------------------------------------------------------------------- */

  function RefSet(p: seq<Ref>): set<Ref> {
    set r | r in p
  }

  ghost predicate Distinct(p: seq<Ref>) {
    forall i, j | 0 <= i < j < |p| :: p[i] != p[j]
  }

  /** The body moves from each reference of `p` to the next one. */
  ghost predicate Linked<T>(body: Ref -> Action<T>, p: seq<Ref>) {
    forall j | 0 <= j < |p| - 1 :: body(p[j]) == MoveTo(p[j + 1])
  }

  /** A loop that walks a path of distinct references and returns at its end returns that value. */
  lemma {:induction false} RunAlongPath<T>(universe: set<Ref>, body: Ref -> Action<T>, p: seq<Ref>, v: T, i: nat)
    requires Moves(universe, body) && Distinct(p) && Linked(body, p)
    requires i < |p| && (forall j | 0 <= j < |p| :: p[j] in universe)
    requires body(p[|p| - 1]) == Return(v)
    ensures RefSet(p[..i]) <= universe && p[i] !in RefSet(p[..i])
    ensures Run(universe, body, p[i], RefSet(p[..i])) == Returns(v)
    decreases |p| - i
  {
    assert RefSet(p[..i + 1]) == RefSet(p[..i]) + {p[i]} by {
      assert p[..i + 1] == p[..i] + [p[i]];
    }
    if i < |p| - 1 {
      assert p[i + 1] !in RefSet(p[..i + 1]);
      RunAlongPath(universe, body, p, v, i + 1);
    }
  }

  /** A loop that walks a path of distinct references and then stays or steps back onto it diverges. */
  lemma {:induction false} RunAroundCycle<T>(universe: set<Ref>, body: Ref -> Action<T>, p: seq<Ref>, i: nat)
    requires Moves(universe, body) && Distinct(p) && Linked(body, p)
    requires i < |p| && (forall j | 0 <= j < |p| :: p[j] in universe)
    requires body(p[|p| - 1]).Stay? || (body(p[|p| - 1]).MoveTo? && body(p[|p| - 1]).next in p)
    ensures RefSet(p[..i]) <= universe && p[i] !in RefSet(p[..i])
    ensures Run(universe, body, p[i], RefSet(p[..i])) == Diverges
    decreases |p| - i
  {
    assert RefSet(p[..i + 1]) == RefSet(p[..i]) + {p[i]} by {
      assert p[..i + 1] == p[..i] + [p[i]];
    }
    if i < |p| - 1 {
      assert p[i + 1] !in RefSet(p[..i + 1]);
      RunAroundCycle(universe, body, p, i + 1);
    } else if body(p[i]).MoveTo? {
      assert p == p[..i + 1];
    }
  }

  /* ---------------------------------------------------------------------- */
  /* The shared `check` loop                                                */
  /* ---------------------------------------------------------------------- */

  /** How a legacy package reads an object: `Some(unwrap)` for a `Wrapper` of that package, `None` otherwise. */
  type UnwrapOf<!N> = N -> Option<Ref>

  /** Every `unwrap` of the graph is null or points into it. */
  ghost predicate LegacyClosed<N>(h: map<NodeId, N>, unwrapOf: UnwrapOf<N>) {
    forall id | id in h :: unwrapOf(h[id]).Some? ==> RefIn(unwrapOf(h[id]).value, h.Keys)
  }

  predicate IsLegacyWrapper<N>(h: map<NodeId, N>, unwrapOf: UnwrapOf<N>, r: Ref) {
    r.Obj? && r.id in h && unwrapOf(h[r.id]).Some?
  }

  /** The next reference after a `Wrapper`. */
  function Next<N>(h: map<NodeId, N>, unwrapOf: UnwrapOf<N>, r: Ref): Ref
    requires IsLegacyWrapper(h, unwrapOf, r)
  {
    unwrapOf(h[r.id]).value
  }

  /** `while (w instanceof Wrapper) { if (test(w)) return true; w = unwrap(w); } return false;` */
  function CheckBody<N>(h: map<NodeId, N>, unwrapOf: UnwrapOf<N>, test: (NodeId, N) -> Result<bool>): Ref -> Action<Result<bool>> {
    (r: Ref) =>
      if !IsLegacyWrapper(h, unwrapOf, r) then Return(Ok(false))
      else match test(r.id, h[r.id])
        case Err(e) => Return(Err(e))
        case Ok(b) => if b then Return(Ok(true)) else MoveTo(Next(h, unwrapOf, r))
  }

  lemma CheckBodyMoves<N>(h: map<NodeId, N>, unwrapOf: UnwrapOf<N>, test: (NodeId, N) -> Result<bool>)
    requires LegacyClosed(h, unwrapOf)
    ensures Moves(Universe(h), CheckBody(h, unwrapOf, test))
  {
    forall r | r in Universe(h) && CheckBody(h, unwrapOf, test)(r).MoveTo?
      ensures CheckBody(h, unwrapOf, test)(r).next in Universe(h)
    {
      assert RefIn(Next(h, unwrapOf, r), h.Keys);
    }
  }

  /** `check(wrapper, predicate)` of either legacy package; a throwing predicate ends the loop with its exception. */
  function Check<N>(h: map<NodeId, N>, unwrapOf: UnwrapOf<N>, wrapper: Ref, test: (NodeId, N) -> Result<bool>)
    : (r: Outcome<Result<bool>>)
    requires LegacyClosed(h, unwrapOf) && RefIn(wrapper, h.Keys)
    ensures !IsLegacyWrapper(h, unwrapOf, wrapper) ==> r == Returns(Ok(false))
    ensures IsLegacyWrapper(h, unwrapOf, wrapper) && test(wrapper.id, h[wrapper.id]) != Ok(false)
      ==> r == Returns(test(wrapper.id, h[wrapper.id]))
  {
    CheckBodyMoves(h, unwrapOf, test);
    InUniverse(h, wrapper);
    Run(Universe(h), CheckBody(h, unwrapOf, test), wrapper, {})
  }

  /** `p` lists distinct `Wrapper`s, each unwrapping to the next. */
  ghost predicate IsPath<N>(h: map<NodeId, N>, unwrapOf: UnwrapOf<N>, p: seq<NodeId>) {
    && |p| > 0
    && (forall i | 0 <= i < |p| :: p[i] in h && unwrapOf(h[p[i]]).Some?)
    && (forall i, j | 0 <= i < j < |p| :: p[i] != p[j])
    && (forall i | 0 <= i < |p| - 1 :: unwrapOf(h[p[i]]) == Some(Obj(p[i + 1])))
  }

  /** `p` is a whole legacy chain: a path whose last `Wrapper` unwraps to `end`, which is null or not a `Wrapper`. */
  ghost predicate IsRun<N>(h: map<NodeId, N>, unwrapOf: UnwrapOf<N>, p: seq<NodeId>, end: Ref) {
    && IsPath(h, unwrapOf, p)
    && unwrapOf(h[p[|p| - 1]]) == Some(end)
    && RefIn(end, h.Keys)
    && !IsLegacyWrapper(h, unwrapOf, end)
  }

  /** `p` is a cyclic legacy chain: a path whose last `Wrapper` unwraps to `p[k]`. */
  ghost predicate IsCycle<N>(h: map<NodeId, N>, unwrapOf: UnwrapOf<N>, p: seq<NodeId>, k: nat) {
    && IsPath(h, unwrapOf, p)
    && k < |p|
    && unwrapOf(h[p[|p| - 1]]) == Some(Obj(p[k]))
  }

  function Objs(p: seq<NodeId>): (q: seq<Ref>)
    ensures |q| == |p| && forall i | 0 <= i < |p| :: q[i] == Obj(p[i])
  {
    if p == [] then [] else [Obj(p[0])] + Objs(p[1..])
  }

  /** The body moves on from each of the first `n` `Wrapper`s of `p`. */
  ghost predicate MovesOn<N, T>(h: map<NodeId, N>, unwrapOf: UnwrapOf<N>, body: Ref -> Action<T>, p: seq<NodeId>, n: nat)
    requires n <= |p| && forall i | 0 <= i < |p| :: p[i] in h && unwrapOf(h[p[i]]).Some?
  {
    forall j | 0 <= j < n :: body(Obj(p[j])) == MoveTo(Next(h, unwrapOf, Obj(p[j])))
  }

  /** Walking the first `n` objects of a path visits distinct references of the graph, each moving to the next. */
  lemma PathOfWalk<N, T>(h: map<NodeId, N>, unwrapOf: UnwrapOf<N>, body: Ref -> Action<T>, p: seq<NodeId>, n: nat)
    requires IsPath(h, unwrapOf, p) && 0 < n <= |p| && MovesOn(h, unwrapOf, body, p, n - 1)
    ensures Distinct(Objs(p[..n])) && (forall j | 0 <= j < n :: Objs(p[..n])[j] in Universe(h))
    ensures Linked(body, Objs(p[..n]))
    ensures Objs(p[..n])[0] == Obj(p[0]) && Objs(p[..n])[n - 1] == Obj(p[n - 1])
  {
    var q := Objs(p[..n]);
    assert forall j | 0 <= j < n :: q[j] == Obj(p[j]);
    forall a, b | 0 <= a < b < n ensures q[a] != q[b] {
      assert q[a] == Obj(p[a]) && q[b] == Obj(p[b]);
    }
    forall j | 0 <= j < n - 1 ensures body(q[j]) == MoveTo(q[j + 1]) {
      assert q[j] == Obj(p[j]) && q[j + 1] == Obj(p[j + 1]);
    }
  }

  /**
   * A body that moves on from the first `i` `Wrapper`s of a whole chain and
   * returns `v` at the next reference (a `Wrapper`, or the chain's end) returns `v`.
   */
  lemma WalkOnRun<N, T>(h: map<NodeId, N>, unwrapOf: UnwrapOf<N>, body: Ref -> Action<T>, p: seq<NodeId>, end: Ref, i: nat, v: T)
    requires IsRun(h, unwrapOf, p, end) && Moves(Universe(h), body)
    requires i <= |p| && MovesOn(h, unwrapOf, body, p, i)
    requires body(if i < |p| then Obj(p[i]) else end) == Return(v)
    ensures Obj(p[0]) in Universe(h)
    ensures Run(Universe(h), body, Obj(p[0]), {}) == Returns(v)
  {
    var u := Universe(h);
    if i < |p| {
      PathOfWalk(h, unwrapOf, body, p, i + 1);
      var q := Objs(p[..i + 1]);
      RunAlongPath(u, body, q, v, 0);
      assert RefSet(q[..0]) == {};
    } else {
      PathOfWalk(h, unwrapOf, body, p, |p|);
      assert p[..|p|] == p;
      var q := Objs(p) + [end];
      assert Linked(body, q) by {
        forall j | 0 <= j < |q| - 1 ensures body(q[j]) == MoveTo(q[j + 1]) {
          assert q[j] == Obj(p[j]);
          if j < |p| - 1 { assert q[j + 1] == Obj(p[j + 1]); } else { assert q[j + 1] == end; }
        }
      }
      assert Distinct(q) by {
        forall a, b | 0 <= a < b < |q| ensures q[a] != q[b] {
          assert q[a] == Obj(p[a]);
          if b < |p| { assert q[b] == Obj(p[b]); }
        }
      }
      InUniverse(h, end);
      RunAlongPath(u, body, q, v, 0);
      assert q[0] == Obj(p[0]) && RefSet(q[..0]) == {};
    }
  }

  /** A body that moves on along a path and then stays where it is diverges. */
  lemma WalkIntoStay<N, T>(h: map<NodeId, N>, unwrapOf: UnwrapOf<N>, body: Ref -> Action<T>, p: seq<NodeId>, i: nat)
    requires IsPath(h, unwrapOf, p) && Moves(Universe(h), body)
    requires i < |p| && MovesOn(h, unwrapOf, body, p, i) && body(Obj(p[i])).Stay?
    ensures Obj(p[0]) in Universe(h)
    ensures Run(Universe(h), body, Obj(p[0]), {}) == Diverges
  {
    PathOfWalk(h, unwrapOf, body, p, i + 1);
    var q := Objs(p[..i + 1]);
    RunAroundCycle(Universe(h), body, q, 0);
    assert RefSet(q[..0]) == {};
  }

  /** A body that moves on from every `Wrapper` of a cycle diverges. */
  lemma WalkOnCycle<N, T>(h: map<NodeId, N>, unwrapOf: UnwrapOf<N>, body: Ref -> Action<T>, p: seq<NodeId>, k: nat)
    requires IsCycle(h, unwrapOf, p, k) && Moves(Universe(h), body)
    requires MovesOn(h, unwrapOf, body, p, |p|)
    ensures Obj(p[0]) in Universe(h)
    ensures Run(Universe(h), body, Obj(p[0]), {}) == Diverges
  {
    var n := |p|;
    PathOfWalk(h, unwrapOf, body, p, n);
    assert p[..n] == p;
    var q := Objs(p);
    assert q[n - 1] == Obj(p[n - 1]) && q[k] == Obj(p[k]);
    assert Next(h, unwrapOf, Obj(p[n - 1])) == Obj(p[k]);
    assert body(q[n - 1]) == MoveTo(q[k]);
    RunAroundCycle(Universe(h), body, q, 0);
    assert RefSet(q[..0]) == {};
  }

  /**
   * `check` on a legacy chain returns the first result of the predicate
   * that is not `false` (true, or its exception), or false at the end;
   * the object at the end, not being a `Wrapper`, is never tested.
   */
  lemma CheckOnRun<N>(h: map<NodeId, N>, unwrapOf: UnwrapOf<N>, p: seq<NodeId>, end: Ref, test: (NodeId, N) -> Result<bool>, i: nat)
    requires LegacyClosed(h, unwrapOf) && IsRun(h, unwrapOf, p, end)
    requires i <= |p| && forall j | 0 <= j < i :: test(p[j], h[p[j]]) == Ok(false)
    requires i < |p| ==> test(p[i], h[p[i]]) != Ok(false)
    ensures Check(h, unwrapOf, Obj(p[0]), test) == Returns(if i < |p| then test(p[i], h[p[i]]) else Ok(false))
  {
    CheckBodyMoves(h, unwrapOf, test);
    WalkOnRun(h, unwrapOf, CheckBody(h, unwrapOf, test), p, end, i, if i < |p| then test(p[i], h[p[i]]) else Ok(false));
  }

  /** `check` on a cycle whose every element fails the predicate never returns. */
  lemma CheckOnCycle<N>(h: map<NodeId, N>, unwrapOf: UnwrapOf<N>, p: seq<NodeId>, k: nat, test: (NodeId, N) -> Result<bool>)
    requires LegacyClosed(h, unwrapOf) && IsCycle(h, unwrapOf, p, k)
    requires forall j | 0 <= j < |p| :: test(p[j], h[p[j]]) == Ok(false)
    ensures Check(h, unwrapOf, Obj(p[0]), test) == Diverges
  {
    CheckBodyMoves(h, unwrapOf, test);
    WalkOnCycle(h, unwrapOf, CheckBody(h, unwrapOf, test), p, k);
  }

  /**
   * With a predicate that never throws, `check` on a legacy chain answers
   * exactly whether some `Wrapper` of the chain satisfies it.
   */
  lemma CheckOnRunAnswersAny<N>(h: map<NodeId, N>, unwrapOf: UnwrapOf<N>, p: seq<NodeId>, end: Ref, test: (NodeId, N) -> Result<bool>)
    requires LegacyClosed(h, unwrapOf) && IsRun(h, unwrapOf, p, end)
    requires forall j | 0 <= j < |p| :: test(p[j], h[p[j]]).Ok?
    ensures Check(h, unwrapOf, Obj(p[0]), test) == Returns(Ok(exists j | 0 <= j < |p| :: test(p[j], h[p[j]]) == Ok(true)))
  {
    var i := 0;
    while i < |p| && test(p[i], h[p[i]]) == Ok(false)
      invariant i <= |p| && forall j | 0 <= j < i :: test(p[j], h[p[j]]) == Ok(false)
    {
      i := i + 1;
    }
    CheckOnRun(h, unwrapOf, p, end, test, i);
  }
}
