/**
 * What the inspection engine promises, proved against an independent
 * reading of the chain: the maximal chain prefix `p` (a sequence, with no
 * identity map) and the events met along it.
 */
module InspectorProofs {
  import opened Options
  import opened Refs
  import opened Errors
  import opened Types
  import opened Chain
  import opened Inspector

  /**
   * The reference semantics of a traversal: hand the visited instances to
   * the visitor in order; the first stop, throw or contract violation ends it.
   */
  function Replay<K, V, S, T>(h: Heap<K, V>, evs: seq<Event>, visit: Visitor<K, V, S, T>, s: S): Outcome<S, T>
    requires VisitsIn(h, evs)
  {
    if evs == [] then Exhausted(s)
    else match evs[0]
      case Violation(e) => Failed(e)
      case Visit(id) =>
        match visit(s, id, h[id])
        case Stop(t) => Found(t)
        case Throw(e) => Failed(e)
        case Continue(s') => Replay(h, evs[1..], visit, s')
  }

  /** Replaying `a + b` replays `b` only when `a` is exhausted, from the state `a` left. */
  lemma {:induction false} ReplayAppend<K, V, S, T>(h: Heap<K, V>, a: seq<Event>, b: seq<Event>, visit: Visitor<K, V, S, T>, s: S)
    requires VisitsIn(h, a) && VisitsIn(h, b)
    ensures VisitsIn(h, a + b)
    ensures Replay(h, a + b, visit, s)
      == (var o := Replay(h, a, visit, s); if o.Exhausted? then Replay(h, b, visit, o.state) else o)
    decreases |a|
  {
    assert VisitsIn(h, a + b) by {
      forall i | 0 <= i < |a + b| && (a + b)[i].Visit? ensures (a + b)[i].id in h {
        if i < |a| { assert (a + b)[i] == a[i]; } else { assert (a + b)[i] == b[i - |a|]; }
      }
    }
    if a == [] {
      assert a + b == b;
    } else {
      assert (a + b)[0] == a[0];
      assert (a + b)[1..] == a[1..] + b;
      match a[0]
      case Violation(_) =>
      case Visit(id) =>
        match visit(s, id, h[id])
        case Stop(_) =>
        case Throw(_) =>
        case Continue(s') =>
          assert VisitsIn(h, a[1..]);
          ReplayAppend(h, a[1..], b, visit, s');
    }
  }

  /** The traversal's handling of an adaptee is the replay of that adapter's adaptee events. */
  lemma AdapteeReplays<K, V, S, T>(h: Heap<K, V>, w: NodeId, visit: Visitor<K, V, S, T>, s: S)
    requires Closed(h) && w in h
    ensures Replay(h, AdapteeEvents(h, w), visit, s)
      == match VisitAdaptee(h, w, visit, s)
         case Stop(t) => Found(t)
         case Throw(e) => Failed(e)
         case Continue(s') => Exhausted(s')
  {
    var evs := AdapteeEvents(h, w);
    if evs != [] {
      assert evs[1..] == [];
    }
  }

  /**
   * Walking from `p[i]`, with the instances before it as history, is the
   * replay of the events of `p[i..]` and of the way the chain ends.
   */
  lemma {:induction false} WalkReplaysSuffix<K, V, S, T>(h: Heap<K, V>, p: seq<NodeId>, i: nat, visit: Visitor<K, V, S, T>, s: S)
    requires Closed(h) && IsChainPrefix(h, p) && Maximal(h, p) && i < |p|
    ensures Elems(p[..i]) <= h.Keys && p[i] !in Elems(p[..i])
    ensures VisitsIn(h, BodyEvents(h, p[i..]) + EndEvents(h, p))
    ensures Walk(h, p[i], Elems(p[..i]), visit, s) == Replay(h, BodyEvents(h, p[i..]) + EndEvents(h, p), visit, s)
    decreases |p| - i
  {
    var w := p[i];
    var seen := Elems(p[..i]) + {w};
    assert Elems(p[..i + 1]) == seen by {
      assert p[..i + 1] == p[..i] + [w];
    }
    var rest := BodyEvents(h, p[i + 1..]) + EndEvents(h, p);
    assert p[i..][1..] == p[i + 1..];
    assert BodyEvents(h, p[i..]) == NodeEvents(h, w) + BodyEvents(h, p[i + 1..]);
    ReplayAppend(h, BodyEvents(h, p[i + 1..]), EndEvents(h, p), visit, s);
    ReplayAppend(h, NodeEvents(h, w), rest, visit, s);
    assert BodyEvents(h, p[i..]) + EndEvents(h, p) == NodeEvents(h, w) + rest;
    var n := h[w];
    match visit(s, w, n)
    case Stop(_) =>
    case Throw(_) =>
    case Continue(s1) =>
      assert NodeEvents(h, w)[1..] == AdapteeEvents(h, w);
      AdapteeReplays(h, w, visit, s1);
      match VisitAdaptee(h, w, visit, s1)
      case Stop(_) =>
      case Throw(_) =>
      case Continue(s2) =>
        if i == |p| - 1 {
          assert p[i + 1..] == [];
          assert rest == EndEvents(h, p);
          assert seen == Elems(p) by { assert p[..i + 1] == p; }
        } else {
          assert n.IsWrapper() && n.shape.unwrap == Obj(p[i + 1]);
          assert p[i + 1] !in seen;
          WalkReplaysSuffix(h, p, i + 1, visit, s2);
        }
  }

  /**
   * THE TRAVERSAL THEOREM. Starting at the root of a chain, `travelWrapperChain`
   * hands the visitor each chain instance and then (for an adapter) its checked
   * adaptee, returns the first present result without looking further, reports
   * the first broken contract it reaches, and is exhausted exactly at a base
   * that is not a `Wrapper`.
   */
  lemma TravelReplaysChain<K, V, S, T>(h: Heap<K, V>, p: seq<NodeId>, visit: Visitor<K, V, S, T>, s: S)
    requires Closed(h) && IsChainPrefix(h, p) && Maximal(h, p)
    ensures Travel(h, Obj(p[0]), visit, s) == Replay(h, Events(h, p), visit, s)
  {
    assert p[..0] == [] && Elems([]) == {};
    assert p[0..] == p;
    WalkReplaysSuffix(h, p, 0, visit, s);
  }

  /* ---------------------------------------------------------------------- */
  /* Contract violations                                                    */
  /* ---------------------------------------------------------------------- */

  lemma NoViolationAppend(a: seq<Event>, b: seq<Event>)
    ensures NoViolation(a + b) <==> NoViolation(a) && NoViolation(b)
  {
    if NoViolation(a) && NoViolation(b) {
      forall i | 0 <= i < |a + b| ensures (a + b)[i].Visit? {
        if i < |a| { assert (a + b)[i] == a[i]; } else { assert (a + b)[i] == b[i - |a|]; }
      }
    }
    if NoViolation(a + b) {
      forall i | 0 <= i < |a| ensures a[i].Visit? { assert (a + b)[i] == a[i]; }
      forall i | 0 <= i < |b| ensures b[i].Visit? { assert (a + b)[i + |a|] == b[i]; }
    }
  }

  /** `FirstViolation` finds a violation exactly when there is one, and nothing before it is one. */
  lemma {:induction false} FirstViolationIsFirst(evs: seq<Event>)
    ensures FirstViolation(evs).None? <==> NoViolation(evs)
    ensures FirstViolation(evs).Some? ==>
      exists i | 0 <= i < |evs| :: evs[i] == Violation(FirstViolation(evs).value) && NoViolation(evs[..i])
  {
    if evs == [] {
    } else if evs[0].Violation? {
      assert evs[..0] == [];
      assert evs[0] == Violation(FirstViolation(evs).value);
    } else {
      FirstViolationIsFirst(evs[1..]);
      assert evs == [evs[0]] + evs[1..];
      NoViolationAppend([evs[0]], evs[1..]);
      if FirstViolation(evs).Some? {
        var i :| 0 <= i < |evs[1..]| && evs[1..][i] == Violation(FirstViolation(evs).value) && NoViolation(evs[1..][..i]);
        assert evs[..i + 1] == [evs[0]] + evs[1..][..i];
        NoViolationAppend([evs[0]], evs[1..][..i]);
        assert evs[i + 1] == Violation(FirstViolation(evs).value);
      }
    }
  }

  /**
   * A visitor that neither stops nor throws leaves the outcome to the chain:
   * the traversal fails with the first broken contract, or is exhausted.
   */
  lemma {:induction false} ReplayTotal<K, V, S, T>(h: Heap<K, V>, evs: seq<Event>, visit: Visitor<K, V, S, T>, s: S)
    requires VisitsIn(h, evs)
    requires forall s', id, n :: visit(s', id, n).Continue?
    ensures Replay(h, evs, visit, s).Failed? <==> FirstViolation(evs).Some?
    ensures Replay(h, evs, visit, s).Failed? ==> Replay(h, evs, visit, s).error == FirstViolation(evs).value
    ensures !Replay(h, evs, visit, s).Found?
    decreases |evs|
  {
    if evs != [] && evs[0].Visit? {
      assert VisitsIn(h, evs[1..]);
      ReplayTotal(h, evs[1..], visit, visit(s, evs[0].id, h[evs[0].id]).state);
    }
  }

  /** Every event on `p` is a visit exactly when all adaptee contracts along `p` hold. */
  lemma {:induction false} NoViolationBody<K, V>(h: Heap<K, V>, p: seq<NodeId>)
    requires Closed(h) && forall i | 0 <= i < |p| :: p[i] in h
    ensures NoViolation(BodyEvents(h, p)) <==> forall i | 0 <= i < |p| :: AdapteeContract(h, p[i])
  {
    if p != [] {
      var a := AdapteeEvents(h, p[0]);
      NoViolationBody(h, p[1..]);
      NoViolationAppend([Visit(p[0])] + a, BodyEvents(h, p[1..]));
      NoViolationAppend([Visit(p[0])], a);
      assert NoViolation(a) <==> AdapteeContract(h, p[0]);
      if forall i | 0 <= i < |p| :: AdapteeContract(h, p[i]) {
        assert forall i | 0 <= i < |p[1..]| :: AdapteeContract(h, p[1..][i]) by {
          forall i | 0 <= i < |p[1..]| ensures AdapteeContract(h, p[1..][i]) { assert p[1..][i] == p[i + 1]; }
        }
      }
      if NoViolation(BodyEvents(h, p)) {
        forall i | 0 <= i < |p| ensures AdapteeContract(h, p[i]) {
          if i > 0 { assert p[i] == p[1..][i - 1]; }
        }
      }
    }
  }

  /** On a maximal chain prefix, nothing is violated exactly when the chain is well formed. */
  lemma NoViolationIsWellFormed<K, V>(h: Heap<K, V>, p: seq<NodeId>)
    requires Closed(h) && IsChainPrefix(h, p) && Maximal(h, p)
    ensures NoViolation(Events(h, p)) <==> WellFormedChain(h, p)
  {
    NoViolationAppend(BodyEvents(h, p), EndEvents(h, p));
    NoViolationBody(h, p);
    var e := EndEvents(h, p);
    assert NoViolation(e) <==> e == [];
  }

  /**
   * `verifyWrapperChainContracts(wrapper)` on the maximal chain prefix `p`
   * from the wrapper: it succeeds exactly when the chain is well formed, and
   * otherwise reports the first broken contract met along the chain.
   */
  lemma VerifyReportsFirstViolation<K, V>(h: Heap<K, V>, p: seq<NodeId>)
    requires Closed(h) && IsChainPrefix(h, p) && Maximal(h, p)
    ensures VerifyWrapperChainContracts(h, Obj(p[0])).Ok? <==> WellFormedChain(h, p)
    ensures VerifyWrapperChainContracts(h, Obj(p[0])).Err? ==>
      Some(VerifyWrapperChainContracts(h, Obj(p[0])).error) == FirstViolation(Events(h, p))
  {
    TravelReplaysChain(h, p, Skip(), ());
    ReplayTotal(h, Events(h, p), Skip(), ());
    FirstViolationIsFirst(Events(h, p));
    NoViolationIsWellFormed(h, p);
  }

  /** Every chain, whatever its shape, has a maximal prefix, so `verifyWrapperChainContracts` succeeds exactly on well-formed chains. */
  lemma VerifyAcceptsExactlyWellFormed<K, V>(h: Heap<K, V>, root: NodeId)
    requires Closed(h) && root in h
    ensures VerifyWrapperChainContracts(h, Obj(root)).Ok? <==> WellFormedChain(h, ChainOf(h, root))
  {
    VerifyReportsFirstViolation(h, ChainOf(h, root));
  }

  /**
   * A chain whose adaptees are sound but whose last instance is a `Wrapper`
   * with a null `unwrap` is reported as a null `unwrap` of that wrapper.
   */
  lemma NullUnwrapReported<K, V>(h: Heap<K, V>, p: seq<NodeId>)
    requires Closed(h) && IsChainPrefix(h, p)
    requires forall i | 0 <= i < |p| :: AdapteeContract(h, p[i])
    requires h[Last(p)].IsWrapper() && h[Last(p)].shape.unwrap.Null?
    ensures VerifyWrapperChainContracts(h, Obj(p[0])) == Err(NullPointer(UnwrapOf(h[Last(p)].cls)))
  {
    VerifyReportsFirstViolation(h, p);
    NoViolationBody(h, p);
    FirstViolationAfterVisits(BodyEvents(h, p), EndEvents(h, p));
  }

  /**
   * A chain whose adaptees are sound but whose last instance unwraps to an
   * instance already on it is reported as a cycle at that instance.
   */
  lemma CycleReported<K, V>(h: Heap<K, V>, p: seq<NodeId>, j: nat)
    requires Closed(h) && IsChainPrefix(h, p)
    requires forall i | 0 <= i < |p| :: AdapteeContract(h, p[i])
    requires j < |p| && h[Last(p)].IsWrapper() && h[Last(p)].shape.unwrap == Obj(p[j])
    ensures VerifyWrapperChainContracts(h, Obj(p[0])) == Err(CyclicChain(h[p[j]].cls))
  {
    VerifyReportsFirstViolation(h, p);
    NoViolationBody(h, p);
    FirstViolationAfterVisits(BodyEvents(h, p), EndEvents(h, p));
  }

  /**
   * A chain whose adaptees are sound before `p[j]` and broken at the adapter
   * `p[j]` is reported with the error `adapteeNonWrapper` raises there: a null
   * adaptee, or an adaptee that is itself a `Wrapper`.
   */
  lemma AdapteeViolationReported<K, V>(h: Heap<K, V>, p: seq<NodeId>, j: nat)
    requires Closed(h) && IsChainPrefix(h, p) && Maximal(h, p)
    requires j < |p| && (forall i | 0 <= i < j :: AdapteeContract(h, p[i])) && !AdapteeContract(h, p[j])
    ensures h[p[j]].IsAdapter()
    ensures VerifyWrapperChainContracts(h, Obj(p[0])) == Err(AdapteeNonWrapper(h, p[j]).error)
    ensures h[p[j]].shape.adaptee.Null? ==> VerifyWrapperChainContracts(h, Obj(p[0])) == Err(NullPointer(AdapteeOf(h[p[j]].cls)))
    ensures h[p[j]].shape.adaptee.Obj? ==>
      VerifyWrapperChainContracts(h, Obj(p[0])) == Err(AdapteeIsWrapper(h[h[p[j]].shape.adaptee.id].cls, h[p[j]].cls))
  {
    VerifyReportsFirstViolation(h, p);
    FirstViolationAtAdaptee(h, p, j);
  }

  /** The first violation on such a chain is the one its adapter `p[j]` adds. */
  lemma FirstViolationAtAdaptee<K, V>(h: Heap<K, V>, p: seq<NodeId>, j: nat)
    requires Closed(h) && (forall i | 0 <= i < |p| :: p[i] in h)
    requires j < |p| && (forall i | 0 <= i < j :: AdapteeContract(h, p[i])) && !AdapteeContract(h, p[j])
    ensures |AdapteeEvents(h, p[j])| == 1 && FirstViolation(Events(h, p)) == Some(AdapteeEvents(h, p[j])[0].error)
  {
    var before := p[..j];
    var x, y, z := BodyEvents(h, before), NodeEvents(h, p[j]), BodyEvents(h, p[j + 1..]) + EndEvents(h, p);
    assert Events(h, p) == x + (y + z) by {
      BodySplit(h, p, j);
    }
    assert NoViolation(x) by {
      NoViolationBody(h, before);
      forall i | 0 <= i < |before| ensures AdapteeContract(h, before[i]) { assert before[i] == p[i]; }
    }
    FirstViolationAfterVisits(x, y + z);
    FirstViolationAtAdapter(h, p[j], z);
  }

  /** Past the adapter itself, the first event of an adapter with a broken contract is the violation. */
  lemma FirstViolationAtAdapter<K, V>(h: Heap<K, V>, w: NodeId, tail: seq<Event>)
    requires Closed(h) && w in h && !AdapteeContract(h, w)
    ensures |AdapteeEvents(h, w)| == 1 && FirstViolation(NodeEvents(h, w) + tail) == Some(AdapteeEvents(h, w)[0].error)
  {
    var evs := NodeEvents(h, w) + tail;
    assert evs[0] == Visit(w) && evs[1..][0] == AdapteeEvents(h, w)[0];
  }

  /** The events of `p` split around its instance `p[j]`. */
  lemma BodySplit<K, V>(h: Heap<K, V>, p: seq<NodeId>, j: nat)
    requires Closed(h) && (forall i | 0 <= i < |p| :: p[i] in h) && j < |p|
    ensures BodyEvents(h, p) == BodyEvents(h, p[..j]) + NodeEvents(h, p[j]) + BodyEvents(h, p[j + 1..])
  {
    var before, after := p[..j], p[j + 1..];
    assert p == before + ([p[j]] + after);
    BodyAppend(h, before, [p[j]] + after);
    assert ([p[j]] + after)[1..] == after;
  }

  /** The events of two instance lists walked one after the other. */
  lemma {:induction false} BodyAppend<K, V>(h: Heap<K, V>, a: seq<NodeId>, b: seq<NodeId>)
    requires Closed(h) && (forall i | 0 <= i < |a| :: a[i] in h) && (forall i | 0 <= i < |b| :: b[i] in h)
    ensures BodyEvents(h, a + b) == BodyEvents(h, a) + BodyEvents(h, b)
  {
    if a == [] {
      assert a + b == b;
    } else {
      var ab := a + b;
      assert ab[0] == a[0] && ab[1..] == a[1..] + b;
      BodyAppend(h, a[1..], b);
      var x := NodeEvents(h, a[0]);
      calc {
        BodyEvents(h, ab);
        x + BodyEvents(h, a[1..] + b);
        x + (BodyEvents(h, a[1..]) + BodyEvents(h, b));
        (x + BodyEvents(h, a[1..])) + BodyEvents(h, b);
        BodyEvents(h, a) + BodyEvents(h, b);
      }
    }
  }

  lemma {:induction false} FirstViolationAfterVisits(a: seq<Event>, b: seq<Event>)
    requires NoViolation(a)
    ensures FirstViolation(a + b) == FirstViolation(b)
  {
    if a != [] {
      assert (a + b)[0] == a[0];
      assert (a + b)[1..] == a[1..] + b;
      assert NoViolation(a[1..]) by {
        forall i | 0 <= i < |a[1..]| ensures a[1..][i].Visit? { assert a[1..][i] == a[i + 1]; }
      }
      FirstViolationAfterVisits(a[1..], b);
    } else {
      assert a + b == b;
    }
  }

  /* ---------------------------------------------------------------------- */
  /* Well-formed chains                                                     */
  /* ---------------------------------------------------------------------- */

  lemma AsVisitsAppend(a: seq<NodeId>, b: seq<NodeId>)
    ensures AsVisits(a + b) == AsVisits(a) + AsVisits(b)
  {
  }

  /** When every adaptee contract holds, the events on `p` are visits to its instances. */
  lemma {:induction false} BodyIsInstances<K, V>(h: Heap<K, V>, p: seq<NodeId>)
    requires Closed(h) && forall i | 0 <= i < |p| :: p[i] in h
    requires forall i | 0 <= i < |p| :: AdapteeContract(h, p[i])
    ensures BodyEvents(h, p) == AsVisits(Instances(h, p))
    ensures forall i | 0 <= i < |Instances(h, p)| :: Instances(h, p)[i] in h
  {
    if p != [] {
      var n := h[p[0]];
      var here := if n.IsAdapter() && n.shape.adaptee.Obj? then [p[0], n.shape.adaptee.id] else [p[0]];
      assert AdapteeContract(h, p[0]);
      assert NodeEvents(h, p[0]) == AsVisits(here);
      assert forall i | 0 <= i < |p[1..]| :: AdapteeContract(h, p[1..][i]) by {
        forall i | 0 <= i < |p[1..]| ensures AdapteeContract(h, p[1..][i]) { assert p[1..][i] == p[i + 1]; }
      }
      BodyIsInstances(h, p[1..]);
      AsVisitsAppend(here, Instances(h, p[1..]));
      var all := Instances(h, p);
      assert all == here + Instances(h, p[1..]);
      forall i | 0 <= i < |all| ensures all[i] in h {
        if i >= |here| { assert all[i] == Instances(h, p[1..])[i - |here|]; }
      }
    }
  }

  /** On a well-formed chain the traversal meets no violation: it visits the instances, in order. */
  lemma WellFormedEvents<K, V>(h: Heap<K, V>, p: seq<NodeId>)
    requires WellFormedChain(h, p)
    ensures Maximal(h, p)
    ensures Events(h, p) == AsVisits(Instances(h, p))
    ensures forall i | 0 <= i < |Instances(h, p)| :: Instances(h, p)[i] in h
  {
    BodyIsInstances(h, p);
    assert EndEvents(h, p) == [];
  }

  /** The instances of a chain start at its root and end at its base. */
  lemma {:induction false} InstancesEnds<K, V>(h: Heap<K, V>, p: seq<NodeId>)
    requires Closed(h) && |p| > 0 && forall i | 0 <= i < |p| :: p[i] in h
    requires !h[Last(p)].IsAdapter()
    ensures |Instances(h, p)| >= |p|
    ensures Instances(h, p)[0] == p[0]
    ensures Instances(h, p)[|Instances(h, p)| - 1] == Last(p)
  {
    if |p| > 1 {
      InstancesEnds(h, p[1..]);
      assert Last(p[1..]) == Last(p);
    }
  }

  /** The reference meaning of `forEachOnWrapperChain`: run the action on each instance in turn; the first exception ends it. */
  function FoldActions<K, V, S>(h: Heap<K, V>, xs: seq<NodeId>, action: Action<K, V, S>, s: S): Result<S>
    requires forall i | 0 <= i < |xs| :: xs[i] in h
  {
    if xs == [] then Ok(s)
    else match action(s, xs[0], h[xs[0]])
      case Err(e) => Err(e)
      case Ok(s') => FoldActions(h, xs[1..], action, s')
  }

  lemma {:induction false} ReplayActions<K, V, S>(h: Heap<K, V>, xs: seq<NodeId>, action: Action<K, V, S>, s: S)
    requires forall i | 0 <= i < |xs| :: xs[i] in h
    ensures VisitsIn(h, AsVisits(xs))
    ensures Replay(h, AsVisits(xs), ActionVisitor(action), s)
      == match FoldActions(h, xs, action, s) case Ok(s') => Exhausted(s') case Err(e) => Failed(e)
  {
    if xs != [] {
      assert AsVisits(xs)[1..] == AsVisits(xs[1..]);
      match action(s, xs[0], h[xs[0]])
      case Err(_) =>
      case Ok(s') => ReplayActions(h, xs[1..], action, s');
    }
  }

  /** `forEachOnWrapperChain` on a well-formed chain runs the action on every instance, in order. */
  lemma ForEachOnWellFormedChain<K, V, S>(h: Heap<K, V>, p: seq<NodeId>, action: Action<K, V, S>, s: S)
    requires WellFormedChain(h, p)
    ensures forall i | 0 <= i < |Instances(h, p)| :: Instances(h, p)[i] in h
    ensures ForEachOnWrapperChain(h, Obj(p[0]), action, s) == FoldActions(h, Instances(h, p), action, s)
  {
    WellFormedEvents(h, p);
    TravelReplaysChain(h, p, ActionVisitor(action), s);
    ReplayActions(h, Instances(h, p), action, s);
  }

  /**
   * An action that never throws cannot hide a broken chain: `forEachOnWrapperChain`
   * fails exactly when `verifyWrapperChainContracts` does, with the same exception.
   */
  lemma ForEachChecksContracts<K, V, S>(h: Heap<K, V>, p: seq<NodeId>, action: Action<K, V, S>, s: S)
    requires Closed(h) && IsChainPrefix(h, p) && Maximal(h, p)
    requires forall s', id, n :: action(s', id, n).Ok?
    ensures ForEachOnWrapperChain(h, Obj(p[0]), action, s).Err? <==> VerifyWrapperChainContracts(h, Obj(p[0])).Err?
    ensures ForEachOnWrapperChain(h, Obj(p[0]), action, s).Err? ==>
      ForEachOnWrapperChain(h, Obj(p[0]), action, s).error == VerifyWrapperChainContracts(h, Obj(p[0])).error
  {
    TravelReplaysChain(h, p, ActionVisitor(action), s);
    ReplayTotal(h, Events(h, p), ActionVisitor(action), s);
    TravelReplaysChain(h, p, Skip(), ());
    ReplayTotal(h, Events(h, p), Skip(), ());
  }

  lemma {:induction false} CollectAppends<K, V>(h: Heap<K, V>, xs: seq<NodeId>, acc: seq<NodeId>)
    requires forall i | 0 <= i < |xs| :: xs[i] in h
    ensures FoldActions(h, xs, Collect(), acc) == Ok(acc + xs)
  {
    if xs == [] {
      assert acc + xs == acc;
    } else {
      assert Collect()(acc, xs[0], h[xs[0]]) == Ok(acc + [xs[0]]);
      CollectAppends(h, xs[1..], acc + [xs[0]]);
      assert acc + [xs[0]] + xs[1..] == acc + xs;
    }
  }

  /** `getInstancesOfWrapperChain` on a well-formed chain lists its instances, adaptees included. */
  lemma InstancesOfWellFormedChain<K, V>(h: Heap<K, V>, p: seq<NodeId>)
    requires WellFormedChain(h, p)
    ensures GetInstancesOfWrapperChain(h, Obj(p[0])) == Ok(Instances(h, p))
  {
    ForEachOnWellFormedChain(h, p, Collect(), []);
    CollectAppends(h, Instances(h, p), []);
    assert [] + Instances(h, p) == Instances(h, p);
  }

  lemma {:induction false} HoldKeepsLast<K, V>(h: Heap<K, V>, xs: seq<NodeId>, holder: Ref)
    requires forall i | 0 <= i < |xs| :: xs[i] in h
    ensures FoldActions(h, xs, Hold(), holder) == Ok(if xs == [] then holder else Obj(xs[|xs| - 1]))
  {
    if xs != [] {
      HoldKeepsLast(h, xs[1..], Obj(xs[0]));
    }
  }

  /**
   * `getBaseOfWrapperChain` on a well-formed chain is its last instance,
   * which is not a `Wrapper`, and which `unwrap` leaves where it is.
   */
  lemma BaseOfWellFormedChain<K, V>(h: Heap<K, V>, p: seq<NodeId>)
    requires WellFormedChain(h, p)
    ensures GetBaseOfWrapperChain(h, Obj(p[0])) == Ok(Obj(Last(p)))
    ensures !IsWrapper(h, Obj(Last(p)))
    ensures Unwrap(h, Obj(Last(p))) == Ok(Obj(Last(p)))
  {
    ForEachOnWellFormedChain(h, p, Hold(), Null);
    InstancesEnds(h, p);
    HoldKeepsLast(h, Instances(h, p), Null);
  }

  /** A chain of one non-`Wrapper` object is its own base. */
  lemma BaseOfNonWrapper<K, V>(h: Heap<K, V>, x: NodeId)
    requires Closed(h) && x in h && !h[x].IsWrapper()
    ensures GetBaseOfWrapperChain(h, Obj(x)) == Ok(Obj(x))
    ensures GetInstancesOfWrapperChain(h, Obj(x)) == Ok([x])
  {
    assert WellFormedChain(h, [x]);
    assert Instances(h, [x]) == [x];
    BaseOfWellFormedChain(h, [x]);
    InstancesOfWellFormedChain(h, [x]);
  }

  lemma {:induction false} ReplayTest<K, V>(h: Heap<K, V>, xs: seq<NodeId>, test: Test<K, V>)
    requires forall i | 0 <= i < |xs| :: xs[i] in h && test(xs[i], h[xs[i]]).Ok?
    ensures VisitsIn(h, AsVisits(xs))
    ensures Replay(h, AsVisits(xs), TestVisitor(test), ())
      == if exists i | 0 <= i < |xs| :: test(xs[i], h[xs[i]]).value then Found(true) else Exhausted(())
  {
    if xs != [] {
      assert AsVisits(xs)[1..] == AsVisits(xs[1..]);
      ReplayTest(h, xs[1..], test);
      if exists i | 0 <= i < |xs| :: test(xs[i], h[xs[i]]).value {
        var i :| 0 <= i < |xs| && test(xs[i], h[xs[i]]).value;
        if i > 0 { assert xs[1..][i - 1] == xs[i]; }
      } else {
        assert forall i | 0 <= i < |xs[1..]| :: !test(xs[1..][i], h[xs[1..][i]]).value by {
          forall i | 0 <= i < |xs[1..]| ensures !test(xs[1..][i], h[xs[1..][i]]).value { assert xs[1..][i] == xs[i + 1]; }
        }
      }
    }
  }

  /**
   * `testWrapperChain` on a well-formed chain, with a predicate that does
   * not throw there: true exactly when some instance satisfies it.
   */
  lemma TestOnWellFormedChain<K, V>(h: Heap<K, V>, p: seq<NodeId>, test: Test<K, V>)
    requires WellFormedChain(h, p)
    requires forall id | id in Instances(h, p) :: id in h && test(id, h[id]).Ok?
    ensures TestWrapperChain(h, Obj(p[0]), test)
      == Ok(exists i | 0 <= i < |Instances(h, p)| :: test(Instances(h, p)[i], h[Instances(h, p)[i]]).value)
  {
    var xs := Instances(h, p);
    WellFormedEvents(h, p);
    TravelReplaysChain(h, p, TestVisitor(test), ());
    assert forall i | 0 <= i < |xs| :: xs[i] in h && test(xs[i], h[xs[i]]).Ok? by {
      forall i | 0 <= i < |xs| ensures xs[i] in h && test(xs[i], h[xs[i]]).Ok? { assert xs[i] in xs; }
    }
    ReplayTest(h, xs, test);
  }

  /** `containsInstanceTypeOnWrapperChain` on a well-formed chain: true exactly when some instance is of the type. */
  lemma ContainsOnWellFormedChain<K, V>(env: TypeEnv, h: Heap<K, V>, p: seq<NodeId>, target: ClassId)
    requires WellFormedChain(h, p)
    ensures ContainsInstanceType(env, h, Obj(p[0]), Some(target))
      == Ok(exists i | 0 <= i < |Instances(h, p)| :: InstanceOf(env, h[Instances(h, p)[i]].cls, target))
  {
    WellFormedEvents(h, p);
    TestOnWellFormedChain(h, p, InstanceTest(env, target));
  }

  lemma {:induction false} ReplayAttachment<K, V>(h: Heap<K, V>, xs: seq<NodeId>, key: K, i: nat)
    requires forall j | 0 <= j < |xs| :: xs[j] in h
    requires i <= |xs| && forall j | 0 <= j < i :: !h[xs[j]].Holds(key)
    requires i < |xs| ==> h[xs[i]].Holds(key)
    ensures VisitsIn(h, AsVisits(xs))
    ensures Replay(h, AsVisits(xs), AttachmentVisitor(key), ())
      == if i < |xs| then Found(h[xs[i]].attachments.value[key]) else Exhausted(())
  {
    if xs != [] {
      assert AsVisits(xs)[1..] == AsVisits(xs[1..]);
      if i > 0 {
        assert forall j | 0 <= j < i - 1 :: !h[xs[1..][j]].Holds(key) by {
          forall j | 0 <= j < i - 1 ensures !h[xs[1..][j]].Holds(key) { assert xs[1..][j] == xs[j + 1]; }
        }
        if i < |xs| { assert xs[1..][i - 1] == xs[i]; }
        ReplayAttachment(h, xs[1..], key, i - 1);
      }
    }
  }

  /**
   * `getAttachmentFromWrapperChain` on a well-formed chain: the value held by
   * the outermost instance that holds `key`, or null when none does.
   */
  lemma AttachmentOnWellFormedChain<K, V>(h: Heap<K, V>, p: seq<NodeId>, key: K, i: nat)
    requires WellFormedChain(h, p)
    requires i <= |Instances(h, p)|
    requires forall j | 0 <= j < i :: !h[Instances(h, p)[j]].Holds(key)
    requires i < |Instances(h, p)| ==> h[Instances(h, p)[i]].Holds(key)
    ensures GetAttachmentFromWrapperChain(h, Obj(p[0]), Some(key))
      == if i < |Instances(h, p)| then Ok(Some(h[Instances(h, p)[i]].attachments.value[key])) else Ok(None)
  {
    WellFormedEvents(h, p);
    TravelReplaysChain(h, p, AttachmentVisitor(key), ());
    ReplayAttachment(h, Instances(h, p), key, i);
  }

  lemma {:induction false} BizFold<K, V>(env: TypeEnv, h: Heap<K, V>, xs: seq<NodeId>, biz: ClassId, i: nat)
    requires forall j | 0 <= j < |xs| :: xs[j] in h
    requires i <= |xs| && forall j | 0 <= j < i :: InstanceOf(env, h[xs[j]].cls, biz)
    requires i < |xs| ==> !InstanceOf(env, h[xs[i]].cls, biz)
    ensures FoldActions(h, xs, BizAction(env, Some(biz)), ())
      == if i < |xs| then Err(NotBizInstance(h[xs[i]].cls, biz)) else Ok(())
  {
    if xs != [] && i > 0 {
      assert forall j | 0 <= j < i - 1 :: InstanceOf(env, h[xs[1..][j]].cls, biz) by {
        forall j | 0 <= j < i - 1 ensures InstanceOf(env, h[xs[1..][j]].cls, biz) { assert xs[1..][j] == xs[j + 1]; }
      }
      if i < |xs| { assert xs[1..][i - 1] == xs[i]; }
      BizFold(env, h, xs[1..], biz, i - 1);
    }
  }

  /**
   * `verifyWrapperChainContracts(wrapper, bizInterface)` on a well-formed
   * chain: it succeeds when every instance is of the business type, and
   * otherwise names the outermost instance that is not.
   */
  lemma VerifyBizOnWellFormedChain<K, V>(env: TypeEnv, h: Heap<K, V>, p: seq<NodeId>, biz: ClassId, i: nat)
    requires WellFormedChain(h, p)
    requires i <= |Instances(h, p)|
    requires forall j | 0 <= j < i :: InstanceOf(env, h[Instances(h, p)[j]].cls, biz)
    requires i < |Instances(h, p)| ==> !InstanceOf(env, h[Instances(h, p)[i]].cls, biz)
    ensures VerifyWrapperChainContractsBiz(env, h, Obj(p[0]), Some(biz))
      == if i < |Instances(h, p)| then Err(NotBizInstance(h[Instances(h, p)[i]].cls, biz)) else Ok(())
  {
    ForEachOnWellFormedChain(h, p, BizAction(env, Some(biz)), ());
    BizFold(env, h, Instances(h, p), biz, i);
  }
}
