/** The reachability loop over strategy dependencies: what it accepts, and why a rejected closed
    relation really has a cycle. */
module BundleAcyclic {
  import opened PythonText
  import opened Refs

  /** For each local label the labels it depends on. */
  type Dependencies = map<Str, set<Str>>

  predicate Closed(g: Dependencies) {
    forall node | node in g :: g[node] <= g.Keys
  }

  /** Labels, each once and each after what it depends on. */
  ghost predicate Ordered(g: Dependencies, order: seq<Str>) {
    && Distinct(order)
    && forall i | 0 <= i < |order| && order[i] in g :: g[order[i]] <= Elements(order[..i])
  }

  /** A topological order of all labels. */
  ghost predicate TopologicalOrder(g: Dependencies, order: seq<Str>) {
    Ordered(g, order) && Elements(order) == g.Keys
  }

  /** Each node depends on the next one. */
  ghost predicate Walk(g: Dependencies, path: seq<Str>) {
    && (forall i | 0 <= i < |path| :: path[i] in g)
    && (forall i | 0 <= i < |path| - 1 :: path[i + 1] in g[path[i]])
  }

  ghost predicate Cycle(g: Dependencies, path: seq<Str>) {
    path != [] && Walk(g, path) && path[0] in g[path[|path| - 1]]
  }

  ghost predicate HasCycleWithin(g: Dependencies, labels: set<Str>) {
    exists path :: Cycle(g, path) && Elements(path) <= labels
  }

  /** The labels that one more round reaches. */
  function NewlyReachable(g: Dependencies, reachable: set<Str>): set<Str> {
    (set node | node in g && g[node] <= reachable) - reachable
  }

  // ----- The loop -----------------------------------------------------------------------

  /** `_verify_acyclic`; the order in which labels became reachable is kept as the witness. */
  method VerifyAcyclic(g: Dependencies) returns (accepted: bool, ghost order: seq<Str>, ghost stuck: set<Str>)
    ensures accepted ==> TopologicalOrder(g, order)
    ensures !accepted && Closed(g) ==> HasCycleWithin(g, stuck) && stuck <= g.Keys
    ensures accepted <==> Closed(g) && !HasCycleWithin(g, g.Keys)
  {
    hide Ordered, HasCycleWithin, Closed;
    order, stuck := [], {};
    NothingIsOrdered(g);
    if !Closed(g) {
      return false, order, stuck;
    }
    var reachable: set<Str> := {};
    while true
      invariant reachable <= g.Keys && Elements(order) == reachable && Ordered(g, order)
      invariant Closed(g)
      decreases g.Keys - reachable
    {
      var newlyReachable := NewlyReachable(g, reachable);
      if newlyReachable == {} {
        break;
      }
      order := AppendRound(g, order, newlyReachable);
      reachable := reachable + newlyReachable;
    }
    stuck := g.Keys - reachable;
    accepted := reachable == g.Keys;
    if accepted {
      OrderExcludesCycles(g, order);
    } else {
      StuckLabelsAreCyclic(g, reachable);
      CycleWithinMore(g, stuck, g.Keys);
    }
  }

  lemma NothingIsOrdered(g: Dependencies)
    ensures Ordered(g, []) && Elements<Str>([]) == {}
  {
  }

  /** Where no further label becomes reachable, the labels left over contain a cycle. */
  lemma StuckLabelsAreCyclic(g: Dependencies, reachable: set<Str>)
    requires Closed(g) && reachable < g.Keys && NewlyReachable(g, reachable) == {}
    ensures HasCycleWithin(g, g.Keys - reachable)
  {
    hide HasCycleWithin, NewlyReachable;
    var stuck := g.Keys - reachable;
    forall node | node in stuck ensures g[node] * stuck != {} {
      StuckDependsOnStuck(g, reachable, node);
    }
    var start :| start in stuck;
    assert Walk(g, [start]) && Elements([start]) <= stuck;
    StuckLabelsHaveACycle(g, stuck, [start]);
  }

  lemma StuckDependsOnStuck(g: Dependencies, reachable: set<Str>, node: Str)
    requires Closed(g) && NewlyReachable(g, reachable) == {} && node in g && node !in reachable
    ensures g[node] * (g.Keys - reachable) != {}
  {
    assert node !in NewlyReachable(g, reachable);
    var d :| d in g[node] && d !in reachable;
    assert d in g[node] * (g.Keys - reachable);
  }

  lemma CycleWithinMore(g: Dependencies, some: set<Str>, more: set<Str>)
    requires HasCycleWithin(g, some) && some <= more
    ensures HasCycleWithin(g, more)
  {
  }

  /** The labels of one round follow everything they depend on. */
  ghost method AppendRound(g: Dependencies, order: seq<Str>, round: set<Str>) returns (longer: seq<Str>)
    requires round <= g.Keys && round !! Elements(order) && Ordered(g, order)
    requires forall node | node in round :: g[node] <= Elements(order)
    ensures Ordered(g, longer) && Elements(longer) == Elements(order) + round
  {
    longer := order;
    var left := round;
    while left != {}
      invariant left <= round && Elements(longer) == Elements(order) + (round - left)
      invariant Elements(order) <= Elements(longer) && Ordered(g, longer)
      decreases left
    {
      hide Ordered;
      var node :| node in left;
      OneMoreNode(g, longer, node);
      longer := longer + [node];
      left := left - {node};
    }
  }

  lemma OneMoreNode(g: Dependencies, order: seq<Str>, node: Str)
    requires Ordered(g, order) && node !in Elements(order)
    requires node in g ==> g[node] <= Elements(order)
    ensures Ordered(g, order + [node]) && Elements(order + [node]) == Elements(order) + {node}
  {
    var next := order + [node];
    ElementsOfBoth(order, [node]);
    assert Elements([node]) == {node};
    forall i | 0 <= i < |next| && next[i] in g ensures g[next[i]] <= Elements(next[..i]) {
      if i < |order| {
        assert next[..i] == order[..i];
      } else {
        assert next[..i] == order;
      }
    }
  }

  // ----- Cycles -------------------------------------------------------------------------

  /** Walking on among labels that always depend on another of them must come back. */
  lemma {:induction false} StuckLabelsHaveACycle(g: Dependencies, stuck: set<Str>, path: seq<Str>)
    requires stuck <= g.Keys && forall node | node in stuck :: g[node] * stuck != {}
    requires path != [] && Walk(g, path) && Distinct(path) && Elements(path) <= stuck
    ensures HasCycleWithin(g, stuck)
    decreases stuck - Elements(path)
  {
    var last := path[|path| - 1];
    assert last in Elements(path);
    var next :| next in g[last] * stuck;
    if next in path {
      var i :| 0 <= i < |path| && path[i] == next;
      var loop := path[i..];
      assert Cycle(g, loop);
      assert Elements(loop) <= stuck by {
        forall x | x in loop ensures x in Elements(path) {
        }
      }
    } else {
      var longer := path + [next];
      ElementsOfBoth(path, [next]);
      assert next !in Elements(path);
      StuckLabelsHaveACycle(g, stuck, longer);
    }
  }

  function PositionOf(order: seq<Str>, node: Str): (i: nat)
    requires node in order
    ensures i < |order| && order[i] == node
  {
    if order[0] == node then 0 else 1 + PositionOf(order[1..], node)
  }

  /** In a topological order a walk only goes back. */
  lemma {:induction false} WalkGoesBack(g: Dependencies, order: seq<Str>, path: seq<Str>)
    requires TopologicalOrder(g, order) && Walk(g, path) && path != []
    ensures path[0] in order && path[|path| - 1] in order
    ensures PositionOf(order, path[|path| - 1]) <= PositionOf(order, path[0]) - (|path| - 1)
    decreases |path|
  {
    assert path[0] in Elements(order) && path[|path| - 1] in Elements(order);
    if |path| > 1 {
      StepGoesBack(g, order, path[0], path[1]);
      WalkGoesBack(g, order, path[1..]);
    }
  }

  lemma StepGoesBack(g: Dependencies, order: seq<Str>, node: Str, dependency: Str)
    requires TopologicalOrder(g, order) && node in g && dependency in g[node]
    ensures node in order && dependency in order && PositionOf(order, dependency) < PositionOf(order, node)
  {
    assert node in Elements(order);
    var i := PositionOf(order, node);
    assert dependency in Elements(order[..i]);
    var j :| 0 <= j < i && order[j] == dependency;
    assert PositionOf(order, dependency) == j;
  }

  lemma OrderExcludesCycles(g: Dependencies, order: seq<Str>)
    requires TopologicalOrder(g, order)
    ensures Closed(g) && !HasCycleWithin(g, g.Keys)
  {
    forall node | node in g ensures g[node] <= g.Keys {
      assert node in Elements(order);
      var i := PositionOf(order, node);
      assert Elements(order[..i]) <= Elements(order);
    }
    forall path | Cycle(g, path) ensures false {
      StepGoesBack(g, order, path[|path| - 1], path[0]);
      WalkGoesBack(g, order, path);
    }
  }
}
