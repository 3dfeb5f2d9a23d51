/**
 * get_affected_components (SystemGuardian.py:236-251): the components an
 * error cascades to, found by a first-in first-out worklist over the
 * `component_dependencies` map. The worklist may hold the same component more
 * than once, because it is filtered against `affected` when entries are
 * added, not when they are taken; the search still ends, also on cyclic maps,
 * and finds exactly the components reachable along dependency links.
 */
module Cascade {

  /** `component_dependencies`: a component id to the ids linked to it. */
  type Dependencies = map<string, seq<string>>

  /** `component_dependencies.get(current, [])`: a component without an entry has no links. */
  function Successors(deps: Dependencies, x: string): seq<string> {
    if x in deps then deps[x] else []
  }

  /** Each step of `path` follows a dependency link. */
  ghost predicate IsPath(deps: Dependencies, path: seq<string>) {
    forall i :: 0 <= i < |path| - 1 ==> path[i + 1] in Successors(deps, path[i])
  }

  /** `y` is reachable from `x` along zero or more dependency links. */
  ghost predicate Reaches(deps: Dependencies, x: string, y: string) {
    exists path :: |path| >= 1 && path[0] == x && path[|path| - 1] == y && IsPath(deps, path)
  }

  /** A set that every dependency link out of it leads back into. */
  ghost predicate Closed(deps: Dependencies, s: set<string>) {
    forall x, y :: x in s && y in Successors(deps, x) ==> y in s
  }

  /** Every component the search can ever meet: the start and every listed dependency. */
  ghost function Nodes(deps: Dependencies, start: string): set<string> {
    {start} + set x, y | x in deps && y in deps[x] :: y
  }

  lemma SuccessorInNodes(deps: Dependencies, start: string, x: string, y: string)
    requires y in Successors(deps, x)
    ensures y in Nodes(deps, start)
  {
  }

  lemma ReachesSelf(deps: Dependencies, x: string)
    ensures Reaches(deps, x, x)
  {
    assert IsPath(deps, [x]);
  }

  /** A path to `x` extends by one link out of `x`. */
  lemma ReachesStep(deps: Dependencies, c: string, x: string, y: string)
    requires Reaches(deps, c, x) && y in Successors(deps, x)
    ensures Reaches(deps, c, y)
  {
    var path :| |path| >= 1 && path[0] == c && path[|path| - 1] == x && IsPath(deps, path);
    var longer := path + [y];
    forall i | 0 <= i < |longer| - 1
      ensures longer[i + 1] in Successors(deps, longer[i])
    {
      if i < |path| - 1 {
        assert longer[i] == path[i] && longer[i + 1] == path[i + 1];
      }
    }
    assert IsPath(deps, longer);
    assert longer[0] == c && longer[|longer| - 1] == y;
  }

  /** A closed set holding the start of a path holds its end. */
  lemma {:induction false} ClosedContainsPathEnd(deps: Dependencies, s: set<string>, path: seq<string>)
    requires Closed(deps, s) && IsPath(deps, path) && |path| >= 1 && path[0] in s
    ensures path[|path| - 1] in s
    decreases |path|
  {
    if |path| > 1 {
      var prefix := path[..|path| - 1];
      forall i | 0 <= i < |prefix| - 1
        ensures prefix[i + 1] in Successors(deps, prefix[i])
      {
        assert prefix[i] == path[i] && prefix[i + 1] == path[i + 1];
      }
      ClosedContainsPathEnd(deps, s, prefix);
      assert path[|path| - 1] in Successors(deps, path[|path| - 2]);
    }
  }

  /** A closed set holding `c` holds everything reachable from `c`. */
  lemma ClosedContainsReachable(deps: Dependencies, s: set<string>, c: string, y: string)
    requires Closed(deps, s) && c in s && Reaches(deps, c, y)
    ensures y in s
  {
    var path :| |path| >= 1 && path[0] == c && path[|path| - 1] == y && IsPath(deps, path);
    ClosedContainsPathEnd(deps, s, path);
  }

  /** A component that has no entry in the map cascades to itself alone. */
  lemma NoEntryAffectsOnlyItself(deps: Dependencies, c: string, y: string)
    requires c !in deps
    ensures Reaches(deps, c, y) <==> y == c
  {
    if y == c {
      ReachesSelf(deps, c);
    } else if Reaches(deps, c, y) {
      assert Closed(deps, {c});
      ClosedContainsReachable(deps, {c}, c, y);
    }
  }

  /** The number of entries of `s`, duplicates included, that are in `a`. */
  function CountIn(s: seq<string>, a: set<string>): nat {
    if |s| == 0 then 0 else (if s[0] in a then 1 else 0) + CountIn(s[1..], a)
  }

  lemma {:induction false} CountInAppend(s: seq<string>, t: seq<string>, a: set<string>)
    ensures CountIn(s + t, a) == CountIn(s, a) + CountIn(t, a)
    decreases |s|
  {
    if |s| > 0 {
      assert (s + t)[1..] == s[1..] + t;
      CountInAppend(s[1..], t, a);
    } else {
      assert s + t == t;
    }
  }

  /**
   * `[dep for dep in ds if dep not in affected]`: the entries of `ds` outside
   * `affected`, in order and with their duplicates.
   */
  function Unvisited(ds: seq<string>, affected: set<string>): (r: seq<string>)
    ensures forall y :: y in r <==> y in ds && y !in affected
    ensures CountIn(r, affected) == 0
  {
    if |ds| == 0 then []
    else
      var rest := Unvisited(ds[1..], affected);
      assert forall y :: y in ds <==> y == ds[0] || y in ds[1..];
      if ds[0] in affected then rest
      else
        assert ([ds[0]] + rest)[1..] == rest;
        [ds[0]] + rest
  }

  /** What one round adds to the worklist lies among the nodes and is reachable. */
  lemma AddedReachable(deps: Dependencies, component: string, nodes: set<string>, current: string,
                       added: seq<string>, affected: set<string>)
    requires nodes == Nodes(deps, component) && Reaches(deps, component, current)
    requires added == Unvisited(Successors(deps, current), affected)
    ensures forall y :: y in added ==> y in nodes && Reaches(deps, component, y)
  {
    forall y | y in added
      ensures y in nodes && Reaches(deps, component, y)
    {
      SuccessorInNodes(deps, component, current, y);
      ReachesStep(deps, component, current, y);
    }
  }

  /**
   * One round keeps the frontier property: every link out of `affected`
   * leads into `affected` or into the worklist.
   */
  lemma StepClosure(deps: Dependencies, before: set<string>, queue: seq<string>, current: string, added: seq<string>)
    requires |queue| > 0 && current == queue[0]
    requires forall x, y :: x in before && y in Successors(deps, x) ==> y in before || y in queue
    requires added == Unvisited(Successors(deps, current), before + {current})
    ensures forall x, y :: x in before + {current} && y in Successors(deps, x) ==>
              y in before + {current} || y in queue[1..] + added
  {
    forall x, y | x in before + {current} && y in Successors(deps, x)
      ensures y in before + {current} || y in queue[1..] + added
    {
      if x != current && y !in before + {current} {
        assert y in queue && y != queue[0];
        assert queue == [queue[0]] + queue[1..];
      }
    }
  }

  /** One round lowers the termination measure of the search. */
  lemma StepDecreases(nodes: set<string>, before: set<string>, queue: seq<string>, current: string, added: seq<string>)
    requires |queue| > 0 && current == queue[0] && current in nodes
    requires CountIn(added, before + {current}) == 0
    ensures || |nodes - (before + {current})| < |nodes - before|
            || (before + {current} == before
                && CountIn(queue[1..] + added, before + {current}) < CountIn(queue, before))
  {
    var after := before + {current};
    CountInAppend(queue[1..], added, after);
    if current !in before {
      assert current in nodes - before;
      assert nodes - after == (nodes - before) - {current};
    } else {
      assert after == before;
      assert queue == [queue[0]] + queue[1..];
    }
  }

  /**
   * When the worklist is empty, every link out of `affected` leads back into
   * it, so `affected` holds everything reachable from the start.
   */
  lemma ExhaustedSearchComplete(deps: Dependencies, component: string, affected: set<string>, queue: seq<string>)
    requires component in affected && queue == []
    requires forall x, y :: x in affected && y in Successors(deps, x) ==> y in affected || y in queue
    ensures forall y :: Reaches(deps, component, y) ==> y in affected
  {
    forall y | Reaches(deps, component, y)
      ensures y in affected
    {
      ClosedContainsReachable(deps, affected, component, y);
    }
  }

  /**
   * The worklist search. The result holds `component` and is exactly the set
   * of components reachable from it; the loop ends because each round either
   * adds a component to `affected`, which can happen only finitely often, or
   * takes off the worklist one of the finitely many entries that are already
   * in `affected`, while adding none.
   */
  method GetAffectedComponents(deps: Dependencies, component: string) returns (affected: set<string>)
    ensures component in affected
    ensures forall y :: y in affected <==> Reaches(deps, component, y)
  {
    affected := {};
    var queue := [component];
    ghost var nodes := Nodes(deps, component);
    ReachesSelf(deps, component);
    while |queue| > 0
      invariant affected <= nodes
      invariant forall q :: q in queue ==> q in nodes
      invariant component in affected || component in queue
      invariant forall y :: y in affected ==> Reaches(deps, component, y)
      invariant forall y :: y in queue ==> Reaches(deps, component, y)
      invariant forall x, y :: x in affected && y in Successors(deps, x) ==> y in affected || y in queue
      decreases |nodes - affected|, CountIn(queue, affected)
    {
      ghost var before := affected;
      ghost var oldQueue := queue;
      var current := queue[0];
      queue := queue[1..];
      affected := affected + {current};
      var added := Unvisited(Successors(deps, current), affected);
      AddedReachable(deps, component, nodes, current, added, affected);
      StepClosure(deps, before, oldQueue, current, added);
      StepDecreases(nodes, before, oldQueue, current, added);
      queue := queue + added;
    }
    ExhaustedSearchComplete(deps, component, affected, queue);
  }
}
