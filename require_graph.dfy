/** The require closure of a module: the registered modules reachable through
    `requires` lists, in depth-first order following declaration order, each
    at most once. The graph maps every registered module name to its
    `requires` list; names that nobody registered are skipped. */
module RequireGraph {

  type Graph = map<string, seq<string>>

  /** The names occurring in `s`. */
  function Elems(s: seq<string>): set<string> {
    if s == [] then {} else {s[0]} + Elems(s[1..])
  }

  predicate NoDup(s: seq<string>) {
    forall i, j :: 0 <= i < j < |s| ==> s[i] != s[j]
  }

  /** The modules first reached from `name`, in depth-first preorder,
      skipping `visited` names and names not registered in `g`. */
  function Visit(g: Graph, name: string, visited: set<string>): (r: seq<string>)
    ensures NoDup(r)
    ensures forall i :: 0 <= i < |r| ==> r[i] in g && r[i] !in visited
    ensures name in g && name !in visited ==> r != [] && r[0] == name
    ensures name !in g || name in visited ==> r == []
    decreases |g.Keys - visited|, 0, 0
  {
    if name !in g || name in visited then []
    else
      Shrinks(g.Keys, visited, {name});
      var below := VisitAll(g, g[name], visited + {name});
      NoDupCons(name, below);
      [name] + below
  }

  /** `Visit` applied to each of `names` in turn, each call skipping what the
      earlier ones reached. */
  function VisitAll(g: Graph, names: seq<string>, visited: set<string>): (r: seq<string>)
    ensures NoDup(r)
    ensures forall i :: 0 <= i < |r| ==> r[i] in g && r[i] !in visited
    decreases |g.Keys - visited|, 1, |names|
  {
    if names == [] then []
    else
      var first := Visit(g, names[0], visited);
      Shrinks(g.Keys, visited, Elems(first));
      var rest := VisitAll(g, names[1..], visited + Elems(first));
      NoDupAppend(first, rest);
      first + rest
  }

  /** The modules visible from a module named `root` whose requires list is
      `required`, besides the root itself, in lookup order. The root's own
      name counts as visited from the start, so a cycle back to it stops. */
  function Closure(g: Graph, root: string, required: seq<string>): (r: seq<string>)
    ensures NoDup(r)
    ensures forall i :: 0 <= i < |r| ==> r[i] in g && r[i] != root
  {
    VisitAll(g, required, {root})
  }

  /** Walking a one-name list is visiting that name. */
  lemma VisitAllOne(g: Graph, name: string, visited: set<string>)
    ensures VisitAll(g, [name], visited) == Visit(g, name, visited)
  {
    assert [name][1..] == [];
  }

  /** Module `a` is registered and lists `b` among its requires. */
  predicate Requires(g: Graph, a: string, b: string) {
    a in g && b in Elems(g[a])
  }

  /** Each entry of `r` is in `starts` or is required by an earlier entry. */
  ghost predicate Discovered(g: Graph, starts: seq<string>, r: seq<string>) {
    forall i :: 0 <= i < |r| ==>
      r[i] in Elems(starts) || exists j :: 0 <= j < i && Requires(g, r[j], r[i])
  }

  /** Every registered module required by an entry of `r` is in `done`. */
  ghost predicate ClosedUnder(g: Graph, r: seq<string>, done: set<string>) {
    forall i, k :: 0 <= i < |r| && r[i] in g && 0 <= k < |g[r[i]]| && g[r[i]][k] in g ==> g[r[i]][k] in done
  }

  // ---------------------------------------------------------------------
  // Helpers on sets and sequences

  /** Visiting more names never leaves more unvisited ones, and visiting a
      new one leaves fewer: the measure of the walk's termination. */
  lemma Shrinks(keys: set<string>, visited: set<string>, more: set<string>)
    ensures |keys - (visited + more)| <= |keys - visited|
    ensures (exists x :: x in more && x in keys && x !in visited) ==> |keys - (visited + more)| < |keys - visited|
  {
    var a, b := keys - (visited + more), keys - visited;
    assert a <= b;
    assert b == a + (b - a) && a !! (b - a);
    assert |b| == |a| + |b - a|;
    if x :| x in more && x in keys && x !in visited {
      assert x in b - a;
    }
  }

  lemma {:induction false} ElemsAppend(a: seq<string>, b: seq<string>)
    ensures Elems(a + b) == Elems(a) + Elems(b)
  {
    if a != [] {
      assert (a + b)[0] == a[0] && (a + b)[1..] == a[1..] + b;
      ElemsAppend(a[1..], b);
    } else {
      assert a + b == b;
    }
  }

  lemma {:induction false} ElemsMember(s: seq<string>, x: string)
    ensures x in Elems(s) <==> x in s
  {
    if s != [] {
      ElemsMember(s[1..], x);
      assert s == [s[0]] + s[1..];
    }
  }

  lemma NoDupCons(x: string, s: seq<string>)
    requires NoDup(s) && forall j :: 0 <= j < |s| ==> s[j] != x
    ensures NoDup([x] + s)
  {
  }

  lemma NoDupAppend(a: seq<string>, b: seq<string>)
    requires NoDup(a) && NoDup(b)
    requires forall j :: 0 <= j < |b| ==> b[j] !in Elems(a)
    ensures NoDup(a + b)
  {
    forall i, j | 0 <= i < j < |a + b| ensures (a + b)[i] != (a + b)[j] {
      if i < |a| && j >= |a| {
        ElemsMember(a, a[i]);
        assert (a + b)[i] == a[i] && (a + b)[j] == b[j - |a|];
      }
    }
  }

  // ---------------------------------------------------------------------
  // Soundness: the closure holds only modules reached through requires.

  lemma {:induction false} VisitDiscovered(g: Graph, name: string, visited: set<string>)
    ensures Discovered(g, [name], Visit(g, name, visited))
    decreases |g.Keys - visited|, 0, 0
  {
    if name in g && name !in visited {
      Shrinks(g.Keys, visited, {name});
      var below := VisitAll(g, g[name], visited + {name});
      VisitAllDiscovered(g, g[name], visited + {name});
      DiscoveredEnter(g, name, below);
    }
  }

  lemma {:induction false} VisitAllDiscovered(g: Graph, names: seq<string>, visited: set<string>)
    ensures Discovered(g, names, VisitAll(g, names, visited))
    decreases |g.Keys - visited|, 1, |names|
  {
    if names != [] {
      var first := Visit(g, names[0], visited);
      Shrinks(g.Keys, visited, Elems(first));
      var rest := VisitAll(g, names[1..], visited + Elems(first));
      VisitDiscovered(g, names[0], visited);
      VisitAllDiscovered(g, names[1..], visited + Elems(first));
      DiscoveredAppend(g, names[0], names[1..], first, rest);
      assert [names[0]] + names[1..] == names;
    }
  }

  lemma DiscoveredEnter(g: Graph, name: string, below: seq<string>)
    requires name in g && Discovered(g, g[name], below)
    ensures Discovered(g, [name], [name] + below)
  {
    var r := [name] + below;
    assert Elems([name]) == {name} by { assert [name][1..] == []; }
    forall i | 0 <= i < |r|
      ensures r[i] in Elems([name]) || exists j :: 0 <= j < i && Requires(g, r[j], r[i])
    {
      if i > 0 {
        EnterAt(g, name, below, i - 1);
      }
    }
  }

  lemma EnterAt(g: Graph, name: string, below: seq<string>, k: nat)
    requires name in g && k < |below|
    requires below[k] in Elems(g[name]) || exists j :: 0 <= j < k && Requires(g, below[j], below[k])
    ensures exists j :: 0 <= j < k + 1 && Requires(g, ([name] + below)[j], ([name] + below)[k + 1])
  {
    var r := [name] + below;
    assert r[k + 1] == below[k];
    if below[k] in Elems(g[name]) {
      assert Requires(g, r[0], r[k + 1]);
    } else {
      var j :| 0 <= j < k && Requires(g, below[j], below[k]);
      assert r[j + 1] == below[j];
      assert Requires(g, r[j + 1], r[k + 1]);
    }
  }

  lemma DiscoveredAppend(g: Graph, s: string, tail: seq<string>, first: seq<string>, rest: seq<string>)
    requires Discovered(g, [s], first) && Discovered(g, tail, rest)
    ensures Discovered(g, [s] + tail, first + rest)
  {
    var r := first + rest;
    ElemsAppend([s], tail);
    forall i | 0 <= i < |r|
      ensures r[i] in Elems([s] + tail) || exists j :: 0 <= j < i && Requires(g, r[j], r[i])
    {
      if i < |first| {
        assert r[i] == first[i];
        if first[i] !in Elems([s]) {
          var j :| 0 <= j < i && Requires(g, first[j], first[i]);
          assert r[j] == first[j];
        }
      } else {
        var k := i - |first|;
        assert r[i] == rest[k];
        if rest[k] !in Elems(tail) {
          var j :| 0 <= j < k && Requires(g, rest[j], rest[k]);
          assert r[|first| + j] == rest[j];
        }
      }
    }
  }

  /** Every module in the closure is required by the root or by a module
      listed before it. */
  lemma ClosureSound(g: Graph, root: string, required: seq<string>)
    ensures Discovered(g, required, Closure(g, root, required))
  {
    VisitAllDiscovered(g, required, {root});
  }

  // ---------------------------------------------------------------------
  // Completeness: the closure holds every registered module reached.

  lemma {:induction false} VisitCloses(g: Graph, name: string, visited: set<string>)
    ensures ClosedUnder(g, Visit(g, name, visited), visited + Elems(Visit(g, name, visited)))
    decreases |g.Keys - visited|, 0, 0
  {
    if name in g && name !in visited {
      Shrinks(g.Keys, visited, {name});
      var below := VisitAll(g, g[name], visited + {name});
      VisitAllCloses(g, g[name], visited + {name});
      ElemsAppend([name], below);
      assert Elems([name]) == {name} by { assert [name][1..] == []; }
      var done := visited + {name} + Elems(below);
      ClosedOne(g, name, done);
      ClosedAppend(g, [name], below, done);
    }
  }

  lemma {:induction false} VisitAllCloses(g: Graph, names: seq<string>, visited: set<string>)
    ensures forall k :: 0 <= k < |names| && names[k] in g ==> names[k] in visited + Elems(VisitAll(g, names, visited))
    ensures ClosedUnder(g, VisitAll(g, names, visited), visited + Elems(VisitAll(g, names, visited)))
    decreases |g.Keys - visited|, 1, |names|
  {
    if names != [] {
      var first := Visit(g, names[0], visited);
      Shrinks(g.Keys, visited, Elems(first));
      var rest := VisitAll(g, names[1..], visited + Elems(first));
      VisitCloses(g, names[0], visited);
      VisitAllCloses(g, names[1..], visited + Elems(first));
      ElemsAppend(first, rest);
      var done := visited + Elems(first) + Elems(rest);
      if names[0] in g && names[0] !in visited {
        ElemsMember(first, names[0]);
      }
      HeadTailCovered(g, names, visited, Elems(first), Elems(rest));
      ClosedMono(g, first, visited + Elems(first), done);
      ClosedAppend(g, first, rest, done);
    }
  }

  lemma HeadTailCovered(g: Graph, names: seq<string>, visited: set<string>, ef: set<string>, er: set<string>)
    requires names != []
    requires names[0] in g ==> names[0] in visited + ef
    requires forall k :: 0 <= k < |names[1..]| && names[1..][k] in g ==> names[1..][k] in visited + ef + er
    ensures forall k :: 0 <= k < |names| && names[k] in g ==> names[k] in visited + ef + er
  {
    forall k | 0 <= k < |names| && names[k] in g ensures names[k] in visited + ef + er {
      if k > 0 {
        assert names[k] == names[1..][k - 1];
      }
    }
  }

  lemma ClosedOne(g: Graph, name: string, done: set<string>)
    requires name in g
    requires forall k :: 0 <= k < |g[name]| && g[name][k] in g ==> g[name][k] in done
    ensures ClosedUnder(g, [name], done)
  {
  }

  lemma ClosedMono(g: Graph, r: seq<string>, done: set<string>, more: set<string>)
    requires ClosedUnder(g, r, done) && done <= more
    ensures ClosedUnder(g, r, more)
  {
  }

  lemma ClosedAppend(g: Graph, a: seq<string>, b: seq<string>, done: set<string>)
    requires ClosedUnder(g, a, done) && ClosedUnder(g, b, done)
    ensures ClosedUnder(g, a + b, done)
  {
    var r := a + b;
    forall i, k | 0 <= i < |r| && r[i] in g && 0 <= k < |g[r[i]]| && g[r[i]][k] in g
      ensures g[r[i]][k] in done
    {
      if i < |a| {
        assert r[i] == a[i];
      } else {
        assert r[i] == b[i - |a|];
      }
    }
  }

  /** Every registered module the root requires, and every registered module
      required by a module in the closure, is in the closure, unless it is
      the root itself. */
  lemma ClosureComplete(g: Graph, root: string, required: seq<string>)
    ensures forall k :: 0 <= k < |required| && required[k] in g && required[k] != root ==>
              required[k] in Closure(g, root, required)
    ensures var c := Closure(g, root, required);
      forall i, k :: 0 <= i < |c| && 0 <= k < |g[c[i]]| && g[c[i]][k] in g && g[c[i]][k] != root ==> g[c[i]][k] in c
  {
    VisitAllCloses(g, required, {root});
    var c := Closure(g, root, required);
    forall k | 0 <= k < |required| && required[k] in g && required[k] != root
      ensures required[k] in c
    {
      ElemsMember(c, required[k]);
    }
    forall i, k | 0 <= i < |c| && 0 <= k < |g[c[i]]| && g[c[i]][k] in g && g[c[i]][k] != root
      ensures g[c[i]][k] in c
    {
      ElemsMember(c, g[c[i]][k]);
    }
  }

  // ---------------------------------------------------------------------
  // The worklist walk.

  /** What the depth-first walk still produces from a stack of pending
      requires lists, the innermost first. */
  function Pending(g: Graph, stack: seq<seq<string>>, visited: set<string>): seq<string>
    decreases |stack|
  {
    if stack == [] then []
    else
      var r := VisitAll(g, stack[0], visited);
      r + Pending(g, stack[1..], visited + Elems(r))
  }

  function PendingCount(stack: seq<seq<string>>): nat {
    if stack == [] then 0 else |stack[0]| + PendingCount(stack[1..])
  }

  /** Computes the closure with an explicit stack of requires lists and a
      visited set; every name is looked at once per mention and every module
      is entered once. */
  method CollectClosure(g: Graph, root: string, required: seq<string>) returns (order: seq<string>)
    ensures order == Closure(g, root, required)
  {
    var visited := {root};
    var stack := [required];
    order := [];
    ghost var target := Closure(g, root, required);
    assert Pending(g, stack, visited) == target by {
      PendingCons(g, required, [], visited);
      assert [required] + [] == [required];
    }
    while stack != []
      invariant visited == {root} + Elems(order)
      invariant order + Pending(g, stack, visited) == target
      invariant |order| <= |target|
      decreases |target| - |order|, PendingCount(stack), |stack|
    {
      var top := stack[0];
      if top == [] {
        PopStep(g, stack, visited);
        stack := stack[1..];
      } else {
        var name := top[0];
        if name in g && name !in visited {
          EnterStep(g, order, stack, visited, target);
          ElemsSnoc(order, name);
          order := order + [name];
          visited := visited + {name};
          stack := [g[name], top[1..]] + stack[1..];
        } else {
          SkipStep(g, stack, visited);
          stack := [top[1..]] + stack[1..];
        }
      }
    }
  }

  /** The loop's pop step: an exhausted list leaves the stack. */
  lemma PopStep(g: Graph, stack: seq<seq<string>>, visited: set<string>)
    requires stack != [] && stack[0] == []
    ensures Pending(g, stack[1..], visited) == Pending(g, stack, visited)
    ensures PendingCount(stack[1..]) == PendingCount(stack)
  {
    assert stack == [[]] + stack[1..];
    PopEmpty(g, stack[1..], visited);
  }

  /** The loop's skip step, phrased on the whole stack. */
  lemma SkipStep(g: Graph, stack: seq<seq<string>>, visited: set<string>)
    requires stack != [] && stack[0] != []
    requires stack[0][0] !in g || stack[0][0] in visited
    ensures Pending(g, [stack[0][1..]] + stack[1..], visited) == Pending(g, stack, visited)
    ensures PendingCount([stack[0][1..]] + stack[1..]) < PendingCount(stack)
  {
    var top, below := stack[0], stack[1..];
    assert top == [top[0]] + top[1..];
    assert stack == [[top[0]] + top[1..]] + below;
    StepSkip(g, top[0], top[1..], below, visited);
    PendingCountCons(top, below);
    PendingCountCons(top[1..], below);
  }

  /** The loop's enter step, phrased on the whole stack. */
  lemma EnterStep(g: Graph, order: seq<string>, stack: seq<seq<string>>, visited: set<string>, target: seq<string>)
    requires stack != [] && stack[0] != []
    requires stack[0][0] in g && stack[0][0] !in visited
    requires order + Pending(g, stack, visited) == target
    ensures (order + [stack[0][0]]) + Pending(g, [g[stack[0][0]], stack[0][1..]] + stack[1..], visited + {stack[0][0]}) == target
    ensures |order| < |target|
  {
    var top, below := stack[0], stack[1..];
    assert top == [top[0]] + top[1..];
    assert stack == [[top[0]] + top[1..]] + below;
    StepEnter(g, top[0], top[1..], below, visited);
  }

  lemma ElemsSnoc(s: seq<string>, x: string)
    ensures Elems(s + [x]) == Elems(s) + {x}
  {
    ElemsAppend(s, [x]);
    assert Elems([x]) == {x} by { assert [x][1..] == []; }
  }

  lemma PopEmpty(g: Graph, below: seq<seq<string>>, visited: set<string>)
    ensures Pending(g, [[]] + below, visited) == Pending(g, below, visited)
  {
    PendingCons(g, [], below, visited);
    assert visited + Elems([]) == visited;
  }

  lemma PendingCountCons(top: seq<string>, below: seq<seq<string>>)
    ensures PendingCount([top] + below) == |top| + PendingCount(below)
  {
    assert ([top] + below)[0] == top && ([top] + below)[1..] == below;
  }

  lemma PendingCons(g: Graph, top: seq<string>, below: seq<seq<string>>, visited: set<string>)
    ensures Pending(g, [top] + below, visited) ==
      VisitAll(g, top, visited) + Pending(g, below, visited + Elems(VisitAll(g, top, visited)))
  {
    assert ([top] + below)[0] == top && ([top] + below)[1..] == below;
  }

  lemma VisitAllCons(g: Graph, name: string, tail: seq<string>, visited: set<string>)
    ensures VisitAll(g, [name] + tail, visited) ==
      Visit(g, name, visited) + VisitAll(g, tail, visited + Elems(Visit(g, name, visited)))
  {
    assert ([name] + tail)[0] == name && ([name] + tail)[1..] == tail;
  }

  /** One step of the walk: a name already visited, or not registered, is
      dropped from the top list. */
  lemma StepSkip(g: Graph, name: string, tail: seq<string>, below: seq<seq<string>>, visited: set<string>)
    requires name !in g || name in visited
    ensures Pending(g, [[name] + tail] + below, visited) == Pending(g, [tail] + below, visited)
  {
    VisitAllCons(g, name, tail, visited);
    assert Visit(g, name, visited) == [];
    assert visited + Elems([]) == visited;
    assert VisitAll(g, [name] + tail, visited) == VisitAll(g, tail, visited);
    PendingCons(g, [name] + tail, below, visited);
    PendingCons(g, tail, below, visited);
  }

  /** One step of the walk: a new registered name is emitted and its
      requires list is pushed above the rest of the top list. */
  lemma StepEnter(g: Graph, name: string, tail: seq<string>, below: seq<seq<string>>, visited: set<string>)
    requires name in g && name !in visited
    ensures Pending(g, [[name] + tail] + below, visited) ==
      [name] + Pending(g, [g[name], tail] + below, visited + {name})
  {
    var inner := VisitAll(g, g[name], visited + {name});
    var v1 := visited + {name} + Elems(inner);
    var restTop := VisitAll(g, tail, v1);
    var rest := Pending(g, below, v1 + Elems(restTop));
    EnterTop(g, name, tail, below, visited);
    PendingTwo(g, g[name], tail, below, visited + {name});
    PrependOne(Pending(g, [[name] + tail] + below, visited), Pending(g, [g[name], tail] + below, visited + {name}),
               name, inner, restTop, rest);
  }

  /** Sequence associativity for the stack after entering a module; a step
      of the loop's pending-list bookkeeping, split out to keep it small. */
  lemma PrependOne(a: seq<string>, b: seq<string>, name: string, inner: seq<string>, restTop: seq<string>, rest: seq<string>)
    requires a == [name] + inner + restTop + rest
    requires b == inner + restTop + rest
    ensures a == [name] + b
  {
  }


  /** Both sides of `StepEnter`, unfolded on the entered module. */
  lemma EnterTop(g: Graph, name: string, tail: seq<string>, below: seq<seq<string>>, visited: set<string>)
    requires name in g && name !in visited
    ensures var inner := VisitAll(g, g[name], visited + {name});
      var v1 := visited + {name} + Elems(inner);
      var restTop := VisitAll(g, tail, v1);
      Pending(g, [[name] + tail] + below, visited) ==
        [name] + inner + restTop + Pending(g, below, v1 + Elems(restTop))
  {
    var inner := VisitAll(g, g[name], visited + {name});
    var first := Visit(g, name, visited);
    assert first == [name] + inner;
    var v1 := visited + Elems(first);
    assert v1 == visited + {name} + Elems(inner) by {
      ElemsAppend([name], inner);
      assert Elems([name]) == {name} by { assert [name][1..] == []; }
    }
    TopUnfold(g, name, tail, below, visited);
  }

  lemma TopUnfold(g: Graph, name: string, tail: seq<string>, below: seq<seq<string>>, visited: set<string>)
    ensures var first := Visit(g, name, visited);
      var restTop := VisitAll(g, tail, visited + Elems(first));
      Pending(g, [[name] + tail] + below, visited) ==
        first + restTop + Pending(g, below, visited + Elems(first) + Elems(restTop))
  {
    var first := Visit(g, name, visited);
    var v1 := visited + Elems(first);
    var restTop := VisitAll(g, tail, v1);
    var all := VisitAll(g, [name] + tail, visited);
    VisitAllCons(g, name, tail, visited);
    ElemsAppend(first, restTop);
    PendingCons(g, [name] + tail, below, visited);
    ConcatGlue(g, below, Pending(g, [[name] + tail] + below, visited), all, first, restTop, visited);
  }

  /** Rewrites the pending list after a finished walk in terms of its two
      parts; a step split out so the solver sees abstract sequences only. */
  lemma ConcatGlue(g: Graph, below: seq<seq<string>>, p: seq<string>, all: seq<string>, first: seq<string>,
                   restTop: seq<string>, visited: set<string>)
    requires p == all + Pending(g, below, visited + Elems(all))
    requires all == first + restTop
    requires Elems(first + restTop) == Elems(first) + Elems(restTop)
    ensures p == first + restTop + Pending(g, below, visited + Elems(first) + Elems(restTop))
  {
    assert visited + Elems(all) == visited + Elems(first) + Elems(restTop);
  }

  lemma PendingTwo(g: Graph, a: seq<string>, b: seq<string>, below: seq<seq<string>>, visited: set<string>)
    ensures var ra := VisitAll(g, a, visited);
      var rb := VisitAll(g, b, visited + Elems(ra));
      Pending(g, [a, b] + below, visited) == ra + rb + Pending(g, below, visited + Elems(ra) + Elems(rb))
  {
    assert [a, b] + below == [a] + ([b] + below);
    PendingCons(g, a, [b] + below, visited);
    var ra := VisitAll(g, a, visited);
    PendingCons(g, b, below, visited + Elems(ra));
  }

}
