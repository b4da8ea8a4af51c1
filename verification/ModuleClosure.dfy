/** Kernel module dependency resolution: the explicit-stack depth-first search over the
    `modules.dep` index and the way `resolve` calls it twice. */
module ModuleClosure {
  import opened Outcomes

  /** Each module's dependencies, in the index's iteration order. */
  type Definitions = map<string, seq<string>>

  /** Every dependency is itself defined. */
  ghost predicate Closed(defs: Definitions) {
    forall n, d :: n in defs && d in defs[n] ==> d in defs
  }

  /** `p` is a nonempty chain of nodes, each depending on the next. */
  ghost predicate IsPath(defs: Definitions, p: seq<string>) {
    && |p| > 0
    && (forall i :: 0 <= i < |p| ==> p[i] in defs)
    && (forall i :: 0 <= i < |p| - 1 ==> p[i + 1] in defs[p[i]])
  }

  ghost predicate Reaches(defs: Definitions, a: string, b: string) {
    exists p :: IsPath(defs, p) && p[0] == a && p[|p| - 1] == b
  }

  ghost predicate Reachable(defs: Definitions, roots: seq<string>, n: string) {
    exists r :: r in roots && Reaches(defs, r, n)
  }

  /** `n` lies on a dependency cycle. */
  ghost predicate OnCycle(defs: Definitions, n: string) {
    n in defs && exists d :: d in defs[n] && Reaches(defs, d, n)
  }

  ghost predicate CycleReachable(defs: Definitions, roots: seq<string>) {
    exists n :: Reachable(defs, roots, n) && OnCycle(defs, n)
  }

  lemma {:induction false} ReachesSelf(defs: Definitions, a: string)
    requires a in defs
    ensures Reaches(defs, a, a)
  {
    assert IsPath(defs, [a]);
  }

  lemma {:induction false} ReachesStep(defs: Definitions, a: string, b: string, c: string)
    requires Reaches(defs, a, b) && c in defs[b] && c in defs
    ensures Reaches(defs, a, c)
  {
    var p :| IsPath(defs, p) && p[0] == a && p[|p| - 1] == b;
    assert IsPath(defs, p + [c]);
  }

  lemma {:induction false} ReachableStep(defs: Definitions, roots: seq<string>, b: string, c: string)
    requires Reachable(defs, roots, b) && b in defs && c in defs[b] && c in defs
    ensures Reachable(defs, roots, c)
  {
    var r :| r in roots && Reaches(defs, r, b);
    ReachesStep(defs, r, b, c);
  }

  /** Any dependency-closed set holding the start of a path holds all of it. */
  lemma {:induction false} ClosedSetHoldsPath(defs: Definitions, s: set<string>, p: seq<string>)
    requires IsPath(defs, p) && p[0] in s
    requires forall n, d :: n in s && n in defs && d in defs[n] ==> d in s
    ensures p[|p| - 1] in s
  {
    if |p| > 1 {
      assert IsPath(defs, p[1..]);
      ClosedSetHoldsPath(defs, s, p[1..]);
    }
  }

  /** A listing in which every node comes after all of its dependencies. */
  ghost predicate Topological(defs: Definitions, order: seq<string>) {
    forall i :: 0 <= i < |order| ==>
      order[i] in defs && forall d :: d in defs[order[i]] ==> d in order[..i]
  }

  /** Along a path that starts at position `i` of a topological listing, positions only go down. */
  lemma {:induction false} TopologicalPathDescends(defs: Definitions, order: seq<string>, p: seq<string>, i: nat)
    requires Topological(defs, order) && IsPath(defs, p) && i < |order| && p[0] == order[i]
    ensures exists j :: 0 <= j <= i && order[j] == p[|p| - 1]
    decreases |p|
  {
    if |p| > 1 {
      assert p[1] in order[..i];
      var j :| 0 <= j < i && order[..i][j] == p[1];
      assert IsPath(defs, p[1..]);
      TopologicalPathDescends(defs, order, p[1..], j);
    }
  }

  /** The first position holding `n`. */
  ghost function FirstIndex(order: seq<string>, n: string): (i: nat)
    requires n in order
    ensures i < |order| && order[i] == n && n !in order[..i]
  {
    if order[0] == n then 0 else 1 + FirstIndex(order[1..], n)
  }

  lemma {:induction false} TopologicalHasNoCycle(defs: Definitions, order: seq<string>, n: string)
    requires Topological(defs, order) && n in order
    ensures !OnCycle(defs, n)
  {
    if OnCycle(defs, n) {
      var i := FirstIndex(order, n);
      var d :| d in defs[n] && Reaches(defs, d, n);
      assert d in order[..i];
      var j :| 0 <= j < i && order[..i][j] == d;
      var p :| IsPath(defs, p) && p[0] == d && p[|p| - 1] == n;
      TopologicalPathDescends(defs, order, p, j);
    }
  }

  /** Stack entries: a node and whether the entry is its leave marker. */
  type Entry = (string, bool)

  /** The nodes whose leave markers are on the stack form a chain of dependencies, and each
      waiting entry depends on the topmost marker below it; `up[i]` names that marker. */
  ghost predicate Chained(defs: Definitions, stack: seq<Entry>, up: seq<int>) {
    && |up| == |stack|
    && (forall i :: 0 <= i < |stack| ==> stack[i].0 in defs)
    && (|stack| > 0 ==> up[0] == -1)
    && (forall i :: 1 <= i < |stack| ==>
          && 0 <= up[i] < i && stack[up[i]].1
          && stack[i].0 in defs[stack[up[i]].0]
          && forall k :: up[i] < k < i ==> !stack[k].1)
  }

  /** A marker reaches every marker above it and every entry waiting on one. */
  lemma {:induction false} MarkerReachesAbove(defs: Definitions, stack: seq<Entry>, up: seq<int>, i: nat, j: nat)
    requires Chained(defs, stack, up) && i < j < |stack| && stack[i].1
    ensures Reaches(defs, stack[i].0, stack[up[j]].0)
    decreases j
  {
    if up[j] == i {
      ReachesSelf(defs, stack[i].0);
    } else {
      assert up[j] > i;
      MarkerReachesAbove(defs, stack, up, i, up[j]);
      ReachesStep(defs, stack[i].0, stack[up[up[j]]].0, stack[up[j]].0);
    }
  }

  /** Popping an entry whose node is active closes a dependency cycle. */
  lemma {:induction false} ActiveAgainIsCycle(defs: Definitions, stack: seq<Entry>, up: seq<int>, i: nat)
    requires Chained(defs, stack, up) && i < |stack| - 1 && stack[i] == (stack[|stack| - 1].0, true)
    ensures OnCycle(defs, stack[i].0)
  {
    var j := |stack| - 1;
    var x, q := stack[i].0, stack[up[j]].0;
    MarkerReachesAbove(defs, stack, up, i, j);
    var p :| IsPath(defs, p) && p[0] == x && p[|p| - 1] == q;
    if |p| == 1 {
      ReachesSelf(defs, x);
    } else {
      assert IsPath(defs, p[1..]);
      assert Reaches(defs, p[1], q);
      ReachesStep(defs, p[1], q, x);
    }
  }

  /** `active` is the set of nodes with a leave marker on the stack, at most one each. */
  ghost predicate Marked(stack: seq<Entry>, active: set<string>) {
    && (forall n :: n in active <==> (n, true) in stack)
    && (forall i, j :: 0 <= i < j < |stack| && stack[i].1 && stack[j].1 ==> stack[i].0 != stack[j].0)
  }

  /** A dependency of an active node is finished or waits above the node's marker. */
  ghost predicate Pending(defs: Definitions, stack: seq<Entry>, done: set<string>)
    requires forall i :: 0 <= i < |stack| ==> stack[i].0 in defs
  {
    forall j, d :: 0 <= j < |stack| && stack[j].1 && d in defs[stack[j].0] ==>
      d in done || Above(stack, j, d)
  }

  ghost predicate Above(stack: seq<Entry>, j: nat, d: string) {
    exists k :: j < k < |stack| && stack[k].0 == d
  }

  /** `done` is listed by `order`, dependencies first. */
  ghost predicate Finished(defs: Definitions, done: set<string>, order: seq<string>) {
    && (forall n :: n in done <==> n in order)
    && Topological(defs, order)
  }

  /** Everything seen so far is reachable from the roots. */
  ghost predicate OnlyReachable(defs: Definitions, roots: seq<string>, stack: seq<Entry>, done: set<string>) {
    && (forall i :: 0 <= i < |stack| ==> Reachable(defs, roots, stack[i].0))
    && (forall n :: n in done ==> Reachable(defs, roots, n))
  }

  /** What the search knows between two pops. */
  ghost predicate Searching(defs: Definitions, roots: seq<string>, stack: seq<Entry>, up: seq<int>,
                            done: set<string>, active: set<string>, order: seq<string>) {
    && Chained(defs, stack, up)
    && Marked(stack, active)
    && Finished(defs, done, order)
    && done !! active
    && OnlyReachable(defs, roots, stack, done)
    && Pending(defs, stack, done)
  }

  lemma {:induction false} PopKeepsPending(defs: Definitions, stack: seq<Entry>, done: set<string>, done': set<string>)
    requires |stack| > 0 && forall i :: 0 <= i < |stack| ==> stack[i].0 in defs
    requires Pending(defs, stack, done) && done <= done' && stack[|stack| - 1].0 in done'
    ensures Pending(defs, stack[..|stack| - 1], done')
  {
    var rest := stack[..|stack| - 1];
    forall j, d | 0 <= j < |rest| && rest[j].1 && d in defs[rest[j].0]
      ensures d in done' || Above(rest, j, d)
    {
      if d !in done' {
        assert stack[j] == rest[j];
        var k :| j < k < |stack| && stack[k].0 == d;
        assert rest[k].0 == d;
      }
    }
  }

  lemma {:induction false} PopMarker(stack: seq<Entry>, active: set<string>)
    requires |stack| > 0 && stack[|stack| - 1].1 && Marked(stack, active)
    ensures stack[|stack| - 1].0 in active
    ensures Marked(stack[..|stack| - 1], active - {stack[|stack| - 1].0})
  {
    var top := |stack| - 1;
    var n, rest := stack[top].0, stack[..top];
    assert stack[top] == (n, true) && stack == rest + [stack[top]];
    forall m ensures m in active - {n} <==> (m, true) in rest {
      if (m, true) in rest {
        var i :| 0 <= i < top && rest[i] == (m, true);
        assert stack[i] == (m, true);
      }
    }
  }

  lemma {:induction false} FinishNode(defs: Definitions, done: set<string>, order: seq<string>, n: string)
    requires Finished(defs, done, order) && n in defs && forall d :: d in defs[n] ==> d in done
    ensures Finished(defs, done + {n}, order + [n])
  {
    var o := order + [n];
    forall i | 0 <= i < |o| ensures o[i] in defs && forall d :: d in defs[o[i]] ==> d in o[..i] {
      assert o[..i] == order[..i];
    }
  }

  lemma {:induction false} LeaveKeepsSearching(defs: Definitions, roots: seq<string>, stack: seq<Entry>, up: seq<int>,
                            done: set<string>, active: set<string>, order: seq<string>)
    requires Searching(defs, roots, stack, up, done, active, order)
    requires |stack| > 0 && stack[|stack| - 1].1
    ensures
      var n := stack[|stack| - 1].0;
      n in active && Searching(defs, roots, stack[..|stack| - 1], up[..|stack| - 1], done + {n}, active - {n}, order + [n])
  {
    var top := |stack| - 1;
    var n := stack[top].0;
    PopMarker(stack, active);
    forall d | d in defs[n] ensures d in done { assert !Above(stack, top, d); }
    FinishNode(defs, done, order, n);
    PopKeepsPending(defs, stack, done, done + {n});
  }

  lemma {:induction false} SkipKeepsSearching(defs: Definitions, roots: seq<string>, stack: seq<Entry>, up: seq<int>,
                           done: set<string>, active: set<string>, order: seq<string>)
    requires Searching(defs, roots, stack, up, done, active, order)
    requires |stack| > 0 && !stack[|stack| - 1].1 && stack[|stack| - 1].0 in done
    ensures Searching(defs, roots, stack[..|stack| - 1], up[..|stack| - 1], done, active, order)
  {
    PopKeepsPending(defs, stack, done, done);
    var top := |stack| - 1;
    assert stack == stack[..top] + [stack[top]];
  }

  /** The stack after entering its top node: a leave marker, then the dependencies in reverse. */
  ghost function Entered(defs: Definitions, stack: seq<Entry>): (s: seq<Entry>)
    requires |stack| > 0 && stack[|stack| - 1].0 in defs
    ensures |s| == |stack| + |defs[stack[|stack| - 1].0]|
    ensures s[..|stack| - 1] == stack[..|stack| - 1] && s[|stack| - 1] == (stack[|stack| - 1].0, true)
    ensures forall i :: |stack| <= i < |s| ==>
      s[i] == (defs[stack[|stack| - 1].0][|s| - 1 - i], false)
  {
    var n := stack[|stack| - 1].0;
    var deps := defs[n];
    stack[..|stack| - 1] + [(n, true)] + seq(|deps|, i requires 0 <= i < |deps| => (deps[|deps| - 1 - i], false))
  }

  lemma {:induction false} EnterKeepsChained(defs: Definitions, stack: seq<Entry>, up: seq<int>)
    requires Closed(defs) && Chained(defs, stack, up) && |stack| > 0
    ensures Chained(defs, Entered(defs, stack), up + seq(|defs[stack[|stack| - 1].0]|, _ => |stack| - 1))
  {
    var top := |stack| - 1;
    var n := stack[top].0;
    var s := Entered(defs, stack);
    var u := up + seq(|defs[n]|, _ => top);
    forall i | 0 <= i < |s| ensures s[i].0 in defs {
      if i < top { assert s[i] == s[..top][i]; }
    }
    forall i | 1 <= i < |s|
      ensures 0 <= u[i] < i && s[u[i]].1 && s[i].0 in defs[s[u[i]].0] && forall k :: u[i] < k < i ==> !s[k].1
    {
      if i <= top {
        assert forall k :: 0 <= k < top ==> s[k] == s[..top][k] == stack[k];
      } else {
        assert u[i] == top;
      }
    }
  }

  lemma {:induction false} EnterKeepsMarked(defs: Definitions, stack: seq<Entry>, active: set<string>)
    requires |stack| > 0 && stack[|stack| - 1].0 in defs && Marked(stack, active)
    requires !stack[|stack| - 1].1 && stack[|stack| - 1].0 !in active
    ensures Marked(Entered(defs, stack), active + {stack[|stack| - 1].0})
  {
    var top := |stack| - 1;
    var n := stack[top].0;
    var s := Entered(defs, stack);
    assert forall k :: 0 <= k < top ==> s[k] == s[..top][k] == stack[k];
    forall m | m in active + {n} ensures (m, true) in s {
      if m == n {
        assert s[top] == (m, true);
      } else {
        var i :| 0 <= i < |stack| && stack[i] == (m, true);
        assert s[i] == (m, true);
      }
    }
    forall m | (m, true) in s ensures m in active + {n} {
      var i :| 0 <= i < |s| && s[i] == (m, true);
      if i < top { assert stack[i] == (m, true); }
    }
    forall i, j | 0 <= i < j < |s| && s[i].1 && s[j].1 ensures s[i].0 != s[j].0 {
      if j == top { assert stack[i] == (s[i].0, true); }
    }
  }

  lemma {:induction false} EnterKeepsPending(defs: Definitions, stack: seq<Entry>, done: set<string>)
    requires Closed(defs) && |stack| > 0 && forall i :: 0 <= i < |stack| ==> stack[i].0 in defs
    requires Pending(defs, stack, done) && !stack[|stack| - 1].1
    ensures forall i :: 0 <= i < |Entered(defs, stack)| ==> Entered(defs, stack)[i].0 in defs
    ensures Pending(defs, Entered(defs, stack), done)
  {
    var top := |stack| - 1;
    var n := stack[top].0;
    var s := Entered(defs, stack);
    assert forall k :: 0 <= k < top ==> s[k] == s[..top][k] == stack[k];
    forall j, d | 0 <= j < |s| && s[j].1 && d in defs[s[j].0] ensures d in done || Above(s, j, d) {
      if j == top {
        var i :| 0 <= i < |defs[n]| && defs[n][i] == d;
        assert s[|s| - 1 - i].0 == d;
      } else if d !in done {
        var k :| j < k < |stack| && stack[k].0 == d;
        assert s[k].0 == d;
      }
    }
  }

  lemma {:induction false} EnterKeepsReachable(defs: Definitions, roots: seq<string>, stack: seq<Entry>, done: set<string>)
    requires Closed(defs) && |stack| > 0 && stack[|stack| - 1].0 in defs
    requires OnlyReachable(defs, roots, stack, done)
    ensures OnlyReachable(defs, roots, Entered(defs, stack), done)
  {
    var top := |stack| - 1;
    var n := stack[top].0;
    var s := Entered(defs, stack);
    forall i | 0 <= i < |s| ensures Reachable(defs, roots, s[i].0) {
      if i < top {
        assert s[i] == s[..top][i] == stack[i];
      } else if i > top {
        ReachableStep(defs, roots, n, s[i].0);
      }
    }
  }

  lemma {:induction false} EnterKeepsSearching(defs: Definitions, roots: seq<string>, stack: seq<Entry>, up: seq<int>,
                            done: set<string>, active: set<string>, order: seq<string>)
    requires Closed(defs)
    requires Searching(defs, roots, stack, up, done, active, order)
    requires |stack| > 0 && !stack[|stack| - 1].1
    requires stack[|stack| - 1].0 !in done && stack[|stack| - 1].0 !in active
    ensures Searching(defs, roots, Entered(defs, stack), up + seq(|defs[stack[|stack| - 1].0]|, _ => |stack| - 1),
                      done, active + {stack[|stack| - 1].0}, order)
  {
    EnterKeepsChained(defs, stack, up);
    EnterKeepsMarked(defs, stack, active);
    EnterKeepsPending(defs, stack, done);
    EnterKeepsReachable(defs, roots, stack, done);
  }

  lemma {:induction false} CycleFound(defs: Definitions, roots: seq<string>, stack: seq<Entry>, up: seq<int>,
                   done: set<string>, active: set<string>, order: seq<string>)
    requires Searching(defs, roots, stack, up, done, active, order)
    requires |stack| > 0 && !stack[|stack| - 1].1 && stack[|stack| - 1].0 in active
    ensures Reachable(defs, roots, stack[|stack| - 1].0) && OnCycle(defs, stack[|stack| - 1].0)
    ensures CycleReachable(defs, roots)
  {
    var n := stack[|stack| - 1].0;
    var i :| 0 <= i < |stack| && stack[i] == (n, true);
    ActiveAgainIsCycle(defs, stack, up, i);
  }

  /** When every root is finished, `done` is the reachable set and holds no cycle. */
  lemma {:induction false} FinishedIsReachable(defs: Definitions, roots: seq<string>, done: set<string>, active: set<string>, order: seq<string>)
    requires Searching(defs, roots, [], [], done, active, order)
    requires forall x :: x in roots ==> x in done
    ensures !CycleReachable(defs, roots)
    ensures forall n :: n in done <==> Reachable(defs, roots, n)
  {
    forall m, d | m in done && m in defs && d in defs[m] ensures d in done {
      var i := FirstIndex(order, m);
      assert d in order[..i];
      assert d in order;
    }
    forall n | Reachable(defs, roots, n) ensures n in done && !OnCycle(defs, n) {
      var x :| x in roots && Reaches(defs, x, n);
      var p :| IsPath(defs, p) && p[0] == x && p[|p| - 1] == n;
      ClosedSetHoldsPath(defs, done, p);
      TopologicalHasNoCycle(defs, order, n);
    }
  }

  lemma {:induction false} StartSearching(defs: Definitions, roots: seq<string>)
    ensures Searching(defs, roots, [], [], {}, {}, [])
  {}

  lemma {:induction false} StartRoot(defs: Definitions, roots: seq<string>, root: string,
                  done: set<string>, active: set<string>, order: seq<string>)
    requires Searching(defs, roots, [], [], done, active, order) && root in roots && root in defs
    ensures Searching(defs, roots, [(root, false)], [-1], done, active, order)
  {
    ReachesSelf(defs, root);
  }

  lemma {:induction false} TopIsDefined(defs: Definitions, roots: seq<string>, stack: seq<Entry>, up: seq<int>,
                     done: set<string>, active: set<string>, order: seq<string>)
    requires Searching(defs, roots, stack, up, done, active, order) && |stack| > 0
    ensures stack[|stack| - 1].0 in defs
  {}

  /** The pushes of one entry: a leave marker, then the dependencies in reverse. */
  method PushDependencies(defs: Definitions, stack: seq<Entry>) returns (s: seq<Entry>)
    requires |stack| > 0 && stack[|stack| - 1].0 in defs
    ensures s == Entered(defs, stack)
  {
    var path := stack[|stack| - 1].0;
    s := stack[..|stack| - 1] + [(path, true)];
    var i := |defs[path]|;
    while i > 0
      invariant 0 <= i <= |defs[path]|
      invariant s == Entered(defs, stack)[..|stack| + |defs[path]| - i]
    {
      i := i - 1;
      s := s + [(defs[path][i], false)];
    }
  }

  /** Success, with the reachable modules, exactly when no dependency cycle is reachable. */
  method Closure(defs: Definitions, roots: seq<string>) returns (r: Result<set<string>, string>)
    requires Closed(defs) && forall x :: x in roots ==> x in defs
    ensures r.Success? <==> !CycleReachable(defs, roots)
    ensures r.Success? ==> forall n :: n in r.value <==> Reachable(defs, roots, n)
    ensures r.Failure? ==> Reachable(defs, roots, r.error) && OnCycle(defs, r.error)
  {
    hide *;
    var done: set<string> := {};
    var active: set<string> := {};
    ghost var order: seq<string> := [];
    StartSearching(defs, roots);
    for next := 0 to |roots|
      invariant Searching(defs, roots, [], [], done, active, order)
      invariant forall i :: 0 <= i < next ==> roots[i] in done
    {
      var stack := [(roots[next], false)];
      ghost var up := [-1];
      ghost var before := done;
      StartRoot(defs, roots, roots[next], done, active, order);
      while |stack| > 0
        invariant |up| == |stack|
        invariant Searching(defs, roots, stack, up, done, active, order)
        invariant before <= done
        invariant roots[next] in done || (|stack| > 0 && stack[0].0 == roots[next])
        decreases defs.Keys - (done + active), |stack|
      {
        var top := |stack| - 1;
        var (path, leaving) := stack[top];
        TopIsDefined(defs, roots, stack, up, done, active, order);
        if leaving {
          LeaveKeepsSearching(defs, roots, stack, up, done, active, order);
          stack, up := stack[..top], up[..top];
          active := active - {path};
          done := done + {path};
          order := order + [path];
        } else if path in done {
          SkipKeepsSearching(defs, roots, stack, up, done, active, order);
          stack, up := stack[..top], up[..top];
        } else if path in active {
          CycleFound(defs, roots, stack, up, done, active, order);
          return Failure(path);
        } else {
          EnterKeepsSearching(defs, roots, stack, up, done, active, order);
          active := active + {path};
          up := up + seq(|defs[path]|, _ => top);
          stack := PushDependencies(defs, stack);
        }
      }
    }
    FinishedIsReachable(defs, roots, done, active, order);
    return Success(done);
  }
}
