/**
 * The simple task engine of the translation driver.  Each task names the
 * tasks it depends on; a plain name is a mandatory dependency and a name
 * written with a leading '?' is a suggested one, dropped when the caller
 * asks to skip it.  Planning orders every needed task after the tasks it
 * depends on; executing runs the plan, announcing each task before and
 * after it runs.
 */
module TaskEngine {
  import opened Wrappers

  /** One entry of a task's dependency list: 'X' or '?X'. */
  datatype Dep<N> = Must(name: N) | Suggest(name: N)

  /** The tasks of an engine, by name, with their dependency lists. */
  type Graph<N> = map<N, seq<Dep<N>>>

  datatype PlanError<N> = UnknownTask(name: N) | Circular(name: N)

  predicate NoDup<T(==)>(s: seq<T>)
  {
    forall i, j :: 0 <= i < j < |s| ==> s[i] != s[j]
  }

  /** Task x, once planned, needs d planned before it. */
  predicate Needs<N(==,!new)>(g: Graph<N>, x: N, d: N, skip: set<N>)
  {
    x in g && (Must(d) in g[x] || (Suggest(d) in g[x] && d !in skip))
  }

  /** The names a dependency list asks for, suggested ones in skip left out, in list order. */
  function Wanted<N(==,!new)>(deps: seq<Dep<N>>, skip: set<N>): (r: seq<N>)
    ensures forall d :: d in r <==> (Must(d) in deps || (Suggest(d) in deps && d !in skip))
  {
    if |deps| == 0 then []
    else
      var rest := Wanted(deps[1..], skip);
      assert forall e :: e in deps <==> e == deps[0] || e in deps[1..];
      match deps[0]
      case Must(d) => [d] + rest
      case Suggest(d) => if d in skip then rest else [d] + rest
  }

  function Subgoals<N(==,!new)>(g: Graph<N>, t: N, skip: set<N>): (r: seq<N>)
    requires t in g
    ensures forall d :: d in r <==> Needs(g, t, d, skip)
  {
    Wanted(g[t], skip)
  }

  /** A name in the skip list does not count when it is itself one of the goals. */
  function EffectiveSkip<N(==,!new)>(goals: seq<N>, skip: seq<N>): (r: set<N>)
    ensures forall x :: x in r <==> x in skip && x !in goals
  {
    set x | x in skip && x !in goals
  }

  /** Every task of s is known, and everything it needs comes earlier in s. */
  ghost predicate Ordered<N(!new)>(g: Graph<N>, s: seq<N>, skip: set<N>)
  {
    (forall i :: 0 <= i < |s| ==> s[i] in g) &&
    (forall i, d :: 0 <= i < |s| && Needs(g, s[i], d, skip) ==> d in s[..i])
  }

  // ---------------------------------------------------------------- planning

  /** Taking one more name onto the path shrinks the set of tasks not yet on it. */
  lemma PathGrows<N(!new)>(keys: set<N>, path: set<N>, t: N)
    requires t in keys && t !in path
    ensures |keys - (path + {t})| < |keys - path|
  {
    Smaller(keys - (path + {t}), keys - path, t);
  }

  /** A set missing a member of a superset has fewer members. */
  lemma Smaller<T>(a: set<T>, b: set<T>, x: T)
    requires a <= b && x in b && x !in a
    ensures |a| < |b|
  {
    assert a * b == a;
    assert b - a != {} by {
      assert x in b - a;
    }
    assert |b| == |b - a| + |a|;
  }

  /**
   * Plans t on top of the tasks already planned in `done`; `path` holds the
   * tasks whose dependencies are being planned, so meeting one of them
   * again is a cycle.
   */
  function Visit<N(==,!new)>(g: Graph<N>, skip: set<N>, t: N, path: set<N>, done: seq<N>): (r: Result<seq<N>, PlanError<N>>)
    requires NoDup(done) && Ordered(g, done, skip)
    ensures r.Ok? ==> |done| <= |r.value| && r.value[..|done|] == done
    ensures r.Ok? ==> t in r.value && NoDup(r.value) && Ordered(g, r.value, skip)
    ensures r.Ok? ==> forall i :: |done| <= i < |r.value| ==> r.value[i] !in path
    decreases |g.Keys - path|, 0, 0
  {
    if t in done then Ok(done)
    else if t in path then Err(Circular(t))
    else if t !in g then Err(UnknownTask(t))
    else
      PathGrows(g.Keys, path, t);
      var subs := Subgoals(g, t, skip);
      var done1 :- VisitAll(g, skip, subs, path + {t}, done);
      assert t !in done1 by {
        assert forall i :: 0 <= i < |done| ==> done1[i] == done[i];
      }
      AppendOrdered(g, done1, t, skip, subs);
      Ok(done1 + [t])
  }

  /** Appending a known task whose needs are all planned keeps the plan ordered. */
  lemma AppendOrdered<N(!new)>(g: Graph<N>, s: seq<N>, t: N, skip: set<N>, subs: seq<N>)
    requires Ordered(g, s, skip) && t in g && subs == Subgoals(g, t, skip)
    requires forall x :: x in subs ==> x in s
    ensures Ordered(g, s + [t], skip)
  {
    var s' := s + [t];
    forall i, d | 0 <= i < |s'| && Needs(g, s'[i], d, skip)
      ensures d in s'[..i]
    {
      if i < |s| {
        assert s'[..i] == s[..i];
      } else {
        assert s'[..i] == s;
        assert d in subs;
      }
    }
  }

  /** Plans each of ts in turn. */
  function VisitAll<N(==,!new)>(g: Graph<N>, skip: set<N>, ts: seq<N>, path: set<N>, done: seq<N>): (r: Result<seq<N>, PlanError<N>>)
    requires NoDup(done) && Ordered(g, done, skip)
    ensures r.Ok? ==> |done| <= |r.value| && r.value[..|done|] == done
    ensures r.Ok? ==> (forall x :: x in ts ==> x in r.value) && NoDup(r.value) && Ordered(g, r.value, skip)
    ensures r.Ok? ==> forall i :: |done| <= i < |r.value| ==> r.value[i] !in path
    decreases |g.Keys - path|, 1, |ts|
  {
    if |ts| == 0 then Ok(done)
    else
      var d1 :- Visit(g, skip, ts[0], path, done);
      var r := VisitAll(g, skip, ts[1..], path, d1);
      if r.Ok? then
        assert forall i :: 0 <= i < |d1| ==> r.value[i] == d1[i];
        assert forall x :: x in ts ==> x == ts[0] || x in ts[1..];
        r
      else r
  }

  /**
   * _plan: the tasks the goals need, each once, each after what it needs.
   * The skip list only drops suggested dependencies that are not goals.
   */
  function Plan<N(==,!new)>(g: Graph<N>, goals: seq<N>, skip: seq<N>): (r: Result<seq<N>, PlanError<N>>)
    ensures r.Ok? ==> NoDup(r.value) && Ordered(g, r.value, EffectiveSkip(goals, skip))
    ensures r.Ok? ==> forall x :: x in goals ==> x in r.value
  {
    VisitAll(g, EffectiveSkip(goals, skip), goals, {}, [])
  }

  /** S holds every task its own members need. */
  ghost predicate Closed<N(!new)>(g: Graph<N>, s: set<N>, skip: set<N>)
  {
    forall x, d :: x in s && Needs(g, x, d, skip) ==> d in s
  }

  /** Visiting only ever adds tasks of a closed set that holds the start. */
  lemma {:induction false} VisitWithin<N(!new)>(g: Graph<N>, skip: set<N>, t: N, path: set<N>, done: seq<N>, s: set<N>)
    requires NoDup(done) && Ordered(g, done, skip)
    requires Closed(g, s, skip) && t in s && forall x :: x in done ==> x in s
    ensures Visit(g, skip, t, path, done).Ok? ==> forall x :: x in Visit(g, skip, t, path, done).value ==> x in s
    decreases |g.Keys - path|, 0, 0
  {
    if t !in done && t !in path && t in g {
      PathGrows(g.Keys, path, t);
      var subs := Subgoals(g, t, skip);
      VisitAllWithin(g, skip, subs, path + {t}, done, s);
    }
  }

  lemma {:induction false} VisitAllWithin<N(!new)>(g: Graph<N>, skip: set<N>, ts: seq<N>, path: set<N>, done: seq<N>, s: set<N>)
    requires NoDup(done) && Ordered(g, done, skip)
    requires Closed(g, s, skip) && (forall x :: x in ts ==> x in s) && forall x :: x in done ==> x in s
    ensures VisitAll(g, skip, ts, path, done).Ok? ==> forall x :: x in VisitAll(g, skip, ts, path, done).value ==> x in s
    decreases |g.Keys - path|, 1, |ts|
  {
    if |ts| > 0 {
      VisitWithin(g, skip, ts[0], path, done, s);
      var d1 := Visit(g, skip, ts[0], path, done);
      if d1.Ok? {
        VisitAllWithin(g, skip, ts[1..], path, d1.value, s);
      }
    }
  }

  /**
   * The plan needs nothing beyond what the goals need: it lies inside every
   * closed set holding the goals.  Being ordered, it is closed itself, so it
   * is exactly the tasks the goals reach.
   */
  lemma PlanLeast<N(!new)>(g: Graph<N>, goals: seq<N>, skip: seq<N>, s: set<N>)
    requires Closed(g, s, EffectiveSkip(goals, skip)) && forall x :: x in goals ==> x in s
    ensures Plan(g, goals, skip).Ok? ==> forall x :: x in Plan(g, goals, skip).value ==> x in s
  {
    VisitAllWithin(g, EffectiveSkip(goals, skip), goals, {}, [], s);
  }

  /** An ordered plan is closed: whatever a planned task needs is planned. */
  lemma PlanClosed<N(!new)>(g: Graph<N>, goals: seq<N>, skip: seq<N>)
    ensures var r := Plan(g, goals, skip);
      r.Ok? ==> Closed(g, (set x | x in r.value), EffectiveSkip(goals, skip))
  {
    var r := Plan(g, goals, skip);
    if r.Ok? {
      var s := set x | x in r.value;
      forall x, d | x in s && Needs(g, x, d, EffectiveSkip(goals, skip))
        ensures d in s
      {
        var i :| 0 <= i < |r.value| && r.value[i] == x;
        assert d in r.value[..i];
      }
    }
  }

  /** Planning one goal ends with that goal. */
  lemma PlanEndsWithGoal<N(!new)>(g: Graph<N>, t: N, skip: seq<N>)
    ensures Plan(g, [t], skip).Ok? ==> |Plan(g, [t], skip).value| > 0 && Plan(g, [t], skip).value[|Plan(g, [t], skip).value| - 1] == t
  {
    var sk := EffectiveSkip([t], skip);
    var v := Visit(g, sk, t, {}, []);
    if v.Ok? {
      assert VisitAll(g, sk, [t][1..], {}, v.value) == Ok(v.value);
    }
  }

  // ---------------------------------------------------------------- when planning succeeds

  /**
   * A ranking of tasks: every ranked task is known, and whatever it needs is
   * ranked strictly lower.  A plan's positions are one (PlanRanks); having
   * one for the goals is enough for planning to succeed (PlanSucceeds).
   */
  ghost predicate Ranked<N(!new)>(g: Graph<N>, skip: set<N>, rank: map<N, nat>)
  {
    (forall x :: x in rank ==> x in g) &&
    (forall x, d :: x in rank && Needs(g, x, d, skip) ==> d in rank && rank[d] < rank[x])
  }

  /** Every task ranked lower than each task on the path. */
  ghost predicate Below<N(!new)>(rank: map<N, nat>, t: N, path: set<N>)
  {
    t in rank && forall p :: p in path ==> p in rank && rank[t] < rank[p]
  }

  lemma {:induction false} VisitSucceeds<N(!new)>(g: Graph<N>, skip: set<N>, rank: map<N, nat>, t: N, path: set<N>, done: seq<N>)
    requires NoDup(done) && Ordered(g, done, skip)
    requires Ranked(g, skip, rank) && Below(rank, t, path)
    ensures Visit(g, skip, t, path, done).Ok?
    decreases |g.Keys - path|, 0, 0
  {
    if t !in done {
      assert t !in path;
      PathGrows(g.Keys, path, t);
      var subs := Subgoals(g, t, skip);
      forall x | x in subs
        ensures Below(rank, x, path + {t})
      {
        assert Needs(g, t, x, skip);
      }
      VisitAllSucceeds(g, skip, rank, subs, path + {t}, done);
    }
  }

  lemma {:induction false} VisitAllSucceeds<N(!new)>(g: Graph<N>, skip: set<N>, rank: map<N, nat>, ts: seq<N>, path: set<N>, done: seq<N>)
    requires NoDup(done) && Ordered(g, done, skip)
    requires Ranked(g, skip, rank) && forall x :: x in ts ==> Below(rank, x, path)
    ensures VisitAll(g, skip, ts, path, done).Ok?
    decreases |g.Keys - path|, 1, |ts|
  {
    if |ts| > 0 {
      VisitSucceeds(g, skip, rank, ts[0], path, done);
      var d1 := Visit(g, skip, ts[0], path, done).value;
      VisitAllSucceeds(g, skip, rank, ts[1..], path, d1);
    }
  }

  /** Planning succeeds whenever the goals can be ranked. */
  lemma PlanSucceeds<N(!new)>(g: Graph<N>, goals: seq<N>, skip: seq<N>, rank: map<N, nat>)
    requires Ranked(g, EffectiveSkip(goals, skip), rank) && forall x :: x in goals ==> x in rank
    ensures Plan(g, goals, skip).Ok?
  {
    VisitAllSucceeds(g, EffectiveSkip(goals, skip), rank, goals, {}, []);
  }

  /** Each task of a duplicate-free sequence mapped to its position. */
  function Positions<N(==,!new)>(s: seq<N>): (m: map<N, nat>)
    requires NoDup(s)
    ensures forall x :: x in m <==> x in s
    ensures forall i :: 0 <= i < |s| ==> m[s[i]] == i
  {
    if |s| == 0 then map[]
    else
      var m := Positions(s[..|s| - 1]);
      assert forall x :: x in s <==> x in s[..|s| - 1] || x == s[|s| - 1];
      m[s[|s| - 1] := |s| - 1]
  }

  /** A successful plan ranks its tasks by position, so a ranking exists exactly when planning succeeds. */
  lemma PlanRanks<N(!new)>(g: Graph<N>, goals: seq<N>, skip: seq<N>)
    ensures var r := Plan(g, goals, skip);
      r.Ok? ==> Ranked(g, EffectiveSkip(goals, skip), Positions(r.value)) && forall x :: x in goals ==> x in Positions(r.value)
  {
    var r := Plan(g, goals, skip);
    if r.Ok? {
      var s := r.value;
      var m := Positions(s);
      var sk := EffectiveSkip(goals, skip);
      forall x, d | x in m && Needs(g, x, d, sk)
        ensures d in m && m[d] < m[x]
      {
        var i :| 0 <= i < |s| && s[i] == x;
        assert d in s[..i];
        var j :| 0 <= j < i && s[..i][j] == d;
        assert s[j] == d;
      }
    }
  }

  // ---------------------------------------------------------------- what planning errors mean

  /** Each task of c needs the next one. */
  ghost predicate Chain<N(!new)>(g: Graph<N>, skip: set<N>, c: seq<N>)
  {
    forall i :: 0 <= i < |c| - 1 ==> Needs(g, c[i], c[i + 1], skip)
  }

  /** n needs, step by step, itself again. */
  ghost predicate OnCycle<N(!new)>(g: Graph<N>, skip: set<N>, n: N)
  {
    exists c :: |c| >= 2 && c[0] == n && c[|c| - 1] == n && Chain(g, skip, c)
  }

  /** An unknown task is one a visited task reaches; a circular one is on a cycle. */
  ghost predicate ErrorMeaning<N(!new)>(g: Graph<N>, skip: set<N>, r: Result<seq<N>, PlanError<N>>, s: set<N>)
  {
    r.Err? ==>
      r.error.name in s &&
      (r.error.UnknownTask? ==> r.error.name !in g) &&
      (r.error.Circular? ==> OnCycle(g, skip, r.error.name))
  }

  /**
   * Visiting t with the tasks of `stack` on the path, where `stack` is a chain
   * whose last task needs t: an error names a task of the closed set s, an
   * unknown one is missing from the graph, and a circular one closes a cycle.
   */
  lemma {:induction false} VisitErrors<N(!new)>(g: Graph<N>, skip: set<N>, t: N, path: set<N>, done: seq<N>, s: set<N>, stack: seq<N>)
    requires NoDup(done) && Ordered(g, done, skip)
    requires Closed(g, s, skip) && t in s
    requires (forall x :: x in path <==> x in stack) && Chain(g, skip, stack)
    requires |stack| > 0 ==> Needs(g, stack[|stack| - 1], t, skip)
    ensures ErrorMeaning(g, skip, Visit(g, skip, t, path, done), s)
    decreases |g.Keys - path|, 0, 0
  {
    if t in done {
    } else if t in path {
      var i :| 0 <= i < |stack| && stack[i] == t;
      CycleFromStack(g, skip, stack, i, t);
    } else if t in g {
      PathGrows(g.Keys, path, t);
      var subs := Subgoals(g, t, skip);
      ChainExtend(g, skip, stack, t);
      VisitAllErrors(g, skip, subs, path + {t}, done, s, stack + [t]);
      VisitPassesErrors(g, skip, t, path, done);
    }
  }

  /** A chain whose last task needs t extends by t. */
  lemma ChainExtend<N(!new)>(g: Graph<N>, skip: set<N>, stack: seq<N>, t: N)
    requires Chain(g, skip, stack) && (|stack| > 0 ==> Needs(g, stack[|stack| - 1], t, skip))
    ensures Chain(g, skip, stack + [t])
  {
    var c := stack + [t];
    forall i | 0 <= i < |c| - 1
      ensures Needs(g, c[i], c[i + 1], skip)
    {
      if i < |stack| - 1 {
        assert c[i] == stack[i] && c[i + 1] == stack[i + 1];
      }
    }
  }

  /** Visiting a fresh known task fails exactly as visiting its subgoals does. */
  lemma VisitPassesErrors<N(!new)>(g: Graph<N>, skip: set<N>, t: N, path: set<N>, done: seq<N>)
    requires NoDup(done) && Ordered(g, done, skip) && t !in done && t !in path && t in g
    ensures Visit(g, skip, t, path, done).Err? ==>
      Visit(g, skip, t, path, done) == VisitAll(g, skip, Subgoals(g, t, skip), path + {t}, done)
  {
  }

  lemma {:induction false} VisitAllErrors<N(!new)>(g: Graph<N>, skip: set<N>, ts: seq<N>, path: set<N>, done: seq<N>, s: set<N>, stack: seq<N>)
    requires NoDup(done) && Ordered(g, done, skip)
    requires Closed(g, s, skip) && forall x :: x in ts ==> x in s
    requires (forall x :: x in path <==> x in stack) && Chain(g, skip, stack)
    requires |stack| > 0 ==> forall x :: x in ts ==> Needs(g, stack[|stack| - 1], x, skip)
    ensures ErrorMeaning(g, skip, VisitAll(g, skip, ts, path, done), s)
    decreases |g.Keys - path|, 1, |ts|
  {
    if |ts| > 0 {
      assert ts[0] in ts;
      VisitErrors(g, skip, ts[0], path, done, s, stack);
      var v := Visit(g, skip, ts[0], path, done);
      if v.Ok? {
        assert forall x :: x in ts[1..] ==> x in ts;
        VisitAllErrors(g, skip, ts[1..], path, v.value, s, stack);
      }
    }
  }

  /** The stack from t's position on, closed by t again, is a cycle through t. */
  lemma CycleFromStack<N(!new)>(g: Graph<N>, skip: set<N>, stack: seq<N>, i: nat, t: N)
    requires i < |stack| && stack[i] == t && Chain(g, skip, stack)
    requires Needs(g, stack[|stack| - 1], t, skip)
    ensures OnCycle(g, skip, t)
  {
    var c := stack[i..] + [t];
    forall j | 0 <= j < |c| - 1
      ensures Needs(g, c[j], c[j + 1], skip)
    {
      if j < |stack| - i - 1 {
        assert c[j] == stack[i + j] && c[j + 1] == stack[i + j + 1];
      }
    }
    assert |c| >= 2 && c[0] == t && c[|c| - 1] == t && Chain(g, skip, c);
  }

  /**
   * What a planning error means: the task it names is one the goals reach (it
   * lies in every closed set holding them); an UnknownTask is not in the
   * graph, and a Circular task needs itself through a chain of needs.
   */
  lemma PlanErrors<N(!new)>(g: Graph<N>, goals: seq<N>, skip: seq<N>, s: set<N>)
    requires Closed(g, s, EffectiveSkip(goals, skip)) && forall x :: x in goals ==> x in s
    ensures var r := Plan(g, goals, skip); r.Err? ==> r.error.name in s
    ensures var r := Plan(g, goals, skip); r.Err? && r.error.UnknownTask? ==> r.error.name !in g
    ensures var r := Plan(g, goals, skip); r.Err? && r.error.Circular? ==> OnCycle(g, EffectiveSkip(goals, skip), r.error.name)
  {
    VisitAllErrors(g, EffectiveSkip(goals, skip), goals, {}, [], s, []);
  }

  // ---------------------------------------------------------------- dependents

  /** _depending_on: the tasks that list t as a mandatory dependency. */
  function DependingOn<N(==,!new)>(g: Graph<N>, t: N): (r: set<N>)
    ensures forall n :: n in r <==> n in g && Must(t) in g[n]
  {
    set n | n in g && Must(t) in g[n]
  }

  /** Every dependent of a member is a member. */
  ghost predicate UpClosed<N(!new)>(g: Graph<N>, s: set<N>)
  {
    forall y, n :: y in s && n in g && Must(y) in g[n] ==> n in s
  }

  /** The names reached in one more step from the frontier. */
  function NextLayer<N(==,!new)>(g: Graph<N>, seen: set<N>, frontier: set<N>): (r: set<N>)
    ensures forall n :: n in r <==> n in g && n !in seen && exists f :: f in frontier && Must(f) in g[n]
  {
    set n | n in g && n !in seen && exists f :: f in frontier && Must(f) in g[n]
  }

  /** Widens `seen` by the dependents of the frontier until nothing new turns up. */
  function Explore<N(==,!new)>(g: Graph<N>, seen: set<N>, frontier: set<N>): (r: set<N>)
    requires frontier <= seen
    requires forall y, n :: y in seen - frontier && n in g && Must(y) in g[n] ==> n in seen
    ensures seen <= r && UpClosed(g, r)
    decreases |g.Keys - seen|, |frontier|
  {
    if frontier == {} then seen
    else
      var next := NextLayer(g, seen, frontier);
      if next == {} then Explore(g, seen, {})
      else
        var n :| n in next;
        Smaller(g.Keys - (seen + next), g.Keys - seen, n);
        Explore(g, seen + next, next)
  }

  /** _depending_on_closure: t and everything that depends on it, directly or not. */
  function DependingOnClosure<N(==,!new)>(g: Graph<N>, t: N): (r: set<N>)
    ensures t in r && UpClosed(g, r)
  {
    Explore(g, {t}, {t})
  }

  lemma {:induction false} ExploreLeast<N(!new)>(g: Graph<N>, seen: set<N>, frontier: set<N>, s: set<N>)
    requires frontier <= seen
    requires forall y, n :: y in seen - frontier && n in g && Must(y) in g[n] ==> n in seen
    requires seen <= s && UpClosed(g, s)
    ensures Explore(g, seen, frontier) <= s
    decreases |g.Keys - seen|, |frontier|
  {
    if frontier != {} {
      var next := NextLayer(g, seen, frontier);
      if next == {} {
        ExploreLeast(g, seen, {}, s);
      } else {
        var n :| n in next;
        Smaller(g.Keys - (seen + next), g.Keys - seen, n);
        ExploreLeast(g, seen + next, next, s);
      }
    }
  }

  /** The closure is the least set holding t that is closed under dependents. */
  lemma ClosureLeast<N(!new)>(g: Graph<N>, t: N, s: set<N>)
    requires t in s && UpClosed(g, s)
    ensures DependingOnClosure(g, t) <= s
  {
    ExploreLeast(g, {t}, {t}, s);
  }

  // ---------------------------------------------------------------- execution

  /** The events of a run: the engine's announcements and the tasks' own effect. */
  datatype Event<N> = Pre(task: N) | Did(task: N) | Failed(task: N) | Post(task: N)

  datatype ExecError<N> = PlanFailed(e: PlanError<N>) | TaskFailed(task: N)

  /** The announcement pattern of a successful run of the given tasks. */
  function Bracketed<N(==,!new)>(ts: seq<N>): (r: seq<Event<N>>)
    ensures |r| == 3 * |ts|
    ensures forall i :: 0 <= i < |ts| ==> r[3 * i] == Pre(ts[i]) && r[3 * i + 1] == Did(ts[i]) && r[3 * i + 2] == Post(ts[i])
  {
    if |ts| == 0 then [] else [Pre(ts[0]), Did(ts[0]), Post(ts[0])] + Bracketed(ts[1..])
  }

  /** Runs planned tasks in order; the first task in `fails` raises after its 'pre' event and ends the run. */
  function RunPlan<N(==,!new)>(plan: seq<N>, fails: set<N>): (r: (seq<Event<N>>, Result<(), ExecError<N>>))
    ensures r.1.Ok? <==> forall t :: t in plan ==> t !in fails
    ensures r.1.Err? ==> r.1.error.TaskFailed? && r.1.error.task in plan && r.1.error.task in fails
  {
    if |plan| == 0 then ([], Ok(()))
    else if plan[0] in fails then ([Pre(plan[0]), Failed(plan[0])], Err(TaskFailed(plan[0])))
    else
      var (rest, res) := RunPlan(plan[1..], fails);
      assert forall t :: t in plan ==> t == plan[0] || t in plan[1..];
      ([Pre(plan[0]), Did(plan[0]), Post(plan[0])] + rest, res)
  }

  /** _execute: plan the goals, then run the plan. */
  function Execute<N(==,!new)>(g: Graph<N>, goals: seq<N>, skip: seq<N>, fails: set<N>): (r: (seq<Event<N>>, Result<(), ExecError<N>>))
    ensures Plan(g, goals, skip).Err? ==> r == ([], Err(PlanFailed(Plan(g, goals, skip).error)))
    ensures r.1.Ok? ==> Plan(g, goals, skip).Ok? && forall t :: t in Plan(g, goals, skip).value ==> t !in fails
  {
    var plan := Plan(g, goals, skip);
    if plan.Err? then ([], Err(PlanFailed(plan.error))) else RunPlan(plan.value, fails)
  }

  /** The run's events up to the first failing task: every earlier task bracketed, then 'pre' and the failure. */
  lemma {:induction false} RunPlanTrace<N(!new)>(plan: seq<N>, fails: set<N>, k: nat)
    requires k <= |plan| && forall i :: 0 <= i < k ==> plan[i] !in fails
    requires k == |plan| || plan[k] in fails
    ensures RunPlan(plan, fails).0 == Bracketed(plan[..k]) + (if k < |plan| then [Pre(plan[k]), Failed(plan[k])] else [])
  {
    if k == 0 {
      assert plan[..k] == [];
    } else {
      RunPlanTrace(plan[1..], fails, k - 1);
      assert plan[..k][1..] == plan[1..][..k - 1];
    }
  }

  /** Without failures every planned task runs exactly once, between its 'pre' and 'post' events. */
  lemma ExecuteTrace<N(!new)>(g: Graph<N>, goals: seq<N>, skip: seq<N>)
    requires Plan(g, goals, skip).Ok?
    ensures Execute(g, goals, skip, {}).0 == Bracketed(Plan(g, goals, skip).value) && Execute(g, goals, skip, {}).1.Ok?
  {
    var p := Plan(g, goals, skip).value;
    RunPlanTrace(p, {}, |p|);
    assert p[..|p|] == p;
    assert Bracketed(p) + [] == Bracketed(p);

  }

  // ---------------------------------------------------------------- examples

  /** The engine of the tests: A needs B and suggests C, C needs B, D needs E, E needs F. */
  function Abc(): Graph<char>
  {
    map['A' := [Must('B'), Suggest('C')], 'B' := [], 'C' := [Must('B')],
        'D' := [Must('E')], 'E' := [Must('F')], 'F' := []]
  }

  /**
   * What the plan examples use of the test engine: A, B and C are known,
   * their subgoals under skip set sk, and the partial plans met on the way
   * are ordered.
   */
  ghost predicate Shaped(g: Graph<char>, sk: set<char>)
  {
    && 'A' in g && 'B' in g && 'C' in g
    && Subgoals(g, 'B', sk) == [] && Subgoals(g, 'C', sk) == ['B']
    && Subgoals(g, 'A', sk) == (if 'C' in sk then ['B'] else ['B', 'C'])
    && Ordered(g, [], sk) && Ordered(g, ['B'], sk) && Ordered(g, ['B', 'C'], sk)
  }

  /** The test engine has that shape under every skip set. */
  lemma AbcShaped(sk: set<char>)
    ensures Shaped(Abc(), sk)
  {
    var g := Abc();
    var da := [Must('B'), Suggest('C')];
    assert g['A'] == da && g['B'] == [] && g['C'] == [Must('B')];
    assert da[1..] == [Suggest('C')] && da[1..][1..] == [];
    assert Wanted(da[1..], sk) == if 'C' in sk then [] else ['C'];
    assert Wanted(da, sk) == ['B'] + Wanted(da[1..], sk);
    assert Wanted([Must('B')], sk) == ['B'] + Wanted([Must('B')][1..], sk);
    assert ['B', 'C'][..1] == ['B'];
  }

  /** Visiting a task not yet planned and not on the path plans its subgoals, then the task. */
  lemma VisitUnfold<N(!new)>(g: Graph<N>, sk: set<N>, t: N, path: set<N>, done: seq<N>, d1: seq<N>)
    requires NoDup(done) && Ordered(g, done, sk) && t !in done && t !in path && t in g
    requires VisitAll(g, sk, Subgoals(g, t, sk), path + {t}, done) == Ok(d1)
    ensures Visit(g, sk, t, path, done) == Ok(d1 + [t])
  {
  }

  /** Visiting a list whose head succeeds continues with the rest. */
  lemma VisitAllStep<N(!new)>(g: Graph<N>, sk: set<N>, ts: seq<N>, path: set<N>, done: seq<N>, d1: seq<N>)
    requires NoDup(done) && Ordered(g, done, sk) && |ts| > 0
    requires Visit(g, sk, ts[0], path, done) == Ok(d1)
    ensures NoDup(d1) && Ordered(g, d1, sk)
    ensures VisitAll(g, sk, ts, path, done) == VisitAll(g, sk, ts[1..], path, d1)
  {
  }

  /** Visiting a one-element list is visiting its element. */
  lemma VisitAllOne<N(!new)>(g: Graph<N>, sk: set<N>, t: N, path: set<N>, done: seq<N>)
    requires NoDup(done) && Ordered(g, done, sk)
    ensures VisitAll(g, sk, [t], path, done) == Visit(g, sk, t, path, done)
  {
    var v := Visit(g, sk, t, path, done);
    if v.Ok? {
      assert VisitAll(g, sk, [t][1..], path, v.value) == Ok(v.value);
    }
  }

  /** B needs nothing, so visiting it appends it. */
  lemma VisitB(g: Graph<char>, sk: set<char>, path: set<char>, done: seq<char>)
    requires Shaped(g, sk) && NoDup(done) && Ordered(g, done, sk) && 'B' !in done && 'B' !in path
    ensures Visit(g, sk, 'B', path, done) == Ok(done + ['B'])
  {
    VisitUnfold(g, sk, 'B', path, done, done);
  }

  /** C needs B; with B planned, visiting C appends C. */
  lemma VisitC(g: Graph<char>, sk: set<char>, path: set<char>, done: seq<char>)
    requires Shaped(g, sk) && NoDup(done) && Ordered(g, done, sk) && 'B' in done && 'C' !in done && 'C' !in path
    ensures Visit(g, sk, 'C', path, done) == Ok(done + ['C'])
  {
    VisitAllOne(g, sk, 'B', path + {'C'}, done);
    VisitUnfold(g, sk, 'C', path, done, done);
  }

  /** Planned from nothing, C brings B in first. */
  lemma VisitCFresh(g: Graph<char>, sk: set<char>, path: set<char>)
    requires Shaped(g, sk) && 'B' !in path && 'C' !in path
    ensures Visit(g, sk, 'C', path, []) == Ok(['B', 'C'])
  {
    VisitLeafThenParent(g, sk, 'B', 'C', path);
  }

  /** A parent whose only subgoal b needs nothing is planned from nothing as [b, c]. */
  lemma VisitLeafThenParent<N(!new)>(g: Graph<N>, sk: set<N>, b: N, c: N, path: set<N>)
    requires b in g && c in g && b != c && b !in path && c !in path
    requires Subgoals(g, b, sk) == [] && Subgoals(g, c, sk) == [b] && Ordered(g, [], sk)
    ensures Visit(g, sk, c, path, []) == Ok([b, c])
  {
    VisitLeafAlone(g, sk, b, path + {c});
    VisitUnfold(g, sk, c, path, [], [b]);
    assert [b] + [c] == [b, c];
  }

  /** A task that needs nothing, planned alone from nothing, is the whole plan. */
  lemma VisitLeafAlone<N(!new)>(g: Graph<N>, sk: set<N>, b: N, p: set<N>)
    requires b in g && b !in p && Subgoals(g, b, sk) == [] && Ordered(g, [], sk)
    ensures VisitAll(g, sk, [b], p, []) == Ok([b])
  {
    VisitUnfold(g, sk, b, p, [], []);
    assert [] + [b] == [b];
    VisitAllOne(g, sk, b, p, []);
  }

  /** With B planned or not, visiting B on top gives [B]. */
  lemma VisitBOnce(g: Graph<char>, sk: set<char>, path: set<char>, done: seq<char>)
    requires Shaped(g, sk) && (done == [] || done == ['B']) && 'B' !in path
    ensures Visit(g, sk, 'B', path, done) == Ok(['B'])
  {
    if done == [] {
      VisitB(g, sk, path, []);
      assert [] + ['B'] == ['B'];
    }
  }

  /** A with C skipped brings in B only. */
  lemma VisitASkipC(g: Graph<char>, sk: set<char>, done: seq<char>)
    requires Shaped(g, sk) && 'C' in sk && (done == [] || done == ['B'])
    ensures Visit(g, sk, 'A', {}, done) == Ok(['B', 'A'])
  {
    var p: set<char> := {} + {'A'};
    VisitBOnce(g, sk, p, done);
    VisitAllOne(g, sk, 'B', p, done);
    VisitUnfold(g, sk, 'A', {}, done, ['B']);
    assert ['B'] + ['A'] == ['B', 'A'];
  }

  /** A's subgoals B and C, visited on A's path. */
  lemma VisitBThenC(g: Graph<char>, sk: set<char>, p: set<char>, done: seq<char>)
    requires Shaped(g, sk) && (done == [] || done == ['B']) && 'B' !in p && 'C' !in p
    ensures VisitAll(g, sk, ['B', 'C'], p, done) == Ok(['B', 'C'])
  {
    VisitBOnce(g, sk, p, done);
    VisitAllStep(g, sk, ['B', 'C'], p, done, ['B']);
    assert ['B', 'C'][1..] == ['C'];
    VisitCAfterB(g, sk, p);
  }

  /** With B planned, the list [C] adds C alone. */
  lemma VisitCAfterB(g: Graph<char>, sk: set<char>, p: set<char>)
    requires Shaped(g, sk) && 'C' !in p
    ensures VisitAll(g, sk, ['C'], p, ['B']) == Ok(['B', 'C'])
  {
    VisitC(g, sk, p, ['B']);
    assert ['B'] + ['C'] == ['B', 'C'];
    VisitAllOne(g, sk, 'C', p, ['B']);
  }

  /** A with C not skipped brings in B, then C. */
  lemma VisitAWithC(g: Graph<char>, sk: set<char>, done: seq<char>)
    requires Shaped(g, sk) && 'C' !in sk && (done == [] || done == ['B'])
    ensures Visit(g, sk, 'A', {}, done) == Ok(['B', 'C', 'A'])
  {
    VisitBThenC(g, sk, {} + {'A'}, done);
    VisitUnfold(g, sk, 'A', {}, done, ['B', 'C']);
    assert ['B', 'C'] + ['A'] == ['B', 'C', 'A'];
  }

  /** Planning B alone. */
  lemma PlanB(g: Graph<char>)
    requires Shaped(g, {})
    ensures Plan(g, ['B'], []) == Ok(['B'])
  {
    assert EffectiveSkip(['B'], []) == {};
    VisitBOnce(g, {}, {}, []);
    VisitAllOne(g, {}, 'B', {}, []);
  }

  /** Planning C alone brings in B first. */
  lemma PlanC(g: Graph<char>)
    requires Shaped(g, {})
    ensures Plan(g, ['C'], []) == Ok(['B', 'C'])
  {
    assert EffectiveSkip(['C'], []) == {};
    VisitCFresh(g, {}, {});
    VisitAllOne(g, {}, 'C', {}, []);
  }

  /** Planning A alone brings in B and the suggested C. */
  lemma PlanA(g: Graph<char>)
    requires Shaped(g, {})
    ensures Plan(g, ['A'], []) == Ok(['B', 'C', 'A'])
  {
    assert EffectiveSkip(['A'], []) == {};
    VisitAWithC(g, {}, []);
    VisitAllOne(g, {}, 'A', {}, []);
  }

  /** Planning A with C skipped. */
  lemma PlanSkipExample(g: Graph<char>)
    requires Shaped(g, {'C'})
    ensures Plan(g, ['A'], ['C']) == Ok(['B', 'A'])
  {
    assert EffectiveSkip(['A'], ['C']) == {'C'};
    VisitASkipC(g, {'C'}, []);
    VisitAllOne(g, {'C'}, 'A', {}, []);
  }

  /** Several goals: each task once, in dependency order. */
  lemma PlanBC(g: Graph<char>)
    requires Shaped(g, {})
    ensures Plan(g, ['B', 'C'], []) == Ok(['B', 'C'])
  {
    assert EffectiveSkip(['B', 'C'], []) == {};
    VisitBThenC(g, {}, {}, []);
  }

  /** The goals' order does not override the dependency order. */
  lemma PlanCB(g: Graph<char>)
    requires Shaped(g, {})
    ensures Plan(g, ['C', 'B'], []) == Ok(['B', 'C'])
  {
    assert EffectiveSkip(['C', 'B'], []) == {};
    VisitCFresh(g, {}, {});
    VisitAllStep(g, {}, ['C', 'B'], {}, [], ['B', 'C']);
    assert ['C', 'B'][1..] == ['B'];
    VisitAllOne(g, {}, 'B', {}, ['B', 'C']);
  }

  /** A goal already planned as another goal's dependency is not planned again. */
  lemma PlanBA(g: Graph<char>)
    requires Shaped(g, {})
    ensures Plan(g, ['B', 'A'], []) == Ok(['B', 'C', 'A'])
  {
    assert EffectiveSkip(['B', 'A'], []) == {};
    VisitBOnce(g, {}, {}, []);
    VisitAllStep(g, {}, ['B', 'A'], {}, [], ['B']);
    assert ['B', 'A'][1..] == ['A'];
    VisitAWithC(g, {}, ['B']);
    VisitAllOne(g, {}, 'A', {}, ['B']);
  }

  /** Skipping C drops it from A's plan. */
  lemma PlanBASkipC(g: Graph<char>)
    requires Shaped(g, {'C'})
    ensures Plan(g, ['B', 'A'], ['C']) == Ok(['B', 'A'])
  {
    assert EffectiveSkip(['B', 'A'], ['C']) == {'C'};
    VisitBOnce(g, {'C'}, {}, []);
    VisitAllStep(g, {'C'}, ['B', 'A'], {}, [], ['B']);
    assert ['B', 'A'][1..] == ['A'];
    VisitASkipC(g, {'C'}, ['B']);
    VisitAllOne(g, {'C'}, 'A', {}, ['B']);
  }

  /** A skipped task that is itself a goal is planned all the same. */
  lemma PlanSkippedGoalExamples(g: Graph<char>)
    requires Shaped(g, {})
    ensures Plan(g, ['B', 'A', 'C'], []) == Ok(['B', 'C', 'A'])
    ensures Plan(g, ['B', 'A', 'C'], ['C']) == Ok(['B', 'C', 'A'])
  {
    var goals := ['B', 'A', 'C'];
    assert EffectiveSkip(goals, ['C']) == {};
    assert EffectiveSkip(goals, []) == {};
    VisitBOnce(g, {}, {}, []);
    VisitAllStep(g, {}, goals, {}, [], ['B']);
    assert goals[1..] == ['A', 'C'];
    VisitAWithC(g, {}, ['B']);
    VisitAllStep(g, {}, ['A', 'C'], {}, ['B'], ['B', 'C', 'A']);
    assert ['A', 'C'][1..] == ['C'];
    VisitAllOne(g, {}, 'C', {}, ['B', 'C', 'A']);
  }

  lemma DependingOnExamples(g: Graph<char>)
    requires g == Abc()
    ensures DependingOn(g, 'C') == {} && DependingOn(g, 'A') == {} && DependingOn(g, 'D') == {}
    ensures DependingOn(g, 'B') == {'A', 'C'}
    ensures DependingOn(g, 'F') == {'E'} && DependingOn(g, 'E') == {'D'}
  {
    assert forall n :: n in g <==> n in {'A', 'B', 'C', 'D', 'E', 'F'};
    assert Suggest('C') in g['A'];
  }

  /** {'A', 'B', 'C'} and {'D', 'E', 'F'} hold all their members' dependents. */
  lemma AbcUpClosed(g: Graph<char>)
    requires g == Abc()
    ensures UpClosed(g, {'A', 'B', 'C'}) && UpClosed(g, {'C', 'A'}) && UpClosed(g, {'D', 'E', 'F'})
  {
    forall y, n | n in g && Must(y) in g[n]
      ensures (n == 'A' && y == 'B') || (n == 'C' && y == 'B') || (n == 'D' && y == 'E') || (n == 'E' && y == 'F')
    {
      assert n in {'A', 'B', 'C', 'D', 'E', 'F'};
      assert Suggest('C') != Must(y);
    }
  }

  /** Nothing depends on C: its closure is itself. */
  lemma ClosureOfC(g: Graph<char>)
    requires g == Abc()
    ensures DependingOnClosure(g, 'C') == {'C'}
  {
    assert UpClosed(g, {'C'}) by {
      forall y, n | y in {'C'} && n in g && Must(y) in g[n]
        ensures n in {'C'}
      {
        assert n in {'A', 'B', 'C', 'D', 'E', 'F'};
      }
    }
    ClosureLeast(g, 'C', {'C'});
  }

  /** A and C need B, so B's closure is the least closed set holding B: all three. */
  lemma ClosureOfB(g: Graph<char>)
    requires g == Abc()
    ensures DependingOnClosure(g, 'B') == {'A', 'B', 'C'}
  {
    AbcUpClosed(g);
    ClosureLeast(g, 'B', {'A', 'B', 'C'});
    var b := DependingOnClosure(g, 'B');
    assert Must('B') in g['A'] && Must('B') in g['C'];
    assert 'A' in b && 'C' in b;
  }

  /** E needs F and D needs E: the closure of F goes up the chain. */
  lemma ClosureOfF(g: Graph<char>)
    requires g == Abc()
    ensures DependingOnClosure(g, 'F') == {'D', 'E', 'F'}
  {
    AbcUpClosed(g);
    ClosureLeast(g, 'F', {'D', 'E', 'F'});
    var f := DependingOnClosure(g, 'F');
    assert Must('F') in g['E'];
    assert 'E' in f;
    assert Must('E') in g['D'];
  }

  /** Nothing depends on A or D, and only D depends on E. */
  lemma ClosureOfADE(g: Graph<char>)
    requires g == Abc()
    ensures DependingOnClosure(g, 'A') == {'A'}
    ensures DependingOnClosure(g, 'D') == {'D'}
    ensures DependingOnClosure(g, 'E') == {'D', 'E'}
  {
    forall y, n | n in g && Must(y) in g[n]
      ensures (n == 'A' && y == 'B') || (n == 'C' && y == 'B') || (n == 'D' && y == 'E') || (n == 'E' && y == 'F')
    {
      assert n in {'A', 'B', 'C', 'D', 'E', 'F'};
      assert Suggest('C') != Must(y);
    }
    ClosureLeast(g, 'A', {'A'});
    ClosureLeast(g, 'D', {'D'});
    ClosureLeast(g, 'E', {'D', 'E'});
    assert Must('E') in g['D'];
  }

  /** Running the planned examples: every task once, between its 'pre' and 'post' events. */
  lemma ExecuteExamples(g: Graph<char>)
    requires g == Abc()
    ensures Execute(g, ['A'], [], {}).0 == Bracketed(['B', 'C', 'A'])
    ensures Execute(g, ['A'], ['C'], {}).0 == Bracketed(['B', 'A'])
    ensures Execute(g, ['C', 'B'], [], {}).0 == Bracketed(['B', 'C'])
    ensures Execute(g, ['B', 'A', 'C'], ['C'], {}).0 == Bracketed(['B', 'C', 'A'])
  {
    AbcShaped({});
    AbcShaped({'C'});
    PlanA(g);
    PlanSkipExample(g);
    PlanCB(g);
    PlanSkippedGoalExamples(g);
    ExecuteTrace(g, ['A'], []);
    ExecuteTrace(g, ['A'], ['C']);
    ExecuteTrace(g, ['C', 'B'], []);
    ExecuteTrace(g, ['B', 'A', 'C'], ['C']);
  }

  /** A failing task stops the run after its 'pre' event; the tasks before it ran normally. */
  lemma RunFailureExample(p: seq<char>, fails: set<char>)
    requires p == ['B', 'C', 'A'] && fails == {'C'}
    ensures RunPlan(p, fails) == ([Pre('B'), Did('B'), Post('B'), Pre('C'), Failed('C')], Err(TaskFailed('C')))
  {
    RunPlanTrace(p, fails, 1);
    assert p[..1] == ['B'];
    assert Bracketed(['B']) == [Pre('B'), Did('B'), Post('B')] by {
      assert Bracketed(['B'][1..]) == [];
    }
    var r := RunPlan(p, fails);
    assert 'C' in p && 'C' in fails;
    assert r.1.Err? && r.1.error.TaskFailed? && r.1.error.task in fails;
    assert r.1 == Err(TaskFailed('C'));
    assert p[1] == 'C';
    assert r.0 == [Pre('B'), Did('B'), Post('B')] + [Pre('C'), Failed('C')];
    assert [Pre('B'), Did('B'), Post('B')] + [Pre('C'), Failed('C')] == [Pre('B'), Did('B'), Post('B'), Pre('C'), Failed('C')];
    assert r == (r.0, r.1);
  }

  /** The same failure seen through the engine's entry point. */
  lemma ExecuteFailureExample(g: Graph<char>, fails: set<char>)
    requires g == Abc() && fails == {'C'}
    ensures Execute(g, ['A'], [], fails) == ([Pre('B'), Did('B'), Post('B'), Pre('C'), Failed('C')], Err(TaskFailed('C')))
  {
    AbcShaped({});
    PlanA(g);
    RunFailureExample(Plan(g, ['A'], []).value, fails);
  }
}
