/**
 * `search_up_and_down` (gts.c:200-229): the walk from the working
 * directory up through its ancestors, testing each ancestor as a match and
 * searching down from it.
 *
 * `Ascend` gives its meaning as a function of the search state; the method
 * `SearchUpAndDown` is proved to produce exactly that state.  The walk
 * stops at an ancestor outside the roots, at the filesystem root (where
 * `dirname(p) == p`), after `max_up` steps, or when the results are full.
 */
module Ascent {
  import opened Text
  import opened Filters
  import opened Visited
  import opened Results
  import opened Descent

  /** The root test of gts.c:221-222, with `dirname` taken by value. */
  predicate AtTop(env: Env, p: string) {
    env.dirname(p) == p
  }

  /** gts.c:210-219 for one ancestor: unless its name is excluded or it was
      visited, mark it, report it if its name contains the target, and
      search down from it with `max_down`. The loop guard has left room for
      one more result. */
  function AncestorStep(ctx: Ctx, cur: string, maxDown: nat, st: St): St
    requires |st.results| < MAX_RESULTS
  {
    var name := ctx.env.basename(cur);
    if IsExcluded(ctx.cfg.exclusions, name) || cur in st.visited then st
    else
      var marked := St(st.visited + {cur}, if Contains(name, ctx.target) then st.results + [cur] else st.results);
      Down(ctx, cur, 0, maxDown, marked)
  }

  /** Meaning of the `while` loop of gts.c:205-228 from ancestor `cur`, with
      `steps` steps already taken. */
  function Ascend(ctx: Ctx, cur: string, steps: nat, maxUp: nat, maxDown: nat, st: St): St
    decreases if steps < maxUp then maxUp - steps else 0
  {
    if steps >= maxUp || |st.results| >= MAX_RESULTS then st
    else if !WithinRoots(ctx.env, ctx.cfg, cur) then st
    else
      var st1 := AncestorStep(ctx, cur, maxDown, st);
      if AtTop(ctx.env, cur) then st1
      else Ascend(ctx, ctx.env.dirname(cur), steps + 1, maxUp, maxDown, st1)
  }

  /** An excluded or already visited ancestor is neither matched nor searched
      from; otherwise it is marked, reported when its name contains the
      target, and reported first. */
  lemma AncestorStepSkips(ctx: Ctx, cur: string, maxDown: nat, st: St)
    requires |st.results| < MAX_RESULTS
    ensures IsExcluded(ctx.cfg.exclusions, ctx.env.basename(cur)) || cur in st.visited
            ==> AncestorStep(ctx, cur, maxDown, st) == st
    ensures !IsExcluded(ctx.cfg.exclusions, ctx.env.basename(cur)) && cur !in st.visited
            ==> cur in AncestorStep(ctx, cur, maxDown, st).visited
    ensures !IsExcluded(ctx.cfg.exclusions, ctx.env.basename(cur)) && cur !in st.visited
            && Contains(ctx.env.basename(cur), ctx.target)
            ==> var r := AncestorStep(ctx, cur, maxDown, st);
                |r.results| > |st.results| && r.results[|st.results|] == cur
  {
    var name := ctx.env.basename(cur);
    if !IsExcluded(ctx.cfg.exclusions, name) && cur !in st.visited {
      var marked := St(st.visited + {cur}, if Contains(name, ctx.target) then st.results + [cur] else st.results);
      DownFacts(ctx, cur, 0, maxDown, marked);
      var r := Down(ctx, cur, 0, maxDown, marked);
      if Contains(name, ctx.target) {
        assert r.results[|st.results|] == r.results[..|marked.results|][|st.results|];
      }
    }
  }

  /** The `k`-th ancestor of `p`. */
  function AncestorAt(env: Env, p: string, k: nat): string
    decreases k
  {
    if k == 0 then p else AncestorAt(env, env.dirname(p), k - 1)
  }

  /** The walk can get from `p` to its `k`-th ancestor: every ancestor on the
      way, that one included, is within the roots, and none before it is the
      filesystem root. */
  predicate Climbable(env: Env, cfg: Config, p: string, k: nat)
    decreases k
  {
    WithinRoots(env, cfg, p) && (k > 0 ==> !AtTop(env, p) && Climbable(env, cfg, env.dirname(p), k - 1))
  }

  /** Every ancestor the walk can reach is inside the roots. */
  lemma {:induction false} ClimbableReachesInsideRoots(env: Env, cfg: Config, p: string, k: nat)
    requires Climbable(env, cfg, p, k)
    ensures WithinRoots(env, cfg, AncestorAt(env, p, k))
    decreases k
  {
    if k > 0 {
      ClimbableReachesInsideRoots(env, cfg, env.dirname(p), k - 1);
    }
  }

  /** `p` is accounted for by ancestor `a`: `a`'s name is not excluded, and `p`
      is `a` itself (whose name contains the target, when `matched`) or lies
      within `max_down + 1` levels below it. */
  ghost predicate FromAncestor(ctx: Ctx, a: string, maxDown: nat, p: string, matched: bool) {
    && !IsExcluded(ctx.cfg.exclusions, ctx.env.basename(a))
    && ((p == a && (matched ==> Contains(ctx.env.basename(a), ctx.target)))
        || Under(ctx, a, p, maxDown + 1, matched))
  }

  /** `p` is accounted for by one of the first `n` ancestors of `cur` that the
      walk reaches and that was unvisited in `st`. */
  ghost predicate FromWalk(ctx: Ctx, cur: string, n: nat, maxDown: nat, st: St, p: string, matched: bool) {
    exists k: nat :: k < n && Climbable(ctx.env, ctx.cfg, cur, k)
      && AncestorAt(ctx.env, cur, k) !in st.visited
      && FromAncestor(ctx, AncestorAt(ctx.env, cur, k), maxDown, p, matched)
  }

  /** Everything the walk newly marks or reports is accounted for by an ancestor. */
  ghost predicate NewFromWalk(ctx: Ctx, cur: string, n: nat, maxDown: nat, st: St, r: St) {
    && (forall p :: p in r.visited && p !in st.visited ==> FromWalk(ctx, cur, n, maxDown, st, p, false))
    && (forall j :: |st.results| <= j < |r.results| ==>
          r.results[j] !in st.visited && FromWalk(ctx, cur, n, maxDown, st, r.results[j], true))
  }

  /** One ancestor's contribution. */
  lemma AncestorStepFacts(ctx: Ctx, cur: string, maxDown: nat, st: St)
    requires |st.results| < MAX_RESULTS
    ensures var r := AncestorStep(ctx, cur, maxDown, st);
      && Grows(st, r)
      && (Consistent(st) ==> Consistent(r))
      && (forall p :: p in r.visited && p !in st.visited ==>
            cur !in st.visited && FromAncestor(ctx, cur, maxDown, p, false))
      && (forall j :: |st.results| <= j < |r.results| ==>
            r.results[j] !in st.visited && cur !in st.visited && FromAncestor(ctx, cur, maxDown, r.results[j], true))
  {
    var name := ctx.env.basename(cur);
    if IsExcluded(ctx.cfg.exclusions, name) || cur in st.visited {
    } else {
      var marked := St(st.visited + {cur}, if Contains(name, ctx.target) then st.results + [cur] else st.results);
      assert marked.results[..|st.results|] == st.results;
      var r := Down(ctx, cur, 0, maxDown, marked);
      DownFacts(ctx, cur, 0, maxDown, marked);
      assert Budget(0, maxDown) == maxDown + 1;
      forall j | |st.results| <= j < |r.results|
        ensures r.results[j] !in st.visited && FromAncestor(ctx, cur, maxDown, r.results[j], true)
      {
        if j < |marked.results| {
          assert r.results[j] == r.results[..|marked.results|][j];
        }
      }
      assert r.results[..|st.results|] == r.results[..|marked.results|][..|st.results|];
    }
  }

  lemma FromWalkOfFirst(ctx: Ctx, cur: string, n: nat, maxDown: nat, st: St, p: string, matched: bool)
    requires n > 0 && WithinRoots(ctx.env, ctx.cfg, cur) && cur !in st.visited
    requires FromAncestor(ctx, cur, maxDown, p, matched)
    ensures FromWalk(ctx, cur, n, maxDown, st, p, matched)
  {
    assert AncestorAt(ctx.env, cur, 0) == cur;
    assert Climbable(ctx.env, ctx.cfg, cur, 0);
  }

  lemma FromWalkOfParent(ctx: Ctx, cur: string, n: nat, maxDown: nat, st: St, st1: St, p: string, matched: bool)
    requires n > 0 && WithinRoots(ctx.env, ctx.cfg, cur) && !AtTop(ctx.env, cur)
    requires st.visited <= st1.visited
    requires FromWalk(ctx, ctx.env.dirname(cur), n - 1, maxDown, st1, p, matched)
    ensures FromWalk(ctx, cur, n, maxDown, st, p, matched)
  {
    var parent := ctx.env.dirname(cur);
    var k: nat :| k < n - 1 && Climbable(ctx.env, ctx.cfg, parent, k)
      && AncestorAt(ctx.env, parent, k) !in st1.visited
      && FromAncestor(ctx, AncestorAt(ctx.env, parent, k), maxDown, p, matched);
    assert AncestorAt(ctx.env, cur, k + 1) == AncestorAt(ctx.env, parent, k);
    assert Climbable(ctx.env, ctx.cfg, cur, k + 1);
  }

  /** The walk's guarantees: the cap and distinct results are kept, and every
      path it marks or reports is accounted for by one of the first
      `max_up - steps` ancestors it reaches. */
  lemma {:induction false} AscendFacts(ctx: Ctx, cur: string, steps: nat, maxUp: nat, maxDown: nat, st: St)
    requires steps <= maxUp
    ensures var r := Ascend(ctx, cur, steps, maxUp, maxDown, st);
      && Grows(st, r)
      && (Consistent(st) ==> Consistent(r))
      && NewFromWalk(ctx, cur, maxUp - steps, maxDown, st, r)
    decreases maxUp - steps
  {
    var n := maxUp - steps;
    if steps >= maxUp || |st.results| >= MAX_RESULTS || !WithinRoots(ctx.env, ctx.cfg, cur) {
    } else {
      var st1 := AncestorStep(ctx, cur, maxDown, st);
      AncestorStepFacts(ctx, cur, maxDown, st);
      forall p | p in st1.visited && p !in st.visited
        ensures FromWalk(ctx, cur, n, maxDown, st, p, false)
      {
        FromWalkOfFirst(ctx, cur, n, maxDown, st, p, false);
      }
      forall j | |st.results| <= j < |st1.results|
        ensures FromWalk(ctx, cur, n, maxDown, st, st1.results[j], true)
      {
        FromWalkOfFirst(ctx, cur, n, maxDown, st, st1.results[j], true);
      }
      if !AtTop(ctx.env, cur) {
        var parent := ctx.env.dirname(cur);
        var r := Ascend(ctx, parent, steps + 1, maxUp, maxDown, st1);
        AscendFacts(ctx, parent, steps + 1, maxUp, maxDown, st1);
        forall p | p in r.visited && p !in st.visited
          ensures FromWalk(ctx, cur, n, maxDown, st, p, false)
        {
          if p !in st1.visited {
            FromWalkOfParent(ctx, cur, n, maxDown, st, st1, p, false);
          }
        }
        forall j | |st.results| <= j < |r.results|
          ensures r.results[j] !in st.visited && FromWalk(ctx, cur, n, maxDown, st, r.results[j], true)
        {
          if j < |st1.results| {
            assert r.results[j] == r.results[..|st1.results|][j];
          } else {
            FromWalkOfParent(ctx, cur, n, maxDown, st, st1, r.results[j], true);
          }
        }
        assert r.results[..|st.results|] == r.results[..|st1.results|][..|st.results|];
      }
    }
  }

  /** Below the filesystem root and with budget and room left, the walk goes
      on from the parent after processing the current ancestor. */
  lemma AscentContinuesToParent(ctx: Ctx, cur: string, steps: nat, maxUp: nat, maxDown: nat, st: St)
    requires steps < maxUp && |st.results| < MAX_RESULTS
    requires WithinRoots(ctx.env, ctx.cfg, cur) && !AtTop(ctx.env, cur)
    ensures Ascend(ctx, cur, steps, maxUp, maxDown, st)
         == Ascend(ctx, ctx.env.dirname(cur), steps + 1, maxUp, maxDown, AncestorStep(ctx, cur, maxDown, st))
  {
  }

  /** What `current_path` holds after `dirname(current_path)` (gts.c:221):
      the parent when `dirname` rewrites the buffer it is given and returns
      it (glibc does; POSIX allows it), the path unchanged otherwise. */
  function BufferAfterDirname(env: Env, inPlace: bool, p: string): string {
    if inPlace then env.dirname(p) else p
  }

  /** gts.c:221-222 as written: `strcmp(parent, current_path) == 0`, with the
      buffer as `dirname` left it. */
  predicate StopsAsWritten(env: Env, inPlace: bool, p: string) {
    env.dirname(p) == BufferAfterDirname(env, inPlace, p)
  }

  /** The loop of gts.c:205-228 with the as-written stop test. */
  function AscendAsWritten(ctx: Ctx, inPlace: bool, cur: string, steps: nat, maxUp: nat, maxDown: nat, st: St): St
    decreases if steps < maxUp then maxUp - steps else 0
  {
    if steps >= maxUp || |st.results| >= MAX_RESULTS then st
    else if !WithinRoots(ctx.env, ctx.cfg, cur) then st
    else
      var st1 := AncestorStep(ctx, cur, maxDown, st);
      if StopsAsWritten(ctx.env, inPlace, cur) then st1
      else AscendAsWritten(ctx, inPlace, ctx.env.dirname(cur), steps + 1, maxUp, maxDown, st1)
  }

  /** With a `dirname` that leaves its argument alone, the code as written is
      the intended walk. */
  lemma {:induction false} AsWrittenWithoutAliasingIsAscend(ctx: Ctx, cur: string, steps: nat, maxUp: nat, maxDown: nat, st: St)
    ensures AscendAsWritten(ctx, false, cur, steps, maxUp, maxDown, st) == Ascend(ctx, cur, steps, maxUp, maxDown, st)
    decreases if steps < maxUp then maxUp - steps else 0
  {
    if steps >= maxUp || |st.results| >= MAX_RESULTS || !WithinRoots(ctx.env, ctx.cfg, cur) {
    } else if !AtTop(ctx.env, cur) {
      AsWrittenWithoutAliasingIsAscend(ctx, ctx.env.dirname(cur), steps + 1, maxUp, maxDown,
                                       AncestorStep(ctx, cur, maxDown, st));
    }
  }

  /** With an in-place `dirname`, the ascent as written never gets past the
      working directory, whatever `max_up` is. */
  lemma AsWrittenStopsAfterFirstAncestor(ctx: Ctx, cur: string, maxUp: nat, maxDown: nat, st: St)
    requires 0 < maxUp && |st.results| < MAX_RESULTS && WithinRoots(ctx.env, ctx.cfg, cur)
    ensures AscendAsWritten(ctx, true, cur, 0, maxUp, maxDown, st) == AncestorStep(ctx, cur, maxDown, st)
  {
  }

  /** A working directory `/r/a` under root `/r`, target `r`: the intended walk
      reports the parent `/r`; as written, with an in-place `dirname`, the walk
      reports nothing. */
  lemma DirnameAliasingExample()
    ensures
      var env := Env(map[], {}, map["/r" := "/r", "/r/a" := "/r/a"],
                     p => if p == "/r/a" then "/r" else p,
                     p => if p == "/r/a" then "a" else "r");
      var ctx := Ctx(env, Config(["/r"], []), "r");
      && Ascend(ctx, "/r/a", 0, 4, 4, St({}, [])).results == ["/r"]
      && AscendAsWritten(ctx, true, "/r/a", 0, 4, 4, St({}, [])).results == []
  {
    var env := Env(map[], {}, map["/r" := "/r", "/r/a" := "/r/a"],
                   p => if p == "/r/a" then "/r" else p,
                   p => if p == "/r/a" then "a" else "r");
    var ctx := Ctx(env, Config(["/r"], []), "r");
    assert HasPrefix("/r", "/r") && HasPrefix("/r/a", "/r");
    assert !Contains("a", "r") by {
      assert "a"[0..1][0] != "r"[0];
      assert FindFrom("a", "r", 1).None?;
    }
    assert Contains("r", "r") by { assert OccursAt("r", "r", 0); }
    var s1 := St({"/r/a"}, []);
    var s2 := St({"/r/a", "/r"}, ["/r"]);
    assert AncestorStep(ctx, "/r/a", 4, St({}, [])) == s1;
    assert AncestorStep(ctx, "/r", 4, s1) == s2;
    assert Ascend(ctx, "/r", 1, 4, 4, s1) == s2;
  }

  /** One pass of the loop body before the stop test (gts.c:210-219). */
  method ProcessAncestor(ctx: Ctx, cur: string, maxDown: nat, visited: HashTable, results: ResultList)
    requires visited.Valid() && results.Valid() && results.count < MAX_RESULTS
    modifies visited, visited.buckets, results, results.items
    ensures visited.Valid() && results.Valid()
    ensures St(visited.Elements, results.Contents())
         == AncestorStep(ctx, cur, maxDown, St(old(visited.Elements), old(results.Contents())))
  {
    var name := ctx.env.basename(cur);
    if IsExcluded(ctx.cfg.exclusions, name) {
      return;
    }
    var seen := visited.IsVisited(cur);
    if seen {
      return;
    }
    visited.Insert(cur);
    if Contains(name, ctx.target) {
      results.Append(cur);
    }
    SearchDown(ctx, cur, 0, maxDown, visited, results);
  }

  /** `search_up_and_down` itself: `current_path` and `up_depth` are the loop
      variables; each step replaces the current path by its parent. */
  method SearchUpAndDown(ctx: Ctx, start: string, maxUp: nat, maxDown: nat, visited: HashTable, results: ResultList)
    requires visited.Valid() && results.Valid()
    modifies visited, visited.buckets, results, results.items
    ensures visited.Valid() && results.Valid()
    ensures St(visited.Elements, results.Contents())
         == Ascend(ctx, start, 0, maxUp, maxDown, St(old(visited.Elements), old(results.Contents())))
  {
    ghost var st0 := St(visited.Elements, results.Contents());
    var current := start;
    var upDepth: nat := 0;
    while upDepth < maxUp && results.count < MAX_RESULTS
      invariant visited.Valid() && results.Valid()
      invariant Ascend(ctx, current, upDepth, maxUp, maxDown, St(visited.Elements, results.Contents()))
             == Ascend(ctx, start, 0, maxUp, maxDown, st0)
      decreases maxUp - upDepth
    {
      if !WithinRoots(ctx.env, ctx.cfg, current) {
        break;
      }
      ProcessAncestor(ctx, current, maxDown, visited, results);
      var parent := ctx.env.dirname(current);
      if parent == current {
        break;
      }
      current := parent;
      upDepth := upDepth + 1;
    }
  }
}
