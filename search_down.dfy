/**
 * `search_down` (gts.c:153-198): the depth-bounded, pre-order descent.
 *
 * `Down`, `Entries` and `Step` give its meaning as a function of the
 * search state (visited set and result list); the method `SearchDown`
 * runs it on the hash table and the result buffer and is proved to
 * produce exactly that state.  The lemmas state what the descent
 * guarantees: the result cap, no duplicates, and that every path it
 * marks or reports is reachable from the start directory through
 * non-hidden, in-root, non-excluded directories within the depth budget.
 */
module Descent {
  import opened Text
  import opened Filters
  import opened Visited
  import opened Results

  /** What one invocation has accumulated: the visited paths and the
      matches in discovery order. */
  datatype St = St(visited: set<string>, results: seq<string>)

  /** The read-only inputs: environment, configuration and target fragment. */
  datatype Ctx = Ctx(env: Env, cfg: Config, target: string)

  /** How many more directory levels a call at `depth` may still list. */
  function Budget(depth: nat, maxDepth: nat): nat {
    if depth <= maxDepth then maxDepth - depth + 1 else 0
  }

  /** The entry passes the hidden-name test and the boundary (gts.c:170-178). */
  predicate Admitted(ctx: Ctx, dir: string, name: string) {
    !IsHidden(name) && WithinRoots(ctx.env, ctx.cfg, Join(dir, name))
  }

  /** The entry is a directory that is not excluded (gts.c:186-187). */
  predicate Descendable(ctx: Ctx, dir: string, name: string) {
    Join(dir, name) in ctx.env.directories && !IsExcluded(ctx.cfg.exclusions, name)
  }

  /** Meaning of `search_down(dir, target, .., depth, maxDepth)` from state `st`. */
  function Down(ctx: Ctx, dir: string, depth: nat, maxDepth: nat, st: St): St
    decreases Budget(depth, maxDepth), 2, 0
  {
    if depth > maxDepth || |st.results| >= MAX_RESULTS then st
    else if dir !in ctx.env.listings then st
    else Entries(ctx, dir, depth, maxDepth, 0, st)
  }

  /** The `readdir` loop (gts.c:169): entries from index `i` on, while the
      result list has room. */
  function Entries(ctx: Ctx, dir: string, depth: nat, maxDepth: nat, i: nat, st: St): St
    requires depth <= maxDepth && dir in ctx.env.listings
    requires i <= |ctx.env.listings[dir]|
    decreases Budget(depth, maxDepth), 1, |ctx.env.listings[dir]| - i
  {
    var names := ctx.env.listings[dir];
    if i == |names| || |st.results| >= MAX_RESULTS then st
    else Entries(ctx, dir, depth, maxDepth, i + 1, Step(ctx, dir, names[i], depth, maxDepth, st))
  }

  /** The loop body for one entry (gts.c:170-194). The loop guard has left
      room for one more result. */
  function Step(ctx: Ctx, dir: string, name: string, depth: nat, maxDepth: nat, st: St): St
    requires depth <= maxDepth && |st.results| < MAX_RESULTS
    decreases Budget(depth, maxDepth), 0, 0
  {
    var path := Join(dir, name);
    if IsHidden(name) || !WithinRoots(ctx.env, ctx.cfg, path) || path in st.visited then st
    else
      var marked := St(st.visited + {path}, st.results);
      if path in ctx.env.directories && !IsExcluded(ctx.cfg.exclusions, name) then
        var found := if Contains(name, ctx.target) then St(marked.visited, marked.results + [path]) else marked;
        Down(ctx, path, depth + 1, maxDepth, found)
      else marked
  }

  /** `p` is reachable from `dir` within `levels` listings: it is an admitted
      entry of `dir` (and, when `matched`, a non-excluded directory whose name
      contains the target), or lies that way below an admitted, descendable
      entry of `dir` with one level fewer. */
  ghost predicate Under(ctx: Ctx, dir: string, p: string, levels: nat, matched: bool)
    decreases levels
  {
    && levels > 0
    && dir in ctx.env.listings
    && exists name :: name in ctx.env.listings[dir] && Admitted(ctx, dir, name) &&
         ((p == Join(dir, name) && (matched ==> Descendable(ctx, dir, name) && Contains(name, ctx.target)))
          || (Descendable(ctx, dir, name) && Under(ctx, Join(dir, name), p, levels - 1, matched)))
  }

  ghost predicate NoDuplicates(s: seq<string>) {
    forall i, j :: 0 <= i < j < |s| ==> s[i] != s[j]
  }

  /** The state invariant both searches keep: the cap, distinct results,
      and every result already marked visited. */
  ghost predicate Consistent(st: St) {
    && |st.results| <= MAX_RESULTS
    && NoDuplicates(st.results)
    && forall p :: p in st.results ==> p in st.visited
  }

  /** `r` extends `st`: the visited set only grows and results are only appended. */
  ghost predicate Grows(st: St, r: St) {
    && st.visited <= r.visited
    && |st.results| <= |r.results|
    && r.results[..|st.results|] == st.results
  }

  /** Everything `r` newly marks or reports is reachable from `dir` within
      `levels`, and every newly reported path was not visited before. */
  ghost predicate NewFrom(ctx: Ctx, dir: string, levels: nat, st: St, r: St) {
    && (forall p :: p in r.visited && p !in st.visited ==> Under(ctx, dir, p, levels, false))
    && (forall j :: |st.results| <= j < |r.results| ==>
          r.results[j] !in st.visited && Under(ctx, dir, r.results[j], levels, true))
  }

  lemma UnderHere(ctx: Ctx, dir: string, name: string, levels: nat, matched: bool)
    requires levels > 0 && dir in ctx.env.listings && name in ctx.env.listings[dir]
    requires Admitted(ctx, dir, name)
    requires matched ==> Descendable(ctx, dir, name) && Contains(name, ctx.target)
    ensures Under(ctx, dir, Join(dir, name), levels, matched)
  {
  }

  lemma UnderBelow(ctx: Ctx, dir: string, name: string, p: string, levels: nat, matched: bool)
    requires levels > 0 && dir in ctx.env.listings && name in ctx.env.listings[dir]
    requires Admitted(ctx, dir, name) && Descendable(ctx, dir, name)
    requires Under(ctx, Join(dir, name), p, levels - 1, matched)
    ensures Under(ctx, dir, p, levels, matched)
  {
  }

  /** What a descent into a child reports counts as reported from the parent. */
  lemma LiftNewFrom(ctx: Ctx, dir: string, name: string, levels: nat, st: St, r: St)
    requires levels > 0 && dir in ctx.env.listings && name in ctx.env.listings[dir]
    requires Admitted(ctx, dir, name) && Descendable(ctx, dir, name)
    requires NewFrom(ctx, Join(dir, name), levels - 1, st, r)
    ensures NewFrom(ctx, dir, levels, st, r)
  {
    forall p | p in r.visited && p !in st.visited
      ensures Under(ctx, dir, p, levels, false)
    {
      UnderBelow(ctx, dir, name, p, levels, false);
    }
    forall j | |st.results| <= j < |r.results|
      ensures Under(ctx, dir, r.results[j], levels, true)
    {
      UnderBelow(ctx, dir, name, r.results[j], levels, true);
    }
  }

  lemma ComposeGrowth(ctx: Ctx, dir: string, levels: nat, s0: St, s1: St, s2: St)
    requires Grows(s0, s1) && Grows(s1, s2)
    requires NewFrom(ctx, dir, levels, s0, s1) && NewFrom(ctx, dir, levels, s1, s2)
    ensures Grows(s0, s2) && NewFrom(ctx, dir, levels, s0, s2)
  {
    assert s2.results[..|s0.results|] == s2.results[..|s1.results|][..|s0.results|];
    forall j | |s0.results| <= j < |s2.results|
      ensures s2.results[j] !in s0.visited && Under(ctx, dir, s2.results[j], levels, true)
    {
      if j < |s1.results| {
        assert s2.results[j] == s2.results[..|s1.results|][j];
      }
    }
  }

  /** The descent's guarantees, by induction along `Down`, `Entries` and `Step`. */
  lemma {:induction false} DownFacts(ctx: Ctx, dir: string, depth: nat, maxDepth: nat, st: St)
    ensures Grows(st, Down(ctx, dir, depth, maxDepth, st))
    ensures Consistent(st) ==> Consistent(Down(ctx, dir, depth, maxDepth, st))
    ensures NewFrom(ctx, dir, Budget(depth, maxDepth), st, Down(ctx, dir, depth, maxDepth, st))
    decreases Budget(depth, maxDepth), 2, 0
  {
    if depth > maxDepth || |st.results| >= MAX_RESULTS || dir !in ctx.env.listings {
    } else {
      EntriesFacts(ctx, dir, depth, maxDepth, 0, st);
    }
  }

  lemma {:induction false} EntriesFacts(ctx: Ctx, dir: string, depth: nat, maxDepth: nat, i: nat, st: St)
    requires depth <= maxDepth && dir in ctx.env.listings
    requires i <= |ctx.env.listings[dir]|
    ensures Grows(st, Entries(ctx, dir, depth, maxDepth, i, st))
    ensures Consistent(st) ==> Consistent(Entries(ctx, dir, depth, maxDepth, i, st))
    ensures NewFrom(ctx, dir, Budget(depth, maxDepth), st, Entries(ctx, dir, depth, maxDepth, i, st))
    decreases Budget(depth, maxDepth), 1, |ctx.env.listings[dir]| - i
  {
    var names := ctx.env.listings[dir];
    if i == |names| || |st.results| >= MAX_RESULTS {
    } else {
      var s1 := Step(ctx, dir, names[i], depth, maxDepth, st);
      StepFacts(ctx, dir, names[i], depth, maxDepth, st);
      EntriesFacts(ctx, dir, depth, maxDepth, i + 1, s1);
      ComposeGrowth(ctx, dir, Budget(depth, maxDepth), st, s1, Entries(ctx, dir, depth, maxDepth, i + 1, s1));
    }
  }

  lemma {:induction false} StepFacts(ctx: Ctx, dir: string, name: string, depth: nat, maxDepth: nat, st: St)
    requires depth <= maxDepth && |st.results| < MAX_RESULTS
    requires dir in ctx.env.listings && name in ctx.env.listings[dir]
    ensures Grows(st, Step(ctx, dir, name, depth, maxDepth, st))
    ensures Consistent(st) ==> Consistent(Step(ctx, dir, name, depth, maxDepth, st))
    ensures NewFrom(ctx, dir, Budget(depth, maxDepth), st, Step(ctx, dir, name, depth, maxDepth, st))
    decreases Budget(depth, maxDepth), 0, 0
  {
    var path := Join(dir, name);
    var levels := Budget(depth, maxDepth);
    if IsHidden(name) || !WithinRoots(ctx.env, ctx.cfg, path) || path in st.visited {
    } else {
      var marked := St(st.visited + {path}, st.results);
      UnderHere(ctx, dir, name, levels, false);
      assert marked.results[..|st.results|] == st.results;
      if path in ctx.env.directories && !IsExcluded(ctx.cfg.exclusions, name) {
        var found := if Contains(name, ctx.target) then St(marked.visited, marked.results + [path]) else marked;
        if Contains(name, ctx.target) {
          UnderHere(ctx, dir, name, levels, true);
          assert found.results[..|st.results|] == st.results;
          assert found.results[|st.results|] == path;
        }
        assert Grows(st, found) && NewFrom(ctx, dir, levels, st, found);
        assert Consistent(st) ==> Consistent(found);
        var r := Down(ctx, path, depth + 1, maxDepth, found);
        DownFacts(ctx, path, depth + 1, maxDepth, found);
        LiftNewFrom(ctx, dir, name, levels, found, r);
        ComposeGrowth(ctx, dir, levels, st, found, r);
      }
    }
  }

  /** Everything reachable lies textually below `dir`, within the roots;
      a reachable match is a non-excluded directory. */
  lemma {:induction false} UnderIsInsideRoots(ctx: Ctx, dir: string, p: string, levels: nat, matched: bool)
    requires Under(ctx, dir, p, levels, matched)
    ensures WithinRoots(ctx.env, ctx.cfg, p)
    ensures |p| > |dir| && p[..|dir|] == dir && p[|dir|] == '/'
    ensures matched ==> p in ctx.env.directories
    decreases levels
  {
    var name :| name in ctx.env.listings[dir] && Admitted(ctx, dir, name) &&
      ((p == Join(dir, name) && (matched ==> Descendable(ctx, dir, name) && Contains(name, ctx.target)))
       || (Descendable(ctx, dir, name) && Under(ctx, Join(dir, name), p, levels - 1, matched)));
    if p != Join(dir, name) || !(matched ==> Descendable(ctx, dir, name) && Contains(name, ctx.target)) {
      var child := Join(dir, name);
      UnderIsInsideRoots(ctx, child, p, levels - 1, matched);
      assert p[..|dir|] == p[..|child|][..|dir|];
    }
  }

  /** The per-entry rules of gts.c:170-187: a hidden or out-of-root entry is
      neither marked nor descended; an already visited one is ignored; a
      non-directory or excluded directory is only marked visited. */
  lemma StepSkips(ctx: Ctx, dir: string, name: string, depth: nat, maxDepth: nat, st: St)
    requires depth <= maxDepth && |st.results| < MAX_RESULTS
    ensures IsHidden(name) || !WithinRoots(ctx.env, ctx.cfg, Join(dir, name)) || Join(dir, name) in st.visited
            ==> Step(ctx, dir, name, depth, maxDepth, st) == st
    ensures Admitted(ctx, dir, name) && Join(dir, name) !in st.visited && !Descendable(ctx, dir, name)
            ==> Step(ctx, dir, name, depth, maxDepth, st) == St(st.visited + {Join(dir, name)}, st.results)
  {
  }

  /** Pre-order: a matching directory is reported before anything found below it. */
  lemma StepReportsBeforeDescending(ctx: Ctx, dir: string, name: string, depth: nat, maxDepth: nat, st: St)
    requires depth <= maxDepth && |st.results| < MAX_RESULTS
    requires Admitted(ctx, dir, name) && Join(dir, name) !in st.visited
    requires Descendable(ctx, dir, name) && Contains(name, ctx.target)
    ensures var r := Step(ctx, dir, name, depth, maxDepth, st);
            |r.results| > |st.results| && r.results[|st.results|] == Join(dir, name)
  {
    var path := Join(dir, name);
    var found := St(st.visited + {path}, st.results + [path]);
    DownFacts(ctx, path, depth + 1, maxDepth, found);
    var r := Down(ctx, path, depth + 1, maxDepth, found);
    assert r.results[|st.results|] == r.results[..|found.results|][|st.results|];
  }

  /** An entry's pass marks no other slash-free child of `dir`: it marks its
      own path, and whatever the descent below it marks lies below that path. */
  lemma StepMarksNoSibling(ctx: Ctx, dir: string, m: string, n: string, depth: nat, maxDepth: nat, st: St)
    requires depth <= maxDepth && |st.results| < MAX_RESULTS
    requires '/' !in n && m != n && Join(dir, n) !in st.visited
    ensures Join(dir, n) !in Step(ctx, dir, m, depth, maxDepth, st).visited
  {
    var path := Join(dir, m);
    var p := Join(dir, n);
    if !IsHidden(m) && WithinRoots(ctx.env, ctx.cfg, path) && path !in st.visited
       && path in ctx.env.directories && !IsExcluded(ctx.cfg.exclusions, m) {
      var found := if Contains(m, ctx.target) then St(st.visited + {path}, st.results + [path])
                   else St(st.visited + {path}, st.results);
      DownFacts(ctx, path, depth + 1, maxDepth, found);
      if p in Down(ctx, path, depth + 1, maxDepth, found).visited {
        assert p != path by { assert p[|dir| + 1..] == n && path[|dir| + 1..] == m; }
        UnderIsInsideRoots(ctx, path, p, Budget(depth + 1, maxDepth), false);
        assert false;
      }
    }
  }

  /** Completeness of the `readdir` loop: every admitted, unvisited,
      non-excluded directory entry from index `i` on whose name contains the
      target and has no `/` is reported, unless the loop stopped at the cap. */
  lemma {:induction false} EntriesReportsMatchingChildren(ctx: Ctx, dir: string, depth: nat, maxDepth: nat,
                                                          i: nat, st: St, n: string)
    requires depth <= maxDepth && dir in ctx.env.listings
    requires i <= |ctx.env.listings[dir]| && n in ctx.env.listings[dir][i..]
    requires '/' !in n && Join(dir, n) !in st.visited
    requires Admitted(ctx, dir, n) && Descendable(ctx, dir, n) && Contains(n, ctx.target)
    ensures var r := Entries(ctx, dir, depth, maxDepth, i, st);
            |r.results| < MAX_RESULTS ==> Join(dir, n) in r.results
    decreases |ctx.env.listings[dir]| - i
  {
    var names := ctx.env.listings[dir];
    if |st.results| < MAX_RESULTS {
      var s1 := Step(ctx, dir, names[i], depth, maxDepth, st);
      var r := Entries(ctx, dir, depth, maxDepth, i + 1, s1);
      if names[i] == n {
        StepReportsBeforeDescending(ctx, dir, n, depth, maxDepth, st);
        EntriesFacts(ctx, dir, depth, maxDepth, i + 1, s1);
        assert r.results[|st.results|] == r.results[..|s1.results|][|st.results|];
      } else {
        assert n in names[i + 1..] by {
          var j :| i <= j < |names| && names[j] == n;
          assert names[i + 1..][j - i - 1] == n;
        }
        StepMarksNoSibling(ctx, dir, names[i], n, depth, maxDepth, st);
        EntriesReportsMatchingChildren(ctx, dir, depth, maxDepth, i + 1, s1, n);
      }
    }
  }

  /** Completeness of one `search_down` level: within the depth budget, every
      matching child of a listed directory that passes the filters and was not
      visited is reported, unless the result cap is reached. */
  lemma DownReportsMatchingChildren(ctx: Ctx, dir: string, depth: nat, maxDepth: nat, st: St, n: string)
    requires depth <= maxDepth && dir in ctx.env.listings && n in ctx.env.listings[dir]
    requires '/' !in n && Join(dir, n) !in st.visited
    requires Admitted(ctx, dir, n) && Descendable(ctx, dir, n) && Contains(n, ctx.target)
    ensures var r := Down(ctx, dir, depth, maxDepth, st);
            |r.results| < MAX_RESULTS ==> Join(dir, n) in r.results
  {
    if |st.results| < MAX_RESULTS {
      assert ctx.env.listings[dir][0..] == ctx.env.listings[dir];
      EntriesReportsMatchingChildren(ctx, dir, depth, maxDepth, 0, st, n);
    }
  }

  /** The listing test is `depth <= max_depth` and the recursion passes
      `depth + 1`, so with `max_depth == 1` (the `immediate` command) a
      grandchild of the start directory is still reported. */
  lemma ImmediateReachesGrandchild()
    ensures
      var env := Env(map["/r" := ["a"], "/r/a" := ["b"]], {"/r/a", "/r/a/b"},
                     map["/r/a" := "/r/a", "/r/a/b" := "/r/a/b"], p => p, p => p);
      var ctx := Ctx(env, Config(["/r"], []), "b");
      Down(ctx, "/r", 0, 1, St({}, [])).results == ["/r/a/b"]
  {
    var env := Env(map["/r" := ["a"], "/r/a" := ["b"]], {"/r/a", "/r/a/b"},
                   map["/r/a" := "/r/a", "/r/a/b" := "/r/a/b"], p => p, p => p);
    var ctx := Ctx(env, Config(["/r"], []), "b");
    assert Join("/r", "a") == "/r/a";
    assert Join("/r/a", "b") == "/r/a/b";
    assert HasPrefix("/r/a", "/r") && HasPrefix("/r/a/b", "/r");
    assert !Contains("a", "b") by {
      assert "a"[0..1][0] != "b"[0];
      assert FindFrom("a", "b", 1).None?;
    }
    assert Contains("b", "b") by { assert OccursAt("b", "b", 0); }
    var s1 := St({"/r/a"}, []);
    var s2 := St({"/r/a", "/r/a/b"}, ["/r/a/b"]);
    assert Down(ctx, "/r/a/b", 2, 1, s2) == s2;
    assert Entries(ctx, "/r/a", 1, 1, 1, s2) == s2;
    assert Step(ctx, "/r/a", "b", 1, 1, s1) == s2;
    assert Down(ctx, "/r/a", 1, 1, s1) == s2;
    assert Step(ctx, "/r", "a", 0, 1, St({}, [])) == s2;
    assert Entries(ctx, "/r", 0, 1, 1, s2) == s2;
  }

  /** `search_down` itself: the `readdir` loop over the hash table and the
      result buffer. */
  method SearchDown(ctx: Ctx, dir: string, depth: nat, maxDepth: nat, visited: HashTable, results: ResultList)
    requires visited.Valid() && results.Valid()
    modifies visited, visited.buckets, results, results.items
    ensures visited.Valid() && results.Valid()
    ensures St(visited.Elements, results.Contents())
         == Down(ctx, dir, depth, maxDepth, St(old(visited.Elements), old(results.Contents())))
    decreases Budget(depth, maxDepth), 2
  {
    if depth > maxDepth || results.count >= MAX_RESULTS {
      return;
    }
    if dir !in ctx.env.listings {
      return;
    }
    var names := ctx.env.listings[dir];
    ghost var st0 := St(visited.Elements, results.Contents());
    var i := 0;
    while i < |names| && results.count < MAX_RESULTS
      invariant 0 <= i <= |names|
      invariant visited.Valid() && results.Valid()
      invariant Entries(ctx, dir, depth, maxDepth, i, St(visited.Elements, results.Contents()))
             == Entries(ctx, dir, depth, maxDepth, 0, st0)
    {
      VisitEntry(ctx, dir, names[i], depth, maxDepth, visited, results);
      i := i + 1;
    }
  }

  /** One pass of the `readdir` loop (gts.c:170-194): skip hidden and
      out-of-root entries, dedup through the visited set, and for a
      non-excluded directory record the match before recursing into it. */
  method VisitEntry(ctx: Ctx, dir: string, name: string, depth: nat, maxDepth: nat,
                    visited: HashTable, results: ResultList)
    requires depth <= maxDepth
    requires visited.Valid() && results.Valid() && results.count < MAX_RESULTS
    modifies visited, visited.buckets, results, results.items
    ensures visited.Valid() && results.Valid()
    ensures St(visited.Elements, results.Contents())
         == Step(ctx, dir, name, depth, maxDepth, St(old(visited.Elements), old(results.Contents())))
    decreases Budget(depth, maxDepth), 0
  {
    var path := Join(dir, name);
    if IsHidden(name) || !WithinRoots(ctx.env, ctx.cfg, path) {
      return;
    }
    var seen := visited.IsVisited(path);
    if seen {
      return;
    }
    visited.Insert(path);
    if path in ctx.env.directories && !IsExcluded(ctx.cfg.exclusions, name) {
      if Contains(name, ctx.target) {
        results.Append(path);
      }
      SearchDown(ctx, path, depth + 1, maxDepth, visited, results);
    }
  }
}
