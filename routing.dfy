/**
 * The part of `main` that chooses the search (gts.c:247-267): the command
 * fixes the depth budgets, and a `../` prefix on the target selects the
 * ancestor walk with the prefix removed.
 */
module Routing {
  import opened Wrappers
  import opened Text
  import opened Filters
  import opened Visited
  import opened Results
  import opened Descent
  import opened Ascent

  const MAX_STEPS_UP: nat := 4
  const MAX_STEPS_DOWN: nat := 4

  datatype Command = Search | Immediate

  /** The command check of gts.c:247-251: only `search` and `immediate` run a search. */
  function ParseCommand(s: string): (c: Option<Command>)
    ensures c == Some(Search) <==> s == "search"
    ensures c == Some(Immediate) <==> s == "immediate"
    ensures c.None? <==> s != "search" && s != "immediate"
  {
    if s == "search" then Some(Search)
    else if s == "immediate" then Some(Immediate)
    else None
  }

  /** gts.c:258-259: `(max_steps_up, max_steps_down)`. */
  function Budgets(c: Command): (nat, nat) {
    if c == Immediate then (1, 1) else (MAX_STEPS_UP, MAX_STEPS_DOWN)
  }

  /** gts.c:261: `strncmp(target, "../", 3) == 0`. */
  predicate HasAscentMarker(target: string) {
    HasPrefix(target, "../")
  }

  /** The results `main` collects from an empty visited set and result list. */
  function Outcome(env: Env, cfg: Config, c: Command, target: string, cwd: string): seq<string> {
    var (up, down) := Budgets(c);
    var empty := St({}, []);
    if HasAscentMarker(target) then Ascend(Ctx(env, cfg, target[3..]), cwd, 0, up, down, empty).results
    else Down(Ctx(env, cfg, target), cwd, 0, down, empty).results
  }

  /** What every invocation guarantees: at most MAX_RESULTS results, no path
      twice, every result inside the roots; without the marker every result
      is a matching directory at most `max_down + 1` levels below the working
      directory, with the marker every result is accounted for by one of the
      first `max_up` ancestors. */
  lemma OutcomeFacts(env: Env, cfg: Config, c: Command, target: string, cwd: string)
    ensures var found := Outcome(env, cfg, c, target, cwd);
      && |found| <= MAX_RESULTS
      && NoDuplicates(found)
      && (forall p :: p in found ==> WithinRoots(env, cfg, p))
      && (!HasAscentMarker(target) ==>
            forall p :: p in found ==> Under(Ctx(env, cfg, target), cwd, p, Budgets(c).1 + 1, true))
      && (HasAscentMarker(target) ==>
            forall p :: p in found ==>
              FromWalk(Ctx(env, cfg, target[3..]), cwd, Budgets(c).0, Budgets(c).1, St({}, []), p, true))
  {
    var (up, down) := Budgets(c);
    var empty := St({}, []);
    assert Consistent(empty);
    var found := Outcome(env, cfg, c, target, cwd);
    if HasAscentMarker(target) {
      var ctx := Ctx(env, cfg, target[3..]);
      AscendFacts(ctx, cwd, 0, up, down, empty);
      forall p | p in found
        ensures WithinRoots(env, cfg, p) && FromWalk(ctx, cwd, up, down, empty, p, true)
      {
        var j :| 0 <= j < |found| && found[j] == p;
        var k: nat :| k < up && Climbable(env, cfg, cwd, k)
          && AncestorAt(env, cwd, k) !in empty.visited
          && FromAncestor(ctx, AncestorAt(env, cwd, k), down, p, true);
        var a := AncestorAt(env, cwd, k);
        if p == a {
          ClimbableReachesInsideRoots(env, cfg, cwd, k);
        } else {
          UnderIsInsideRoots(ctx, a, p, down + 1, true);
        }
      }
    } else {
      var ctx := Ctx(env, cfg, target);
      DownFacts(ctx, cwd, 0, down, empty);
      forall p | p in found
        ensures WithinRoots(env, cfg, p) && Under(ctx, cwd, p, down + 1, true)
      {
        var j :| 0 <= j < |found| && found[j] == p;
        UnderIsInsideRoots(ctx, cwd, p, down + 1, true);
      }
    }
  }

  /** `immediate` is `search` with both budgets cut to one step. */
  lemma ImmediateIsSearchWithUnitBudgets(env: Env, cfg: Config, target: string, cwd: string)
    ensures Outcome(env, cfg, Immediate, target, cwd)
         == if HasAscentMarker(target)
            then Ascend(Ctx(env, cfg, target[3..]), cwd, 0, 1, 1, St({}, [])).results
            else Down(Ctx(env, cfg, target), cwd, 0, 1, St({}, [])).results
  {
  }

  /** gts.c:258-267 run on a fresh hash table and result buffer (gts.c:241-243). */
  method RunSearch(env: Env, cfg: Config, c: Command, target: string, cwd: string) returns (found: seq<string>)
    ensures found == Outcome(env, cfg, c, target, cwd)
    ensures |found| <= MAX_RESULTS && NoDuplicates(found)
    ensures forall p :: p in found ==> WithinRoots(env, cfg, p)
  {
    var visited := new HashTable();
    var results := new ResultList();
    var (maxStepsUp, maxStepsDown) := Budgets(c);
    if HasAscentMarker(target) {
      SearchUpAndDown(Ctx(env, cfg, target[3..]), cwd, maxStepsUp, maxStepsDown, visited, results);
    } else {
      SearchDown(Ctx(env, cfg, target), cwd, 0, maxStepsDown, visited, results);
    }
    found := results.Contents();
    OutcomeFacts(env, cfg, c, target, cwd);
  }
}
