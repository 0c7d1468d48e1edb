/**
 * The result buffer of `main` (gts.c:241-242): `char *results[MAX_RESULTS]`
 * together with `int result_count`, which both searches update through
 * `int *result_count`.
 */
module Results {

  const MAX_RESULTS: nat := 20

  class ResultList {
    const items: array<string>
    var count: nat

    ghost predicate Valid()
      reads this
    {
      items.Length == MAX_RESULTS && count <= items.Length
    }

    /** The matches recorded so far, in discovery order. */
    function Contents(): (s: seq<string>)
      reads this, items
      requires Valid()
      ensures |s| == count <= MAX_RESULTS
    {
      items[..count]
    }

    /** `char *results[MAX_RESULTS] = {0}; int result_count = 0;` */
    constructor ()
      ensures Valid() && fresh(items) && Contents() == []
    {
      items := new string[MAX_RESULTS];
      count := 0;
    }

    /** `results[*result_count] = strdup(path); (*result_count)++;`
        The slot must exist: callers check `*result_count < MAX_RESULTS` first. */
    method Append(path: string)
      requires Valid() && count < MAX_RESULTS
      modifies this, items
      ensures Valid()
      ensures Contents() == old(Contents()) + [path]
    {
      items[count] := path;
      count := count + 1;
    }
  }
}
