/**
 * The visited set of one invocation (gts.c:20-59): a chained hash table of
 * path strings, indexed by the djb2 hash reduced modulo HASH_TABLE_SIZE.
 * A bucket's chain is a sequence whose head is the most recent insertion.
 */
module Visited {

  const HASH_TABLE_SIZE: nat := 10007
  /** `unsigned long` is taken to be 64 bits wide (LP64). */
  const WORD: nat := 0x1_0000_0000_0000_0000

  /** The value `c` takes in `int c = *str++` where `char` is signed: the byte,
      sign-extended. */
  function SignedChar(ch: char): (c: int)
    ensures -128 <= c < 128
    ensures c >= 0 <==> (ch as int) % 256 < 128
    ensures (c - ch as int) % 256 == 0
  {
    var b := (ch as int) % 256;
    if b < 128 then b else b - 256
  }

  /** djb2 over the whole string in `unsigned long` arithmetic:
      `hash = hash * 33 + c` from 5381, wrapping modulo 2^64. */
  function Djb2(s: string): (h: nat)
    ensures h < WORD
  {
    if s == [] then 5381
    else (Djb2(s[..|s| - 1]) * 33 + SignedChar(s[|s| - 1])) % WORD
  }

  /** The bucket a path belongs to. */
  function BucketOf(s: string): (i: nat)
    ensures i < HASH_TABLE_SIZE
  {
    Djb2(s) % HASH_TABLE_SIZE
  }

  /** `hash` (gts.c:34-40): the character loop, proved to compute the bucket. */
  method Hash(s: string) returns (index: nat)
    ensures index == BucketOf(s)
    ensures index < HASH_TABLE_SIZE
  {
    var h: nat := 5381;
    var i := 0;
    while i < |s|
      invariant 0 <= i <= |s|
      invariant h == Djb2(s[..i])
    {
      assert s[..i + 1][..i] == s[..i];
      h := (h * 33 + SignedChar(s[i])) % WORD;
      i := i + 1;
    }
    assert s[..|s|] == s;
    index := h % HASH_TABLE_SIZE;
  }

  class HashTable {
    /** `buckets[i]` is the chain of bucket `i`, newest node first. */
    const buckets: array<seq<string>>
    /** Every path inserted so far. */
    ghost var Elements: set<string>

    /** Each path lies in the chain of its own bucket, and a path is in its
        bucket's chain exactly when it was inserted. */
    ghost predicate Valid()
      reads this, buckets
    {
      && buckets.Length == HASH_TABLE_SIZE
      && (forall i, p :: 0 <= i < buckets.Length && p in buckets[i] ==> BucketOf(p) == i)
      && (forall p :: p in Elements <==> p in buckets[BucketOf(p)])
    }

    /** `HashTable visited = {0}` (gts.c:243): every bucket empty. */
    constructor ()
      ensures Valid() && fresh(buckets)
      ensures Elements == {}
    {
      buckets := new seq<string>[HASH_TABLE_SIZE](_ => []);
      Elements := {};
    }

    /** `insert_hash` (gts.c:42-48): prepend a node for `path` to its bucket.
        Nothing already inserted is lost. */
    method Insert(path: string)
      requires Valid()
      modifies this, buckets
      ensures Valid()
      ensures Elements == old(Elements) + {path}
      ensures buckets[BucketOf(path)] == [path] + old(buckets[BucketOf(path)])
      ensures forall i :: 0 <= i < buckets.Length && i != BucketOf(path) ==> buckets[i] == old(buckets[i])
    {
      var index := Hash(path);
      buckets[index] := [path] + buckets[index];
      Elements := Elements + {path};
    }

    /** `is_visited` (gts.c:50-59): walk the chain of the path's bucket. */
    method IsVisited(path: string) returns (found: bool)
      requires Valid()
      ensures found <==> path in Elements
    {
      var index := Hash(path);
      var chain := buckets[index];
      var j := 0;
      while j < |chain|
        invariant 0 <= j <= |chain|
        invariant forall k :: 0 <= k < j ==> chain[k] != path
      {
        if chain[j] == path {
          return true;
        }
        j := j + 1;
      }
      return false;
    }
  }
}
