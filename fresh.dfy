/** The ids new blocks receive. The application mints them from the clock
    and a random number (`block-<time>-<random>`, `copy-…`, `inner-…`); here
    the supplier is a deterministic function that is guaranteed to avoid
    every id already in the document and to repeat none of its own. */
module Fresh {
  import opened Tree

  /** The length of the longest string of `ss` (0 for none). */
  function MaxLength(ss: seq<string>): (m: nat)
    ensures forall s :: s in ss ==> |s| <= m
    ensures ss != [] ==> exists s :: s in ss && |s| == m
  {
    if ss == [] then 0
    else
      var rest := MaxLength(ss[1..]);
      assert forall s :: s in ss ==> s == ss[0] || s in ss[1..];
      if |ss[0]| >= rest then |ss[0]| else rest
  }

  /** A string of n zeros. */
  function Zeros(n: nat): (r: string)
    ensures |r| == n
  {
    if n == 0 then "" else "0" + Zeros(n - 1)
  }

  /** n ids, each starting with `prefix`, none of them among `avoid` and no
      two alike: the k-th is longer than any id of `avoid`, and the ids grow
      in length one by one. */
  function FreshIds(prefix: string, avoid: seq<string>, n: nat): (ids: seq<string>)
    ensures |ids| == n
    ensures Distinct(ids)
    ensures forall x :: x in ids ==> x !in avoid
    ensures forall k :: 0 <= k < n ==> prefix <= ids[k]
  {
    var m := MaxLength(avoid);
    var ids := seq(n, k requires 0 <= k => prefix + Zeros(m + k + 1));
    assert forall k :: 0 <= k < n ==> ids[k] == prefix + Zeros(m + k + 1);
    assert forall k :: 0 <= k < n ==> |ids[k]| == |prefix| + m + k + 1;
    DistinctPairwise(ids);
    ids
  }
}
