/** Generic operations on a table held as a sequence of rows, in insertion order. */
module Tables {

  datatype Option<T> = None | Some(value: T)

  /** The index of the first row satisfying `p`, as an ORM query's `.first()` picks
      the first matching row of a filtered table, or None when no row matches. */
  function FirstMatch<T>(s: seq<T>, p: T -> bool): (r: Option<nat>)
    ensures r.None? <==> forall i :: 0 <= i < |s| ==> !p(s[i])
    ensures r.Some? ==> r.value < |s| && p(s[r.value])
    ensures r.Some? ==> forall i :: 0 <= i < r.value ==> !p(s[i])
  {
    if |s| == 0 then None
    else if p(s[0]) then Some(0)
    else
      match FirstMatch(s[1..], p)
      case None =>
        assert forall i :: 1 <= i < |s| ==> s[i] == s[1..][i - 1];
        None
      case Some(k) =>
        assert forall i :: 1 <= i <= k ==> s[i] == s[1..][i - 1];
        Some(k + 1)
  }

  /** The table without the row at index `k`; the rows after it move up by one. */
  function Remove<T>(s: seq<T>, k: nat): (r: seq<T>)
    requires k < |s|
    ensures |r| == |s| - 1
    ensures forall i :: 0 <= i < |r| ==> r[i] == if i < k then s[i] else s[i + 1]
    ensures multiset(r) + multiset{s[k]} == multiset(s)
  {
    assert s == s[..k] + [s[k]] + s[k + 1..];
    s[..k] + s[k + 1..]
  }

  /** The rows of `s` that `keep` accepts, in their original order. `FilterCounts` says each
      is kept as often as it occurs; `PairwiseFilter` says the order carries over. */
  function Filter<T>(s: seq<T>, keep: T -> bool): (r: seq<T>)
    ensures |r| <= |s|
    ensures forall i :: 0 <= i < |r| ==> r[i] in s && keep(r[i])
    ensures forall i :: 0 <= i < |s| && keep(s[i]) ==> s[i] in r
    ensures (forall i :: 0 <= i < |s| ==> keep(s[i])) ==> r == s
  {
    if |s| == 0 then []
    else if keep(s[0]) then [s[0]] + Filter(s[1..], keep)
    else Filter(s[1..], keep)
  }

  /** Filtering keeps every accepted row as many times as it occurs and drops every other. */
  lemma {:induction false} FilterCounts<T>(s: seq<T>, keep: T -> bool, x: T)
    ensures multiset(Filter(s, keep))[x] == if keep(x) then multiset(s)[x] else 0
  {
    if |s| > 0 {
      FilterCounts(s[1..], keep, x);
      assert s == [s[0]] + s[1..];
    }
  }

  /** Every earlier row stands in relation `rel` to every later row. */
  ghost predicate Pairwise<T>(s: seq<T>, rel: (T, T) -> bool)
  {
    forall i, j :: 0 <= i < j < |s| ==> rel(s[i], s[j])
  }

  lemma PairwiseAppend<T>(s: seq<T>, x: T, rel: (T, T) -> bool)
    requires Pairwise(s, rel)
    requires forall i :: 0 <= i < |s| ==> rel(s[i], x)
    ensures Pairwise(s + [x], rel)
  {
    var t := s + [x];
    forall i, j | 0 <= i < j < |t|
      ensures rel(t[i], t[j])
    {
      if j == |s| {
        assert t[j] == x && t[i] == s[i];
      } else {
        assert t[i] == s[i] && t[j] == s[j];
      }
    }
  }

  /** Removing a row keeps the relation, and every remaining row is related to the removed one. */
  lemma PairwiseRemove<T>(s: seq<T>, k: nat, rel: (T, T) -> bool)
    requires Pairwise(s, rel) && k < |s|
    ensures Pairwise(Remove(s, k), rel)
    ensures forall i :: 0 <= i < |Remove(s, k)| ==> rel(s[k], Remove(s, k)[i]) || rel(Remove(s, k)[i], s[k])
  {
    var r := Remove(s, k);
    forall i, j | 0 <= i < j < |r|
      ensures rel(r[i], r[j])
    {
      var i' := if i < k then i else i + 1;
      var j' := if j < k then j else j + 1;
      assert r[i] == s[i'] && r[j] == s[j'] && i' < j';
    }
    forall i | 0 <= i < |r|
      ensures rel(s[k], r[i]) || rel(r[i], s[k])
    {
      if i < k {
        assert r[i] == s[i];
      } else {
        assert r[i] == s[i + 1];
      }
    }
  }

  lemma {:induction false} PairwiseFilter<T>(s: seq<T>, keep: T -> bool, rel: (T, T) -> bool)
    requires Pairwise(s, rel)
    ensures Pairwise(Filter(s, keep), rel)
  {
    if |s| > 0 {
      var rest := s[1..];
      assert Pairwise(rest, rel) by {
        forall i, j | 0 <= i < j < |rest|
          ensures rel(rest[i], rest[j])
        {
          assert rest[i] == s[i + 1] && rest[j] == s[j + 1];
        }
      }
      PairwiseFilter(rest, keep, rel);
      if keep(s[0]) {
        var tail := Filter(rest, keep);
        var t := [s[0]] + tail;
        forall i, j | 0 <= i < j < |t|
          ensures rel(t[i], t[j])
        {
          if i == 0 {
            assert t[j] == tail[j - 1] && tail[j - 1] in rest;
            var m :| 0 <= m < |rest| && rest[m] == tail[j - 1];
            assert rest[m] == s[m + 1];
          } else {
            assert t[i] == tail[i - 1] && t[j] == tail[j - 1];
          }
        }
      }
    }
  }
}
