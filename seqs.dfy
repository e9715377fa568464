/** Sequence vocabulary shared by the stages: selection by a boolean mask
    (how a table is filtered row by row) and distinctness. */
module Seqs {

  /** No element occurs twice. */
  predicate Distinct<T(==)>(s: seq<T>) {
    forall i, j :: 0 <= i < j < |s| ==> s[i] != s[j]
  }

  /** The elements of `s` whose entry in `keep` is true, in their original
      order: filtering a table by a boolean row mask. */
  function Select<T>(s: seq<T>, keep: seq<bool>): (r: seq<T>)
    requires |keep| == |s|
    ensures |r| <= |s|
    decreases |s|
  {
    if s == [] then []
    else Select(s[..|s| - 1], keep[..|s| - 1]) + (if keep[|s| - 1] then [s[|s| - 1]] else [])
  }

  /** Selecting from a sequence extended by one element. */
  lemma SelectSnoc<T>(s: seq<T>, keep: seq<bool>, x: T, b: bool)
    requires |keep| == |s|
    ensures Select(s + [x], keep + [b]) == Select(s, keep) + (if b then [x] else [])
  {
    assert (s + [x])[..|s|] == s;
    assert (keep + [b])[..|s|] == keep;
  }

  /** An element is selected exactly when some position holding it is kept. */
  lemma {:induction false} SelectMembers<T>(s: seq<T>, keep: seq<bool>, x: T)
    requires |keep| == |s|
    ensures x in Select(s, keep) <==> exists i :: 0 <= i < |s| && keep[i] && s[i] == x
    decreases |s|
  {
    if s != [] {
      var n := |s| - 1;
      SelectMembers(s[..n], keep[..n], x);
      assert s == s[..n] + [s[n]];
      assert keep == keep[..n] + [keep[n]];
      SelectSnoc(s[..n], keep[..n], s[n], keep[n]);
      if x in Select(s, keep) && x !in Select(s[..n], keep[..n]) {
        assert keep[n] && s[n] == x;
      }
      if exists i :: 0 <= i < |s| && keep[i] && s[i] == x {
        var i :| 0 <= i < |s| && keep[i] && s[i] == x;
        if i < n {
          assert keep[..n][i] && s[..n][i] == x;
        }
      }
    }
  }

  /** Selecting with a mask that keeps everything changes nothing. */
  lemma {:induction false} SelectAll<T>(s: seq<T>, keep: seq<bool>)
    requires |keep| == |s|
    requires forall i :: 0 <= i < |keep| ==> keep[i]
    ensures Select(s, keep) == s
    decreases |s|
  {
    if s != [] {
      var n := |s| - 1;
      SelectAll(s[..n], keep[..n]);
      assert s == s[..n] + [s[n]];
    }
  }

  /** Selection keeps a sequence free of repeats. */
  lemma {:induction false} SelectDistinct<T>(s: seq<T>, keep: seq<bool>)
    requires |keep| == |s|
    requires Distinct(s)
    ensures Distinct(Select(s, keep))
    decreases |s|
  {
    if s != [] {
      var n := |s| - 1;
      SelectDistinct(s[..n], keep[..n]);
      if keep[n] {
        var prefix := Select(s[..n], keep[..n]);
        SelectMembers(s[..n], keep[..n], s[n]);
        var r := Select(s, keep);
        assert r == prefix + [s[n]];
        forall i, j | 0 <= i < j < |r| ensures r[i] != r[j] {
          if j == |r| - 1 {
            assert r[i] == prefix[i];
          }
        }
      }
    }
  }
}
