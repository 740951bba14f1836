/**
 * Generic sequence helpers mirroring the JavaScript array methods the
 * controllers rely on: `find`/`findIndex` (first match), `filter`, and a
 * pairwise predicate used to state "no two elements clash" invariants.
 */
module Collections {

  /** The conventional optional value; `None` stands for JavaScript `undefined`. */
  datatype Option<+T> = None | Some(value: T)

  /** Index of the first element satisfying `p`, as `Array.prototype.findIndex`
      computes it (`None` where JavaScript returns -1). */
  function FirstIndex<T>(s: seq<T>, p: T -> bool): (r: Option<nat>)
    ensures r.Some? ==> r.value < |s| && p(s[r.value])
    ensures r.Some? ==> forall j :: 0 <= j < r.value ==> !p(s[j])
    ensures r.None? ==> forall j :: 0 <= j < |s| ==> !p(s[j])
    decreases |s|
  {
    if |s| == 0 then None
    else if p(s[0]) then Some(0)
    else match FirstIndex(s[1..], p)
      case None => None
      case Some(k) => Some(k + 1)
  }

  /** The elements of `s` that satisfy `p`, in their original order
      (`Array.prototype.filter`). */
  function Filter<T(!new)>(s: seq<T>, p: T -> bool): (r: seq<T>)
    ensures |r| <= |s|
    ensures forall x :: x in r <==> x in s && p(x)
    ensures |s| > 0 && p(s[|s| - 1]) ==> |r| > 0 && r[|r| - 1] == s[|s| - 1]
    decreases |s|
  {
    if |s| == 0 then []
    else
      var init := Filter(s[..|s| - 1], p);
      assert forall x :: x in s <==> x in s[..|s| - 1] || x == s[|s| - 1] by {
        assert s == s[..|s| - 1] + [s[|s| - 1]];
      }
      if p(s[|s| - 1]) then init + [s[|s| - 1]] else init
  }

  /** Nothing survives a filter that rejects every element. */
  lemma {:induction false} FilterRejectsAll<T(!new)>(s: seq<T>, p: T -> bool)
    requires forall x :: x in s ==> !p(x)
    ensures Filter(s, p) == []
    decreases |s|
  {
    if |s| > 0 {
      var init := s[..|s| - 1];
      assert forall x :: x in init ==> x in s;
      FilterRejectsAll(init, p);
      assert s[|s| - 1] in s;
    }
  }

  /** Every two elements, taken in order, are related by `R`. */
  predicate Pairwise<T>(s: seq<T>, R: (T, T) -> bool) {
    forall i, j :: 0 <= i < j < |s| ==> R(s[i], s[j])
  }

  /** Two values differ; `Pairwise(s, Differ)` says `s` has no repeated element. */
  predicate Differ<T(==)>(a: T, b: T) {
    a != b
  }

  /** Filtering keeps a sequence's pairwise relation: the survivors are a
      subsequence of the original. */
  lemma {:induction false} FilterPreservesPairwise<T(!new)>(s: seq<T>, p: T -> bool, R: (T, T) -> bool)
    requires Pairwise(s, R)
    ensures Pairwise(Filter(s, p), R)
    decreases |s|
  {
    if |s| > 0 {
      var init := s[..|s| - 1];
      var last := s[|s| - 1];
      assert Pairwise(init, R) by {
        forall i, j | 0 <= i < j < |init| ensures R(init[i], init[j]) {
          assert init[i] == s[i] && init[j] == s[j];
        }
      }
      FilterPreservesPairwise(init, p, R);
      var f := Filter(init, p);
      if p(last) {
        var r := f + [last];
        assert Filter(s, p) == r;
        forall i, j | 0 <= i < j < |r| ensures R(r[i], r[j]) {
          if j == |r| - 1 {
            assert r[i] in init;
            var k :| 0 <= k < |init| && init[k] == r[i];
            assert R(s[k], s[|s| - 1]);
          } else {
            assert r[i] == f[i] && r[j] == f[j];
          }
        }
      }
    }
  }
}
