/**
 Order-preserving selection of the elements of a sequence that satisfy a
 predicate. The addon registry answers "all addons in state X" with such a
 selection, and the menu composer keeps only the addons that contribute menu
 items; both are stated with `Filter`, and `Positions` names, for every
 selected element, the index it was taken from.
 */
module Selection {

  /** The elements of `s` that satisfy `keep`, in the order they occur in `s`. */
  function Filter<T>(s: seq<T>, keep: T -> bool): (r: seq<T>)
    ensures |r| <= |s|
    ensures forall k :: 0 <= k < |r| ==> keep(r[k])
    decreases |s|
  {
    if s == [] then []
    else
      var init := Filter(s[..|s| - 1], keep);
      assert s == s[..|s| - 1] + [s[|s| - 1]];
      if keep(s[|s| - 1]) then init + [s[|s| - 1]] else init
  }

  /** Every element of `s` that satisfies `keep` is selected. */
  lemma {:induction false} FilterComplete<T>(s: seq<T>, keep: T -> bool, i: nat)
    requires i < |s| && keep(s[i])
    ensures s[i] in Filter(s, keep)
    decreases |s|
  {
    var n := |s| - 1;
    if i < n {
      FilterComplete(s[..n], keep, i);
    }
  }

  /**
   The indices of the elements of `s` that satisfy `keep`, in increasing
   order, one per selected element.
   */
  function Positions<T>(s: seq<T>, keep: T -> bool): (p: seq<nat>)
    ensures |p| == |Filter(s, keep)|
    ensures forall k :: 0 <= k < |p| ==> p[k] < |s|
    ensures forall k, l :: 0 <= k < l < |p| ==> p[k] < p[l]
    decreases |s|
  {
    if s == [] then []
    else
      var n := |s| - 1;
      var init := Positions(s[..n], keep);
      if keep(s[n]) then init + [n] else init
  }

  /** The k-th selected element is the element at the k-th position. */
  lemma {:induction false} PositionsSelect<T>(s: seq<T>, keep: T -> bool, k: nat)
    requires k < |Filter(s, keep)|
    ensures Positions(s, keep)[k] < |s| && Filter(s, keep)[k] == s[Positions(s, keep)[k]]
    decreases |s|
  {
    var n := |s| - 1;
    if k < |Filter(s[..n], keep)| {
      PositionsSelect(s[..n], keep, k);
    }
  }

  /** An index is a position exactly when its element is kept. */
  lemma {:induction false} PositionsExact<T>(s: seq<T>, keep: T -> bool, i: nat)
    requires i < |s|
    ensures i in Positions(s, keep) <==> keep(s[i])
    decreases |s|
  {
    var n := |s| - 1;
    if i < n {
      PositionsExact(s[..n], keep, i);
      assert n !in Positions(s[..n], keep);
    } else {
      assert n !in Positions(s[..n], keep);
    }
  }

  /** Selecting by `p` and then by `q` is selecting by their conjunction. */
  lemma {:induction false} FilterFilter<T>(s: seq<T>, p: T -> bool, q: T -> bool, both: T -> bool)
    requires forall x :: both(x) == (p(x) && q(x))
    ensures Filter(Filter(s, p), q) == Filter(s, both)
    decreases |s|
  {
    if s != [] {
      var n := |s| - 1;
      FilterFilter(s[..n], p, q, both);
      var inner := Filter(s[..n], p);
      if p(s[n]) {
        assert (inner + [s[n]])[..|inner|] == inner;
      }
    }
  }
}
