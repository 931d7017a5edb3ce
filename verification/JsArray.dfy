/** Array.prototype.filter, which both the search view and delete are built on. */
module JsArray {

  /** The elements of `s` that `keep` accepts, in their original order. */
  function Filter<T(!new)>(s: seq<T>, keep: T -> bool): (r: seq<T>)
    ensures |r| <= |s|
    ensures forall x :: x in r <==> x in s && keep(x)
  {
    if s == [] then []
    else
      var init := s[..|s| - 1];
      var last := s[|s| - 1];
      assert s == init + [last];
      Filter(init, keep) + (if keep(last) then [last] else [])
  }

  /** The positions of the elements `keep` accepts, in increasing order. */
  ghost function Kept<T>(s: seq<T>, keep: T -> bool): seq<int>
  {
    if s == [] then []
    else Kept(s[..|s| - 1], keep) + (if keep(s[|s| - 1]) then [|s| - 1] else [])
  }

  /** `idx` lists, in increasing order, exactly the positions of `s` whose element `keep` accepts. */
  ghost predicate SelectsExactly<T>(s: seq<T>, keep: T -> bool, idx: seq<int>) {
    && (forall k :: 0 <= k < |idx| ==> 0 <= idx[k] < |s| && keep(s[idx[k]]))
    && (forall k, l :: 0 <= k < l < |idx| ==> idx[k] < idx[l])
    && (forall i :: 0 <= i < |s| && keep(s[i]) ==> i in idx)
  }

  /** Kept lists, in increasing order, exactly the positions whose element is accepted. */
  lemma {:induction false} KeptSelects<T>(s: seq<T>, keep: T -> bool)
    ensures SelectsExactly(s, keep, Kept(s, keep))
  {
    if s != [] {
      var n := |s| - 1;
      var init := s[..n];
      KeptSelects(init, keep);
      var idx := Kept(init, keep);
      var tail := if keep(s[n]) then [n] else [];
      assert Kept(s, keep) == idx + tail;
      assert forall k :: 0 <= k < |idx| ==> s[idx[k]] == init[idx[k]];
      forall i | 0 <= i < |s| && keep(s[i]) ensures i in idx + tail {
        if i < n {
          assert init[i] == s[i];
        }
      }
    }
  }

  /**
    filter keeps exactly the accepted elements, in order: its k-th element is
    the element at the k-th accepted position.
   */
  lemma {:induction false} FilterIsSelection<T(!new)>(s: seq<T>, keep: T -> bool)
    ensures SelectsExactly(s, keep, Kept(s, keep))
    ensures |Filter(s, keep)| == |Kept(s, keep)|
    ensures forall k :: 0 <= k < |Kept(s, keep)| ==> Filter(s, keep)[k] == s[Kept(s, keep)[k]]
  {
    KeptSelects(s, keep);
    if s != [] {
      var n := |s| - 1;
      var init := s[..n];
      FilterIsSelection(init, keep);
      var idx := Kept(init, keep);
      var r := Filter(init, keep);
      assert Kept(s, keep) == idx + (if keep(s[n]) then [n] else []);
      assert Filter(s, keep) == r + (if keep(s[n]) then [s[n]] else []);
      assert forall k :: 0 <= k < |idx| ==> s[idx[k]] == init[idx[k]];
    }
  }

  /** filter leaves a sequence whose every element is accepted unchanged. */
  lemma {:induction false} FilterKeepsAll<T(!new)>(s: seq<T>, keep: T -> bool)
    requires forall i :: 0 <= i < |s| ==> keep(s[i])
    ensures Filter(s, keep) == s
  {
    if s != [] {
      FilterKeepsAll(s[..|s| - 1], keep);
    }
  }

  /** Filtering with two predicates that agree on every element gives the same result. */
  lemma {:induction false} FilterAgrees<T(!new)>(s: seq<T>, keep: T -> bool, keep': T -> bool)
    requires forall i :: 0 <= i < |s| ==> keep(s[i]) == keep'(s[i])
    ensures Filter(s, keep) == Filter(s, keep')
  {
    if s != [] {
      FilterAgrees(s[..|s| - 1], keep, keep');
    }
  }
}
