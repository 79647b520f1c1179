/**
 * `apply_filters` in app.py. The sidebar selections it reads as globals
 * (`branch_filter`, `campus_filter`, `branch_drill`) are an explicit
 * `Selection` here.
 */
module Filters {
  import opened Records
  import opened Frames

  /** The drill-down entry that means "no drill-down". */
  const AllBranchesLabel: string := "All branches"

  datatype Selection = Selection(branches: set<string>, campuses: set<string>, drill: string)

  /** The condition the mask encodes for one row. */
  predicate Passes(sel: Selection, r: Record) {
    r.branch in sel.branches && r.campus in sel.campuses
    && (sel.drill == AllBranchesLabel || r.branch == sel.drill)
  }

  /** The rows that pass the selection, in their order. */
  function Filtered(df: seq<Record>, sel: Selection): seq<Record> {
    if df == [] then []
    else
      var n := |df| - 1;
      Filtered(df[..n], sel) + (if Passes(sel, df[n]) then [df[n]] else [])
  }

  /** Boolean indexing with the mask of `Passes` is `Filtered`. */
  lemma {:induction false} SelectPassing(df: seq<Record>, sel: Selection, mask: seq<bool>)
    requires |mask| == |df|
    requires forall k :: 0 <= k < |df| ==> mask[k] == Passes(sel, df[k])
    ensures Select(df, mask) == Filtered(df, sel)
  {
    if df != [] {
      var n := |df| - 1;
      SelectPassing(df[..n], sel, mask[..n]);
    }
  }

  /**
   * `apply_filters`: a mask of branch and campus membership, narrowed with
   * `&=` to the drill-down branch unless that is "All branches", then used
   * to index the frame.
   */
  method ApplyFilters(df: seq<Record>, sel: Selection) returns (out: seq<Record>)
    ensures out == Filtered(df, sel)
  {
    var n := |df|;
    var mask := seq(n, k requires 0 <= k < n => df[k].branch in sel.branches && df[k].campus in sel.campuses);
    if sel.drill != AllBranchesLabel {
      mask := seq(n, k requires 0 <= k < n => mask[k] && df[k].branch == sel.drill);
    }
    SelectPassing(df, sel, mask);
    out := Select(df, mask);
  }

  lemma FilteredAppend(a: seq<Record>, r: Record, sel: Selection)
    ensures Filtered(a + [r], sel) == Filtered(a, sel) + (if Passes(sel, r) then [r] else [])
  {
    assert (a + [r])[..|a|] == a;
  }

  /**
   * Soundness and completeness: a row is kept exactly when it is an input
   * row that passes; the result keeps the input order and is no longer
   * than the input.  FilteredCounts gives the multiplicities.
   */
  lemma {:induction false} FilteredSpec(df: seq<Record>, sel: Selection)
    ensures forall r :: r in Filtered(df, sel) <==> r in df && Passes(sel, r)
    ensures IsSubsequence(Filtered(df, sel), df)
    ensures |Filtered(df, sel)| <= |df|
  {
    if df != [] {
      var n := |df| - 1;
      FilteredSpec(df[..n], sel);
      assert df == df[..n] + [df[n]];
      var f := Filtered(df, sel);
      if Passes(sel, df[n]) {
        assert f[..|f| - 1] == Filtered(df[..n], sel) && f[|f| - 1] == df[n];
      } else {
        assert f == Filtered(df[..n], sel);
        assert f == [] || IsSubsequence(f, df[..n]);
      }
    }
  }

  /** Filtering a subsequence gives a subsequence of the filtered whole. */
  lemma {:induction false} FilteredMonotone(a: seq<Record>, b: seq<Record>, sel: Selection)
    requires IsSubsequence(a, b)
    ensures IsSubsequence(Filtered(a, sel), Filtered(b, sel))
    decreases |b|
  {
    if a == [] {
      assert Filtered(a, sel) == [];
    } else {
      var a', b' := a[..|a| - 1], b[..|b| - 1];
      var x := b[|b| - 1];
      if a[|a| - 1] == x && IsSubsequence(a', b') {
        FilteredMonotone(a', b', sel);
        var fa, fb := Filtered(a, sel), Filtered(b, sel);
        if Passes(sel, x) {
          assert fa == Filtered(a', sel) + [x] && fb == Filtered(b', sel) + [x];
          assert fa[..|fa| - 1] == Filtered(a', sel) && fb[..|fb| - 1] == Filtered(b', sel);
        } else {
          assert fa == Filtered(a', sel) && fb == Filtered(b', sel);
        }
      } else {
        FilteredMonotone(a, b', sel);
        if Passes(sel, x) {
          SubsequenceOfExtended(Filtered(a, sel), Filtered(b', sel), x);
        } else {
          assert Filtered(b, sel) == Filtered(b', sel);
        }
      }
    }
  }

  /** A passing row is kept as often as it occurs in the input; any other row never. */
  lemma {:induction false} FilteredCounts(df: seq<Record>, sel: Selection)
    ensures forall r :: multiset(Filtered(df, sel))[r] == if Passes(sel, r) then multiset(df)[r] else 0
  {
    if df != [] {
      var n := |df| - 1;
      FilteredCounts(df[..n], sel);
      assert df == df[..n] + [df[n]];
      assert multiset(df) == multiset(df[..n]) + multiset{df[n]};
    }
  }

  /** Selecting no branch, or no campus, leaves nothing. */
  lemma {:induction false} FilteredEmptySelection(df: seq<Record>, sel: Selection)
    requires sel.branches == {} || sel.campuses == {}
    ensures Filtered(df, sel) == []
  {
    if df != [] {
      FilteredEmptySelection(df[..|df| - 1], sel);
    }
  }

  /** Drill-downs that can hold together: at most one is set, or both name the same branch. */
  predicate Compatible(a: Selection, b: Selection) {
    a.drill == AllBranchesLabel || b.drill == AllBranchesLabel || a.drill == b.drill
  }

  /** The selection that asks for both `a` and `b`. */
  function Meet(a: Selection, b: Selection): (m: Selection)
    requires Compatible(a, b)
    ensures forall r :: Passes(m, r) <==> Passes(a, r) && Passes(b, r)
  {
    Selection(a.branches * b.branches, a.campuses * b.campuses,
              if a.drill == AllBranchesLabel then b.drill else a.drill)
  }

  /** Filtering twice is filtering once by both selections. */
  lemma {:induction false} FilteredCompose(df: seq<Record>, a: Selection, b: Selection)
    requires Compatible(a, b)
    ensures Filtered(Filtered(df, a), b) == Filtered(df, Meet(a, b))
  {
    if df != [] {
      var n := |df| - 1;
      FilteredCompose(df[..n], a, b);
      assert Passes(Meet(a, b), df[n]) <==> Passes(a, df[n]) && Passes(b, df[n]);
      assert df[..n] + [df[n]] == df;
      FilteredAppend(df[..n], df[n], a);
      FilteredAppend(df[..n], df[n], Meet(a, b));
      var fa := Filtered(df[..n], a);
      if Passes(a, df[n]) {
        FilteredAppend(fa, df[n], b);
        assert Filtered(df, a) == fa + [df[n]];
      } else {
        assert Filtered(df, a) == fa;
        assert Filtered(df, Meet(a, b)) == Filtered(df[..n], Meet(a, b));
      }
    }
  }

  /** Filtering is idempotent. */
  lemma FilteredIdempotent(df: seq<Record>, sel: Selection)
    ensures Filtered(Filtered(df, sel), sel) == Filtered(df, sel)
  {
    FilteredCompose(df, sel, sel);
    var m := Meet(sel, sel);
    FilteredSamePasses(df, m, sel);
  }

  /** Selections that pass the same rows filter alike. */
  lemma {:induction false} FilteredSamePasses(df: seq<Record>, a: Selection, b: Selection)
    requires forall r :: Passes(a, r) <==> Passes(b, r)
    ensures Filtered(df, a) == Filtered(df, b)
  {
    if df != [] {
      FilteredSamePasses(df[..|df| - 1], a, b);
    }
  }
}
