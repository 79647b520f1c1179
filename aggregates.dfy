/**
 * The summary tables of each admissions tab in app.py: the branch and
 * campus cutoff table (`agg(["min", "max", "mean", "count"])`), the mean
 * score per branch, and the entry counts per (campus, branch) and per
 * branch (`size()`). Means are exact; their rounding for display is not
 * modelled.
 */
module Aggregates {
  import opened Records
  import opened Groups
  import Text

  /** The score column a tab aggregates: "GATE Score" or "HD Score". */
  datatype ScoreField = GateScore | HdScore

  function Score(r: Record, f: ScoreField): real {
    match f
    case GateScore => r.gate
    case HdScore => r.hdScore
  }

  function Scores(rows: seq<Record>, f: ScoreField): (s: seq<real>)
    ensures |s| == |rows|
  {
    seq(|rows|, i requires 0 <= i < |rows| => Score(rows[i], f))
  }

  function Sum(s: seq<real>): real {
    if s == [] then 0.0 else s[0] + Sum(s[1..])
  }

  /** The series minimum: a value of the series, at most every value. */
  function Lowest(s: seq<real>): (m: real)
    requires |s| >= 1
    ensures m in s
    ensures forall i :: 0 <= i < |s| ==> m <= s[i]
  {
    if |s| == 1 then s[0]
    else
      var rest := Lowest(s[1..]);
      assert forall i :: 1 <= i < |s| ==> s[i] == s[1..][i - 1];
      if s[0] <= rest then s[0] else rest
  }

  /** The series maximum: a value of the series, at least every value. */
  function Highest(s: seq<real>): (m: real)
    requires |s| >= 1
    ensures m in s
    ensures forall i :: 0 <= i < |s| ==> s[i] <= m
  {
    if |s| == 1 then s[0]
    else
      var rest := Highest(s[1..]);
      assert forall i :: 1 <= i < |s| ==> s[i] == s[1..][i - 1];
      if s[0] >= rest then s[0] else rest
  }

  function Mean(s: seq<real>): real
    requires |s| >= 1
  {
    Sum(s) / |s| as real
  }

  lemma {:induction false} SumBounds(s: seq<real>, lo: real, hi: real)
    requires forall i :: 0 <= i < |s| ==> lo <= s[i] <= hi
    ensures |s| as real * lo <= Sum(s) <= |s| as real * hi
  {
    if s != [] {
      SumBounds(s[1..], lo, hi);
      assert |s[1..]| as real == |s| as real - 1.0;
    }
  }

  /** The mean of a series lies between any bounds of its values. */
  lemma MeanWithin(s: seq<real>, lo: real, hi: real)
    requires |s| >= 1
    requires forall i :: 0 <= i < |s| ==> lo <= s[i] <= hi
    ensures lo <= Mean(s) <= hi
  {
    SumBounds(s, lo, hi);
    QuotientBounds(Sum(s), |s| as real, lo, hi);
  }

  /** The mean of a series lies between its minimum and its maximum. */
  lemma MeanBetweenLowestAndHighest(s: seq<real>)
    requires |s| >= 1
    ensures Lowest(s) <= Mean(s) <= Highest(s)
  {
    MeanWithin(s, Lowest(s), Highest(s));
  }

  lemma QuotientBounds(total: real, n: real, lo: real, hi: real)
    requires n > 0.0 && n * lo <= total <= n * hi
    ensures lo <= total / n <= hi
  {
  }

  /** The scores of the rows that share key `k`. */
  function GroupScores(df: seq<Record>, f: ScoreField, g: Grouping, k: Key): seq<real> {
    Scores(Members(df, g, k), f)
  }

  /** One row of the cutoff table; `key` is [branch, campus]. */
  datatype CutoffRow = CutoffRow(key: Key, min: real, max: real, mean: real, count: nat)

  function Cutoff(df: seq<Record>, f: ScoreField, k: Key): CutoffRow
    requires |Members(df, ByBranchCampus, k)| >= 1
  {
    var s := GroupScores(df, f, ByBranchCampus, k);
    CutoffRow(k, Lowest(s), Highest(s), Mean(s), |s|)
  }

  /**
   * `groupby(["ME Branch", "Campus"])[score].agg(["min", "max", "mean",
   * "count"]).reset_index().sort_values(["ME Branch", "Campus"])`.
   */
  function CutoffTable(df: seq<Record>, f: ScoreField): seq<CutoffRow> {
    GroupKeysOccupied(df, ByBranchCampus);
    var keys := GroupKeys(df, ByBranchCampus);
    seq(|keys|, i requires 0 <= i < |keys| => Cutoff(df, f, keys[i]))
  }

  /** One row of a mean-per-branch table; `key` is [branch]. */
  datatype MeanRow = MeanRow(key: Key, mean: real)

  /**
   * `groupby("ME Branch")[score].mean().reset_index()`, before the display
   * re-sort by mean.
   */
  function BranchMeans(df: seq<Record>, f: ScoreField): seq<MeanRow> {
    GroupKeysOccupied(df, ByBranch);
    var keys := GroupKeys(df, ByBranch);
    seq(|keys|, i requires 0 <= i < |keys| => BranchMean(df, f, keys[i]))
  }

  function BranchMean(df: seq<Record>, f: ScoreField, k: Key): MeanRow
    requires |Members(df, ByBranch, k)| >= 1
  {
    MeanRow(k, Mean(GroupScores(df, f, ByBranch, k)))
  }

  /** One row of a `size()` table. */
  datatype CountRow = CountRow(key: Key, count: nat)

  /** `groupby(columns).size().reset_index(name="Count")`. */
  function CountTable(df: seq<Record>, g: Grouping): seq<CountRow> {
    var keys := GroupKeys(df, g);
    seq(|keys|, i requires 0 <= i < |keys| => CountRow(keys[i], |Members(df, g, keys[i])|))
  }

  function TotalCount(rows: seq<CountRow>): nat {
    if rows == [] then 0 else rows[0].count + TotalCount(rows[1..])
  }

  function TotalCutoffCount(rows: seq<CutoffRow>): nat {
    if rows == [] then 0 else rows[0].count + TotalCutoffCount(rows[1..])
  }

  /** The counts of the (campus, branch) rows whose branch is `b`, added up. */
  function BranchSubtotal(rows: seq<CountRow>, b: string): nat {
    if rows == [] then 0
    else (if |rows[0].key| == 2 && rows[0].key[1] == b then rows[0].count else 0)
         + BranchSubtotal(rows[1..], b)
  }

  // ---- counting rows over a list of keys ----

  /** The group sizes of `keys`, added up. */
  function SumSizes(df: seq<Record>, g: Grouping, keys: seq<Key>): nat {
    if keys == [] then 0 else |Members(df, g, keys[0])| + SumSizes(df, g, keys[1..])
  }

  /** How often `x` is listed in `keys`. */
  function Occurrences(keys: seq<Key>, x: Key): nat {
    if keys == [] then 0 else (if keys[0] == x then 1 else 0) + Occurrences(keys[1..], x)
  }

  lemma {:induction false} OccurrencesOfDistinct(keys: seq<Key>, x: Key)
    requires forall i, j :: 0 <= i < j < |keys| ==> keys[i] != keys[j]
    ensures Occurrences(keys, x) == if x in keys then 1 else 0
  {
    if keys != [] {
      OccurrencesOfDistinct(keys[1..], x);
      if keys[0] == x {
        assert x !in keys[1..];
      }
    }
  }

  lemma {:induction false} SumSizesOfLastRow(df: seq<Record>, g: Grouping, keys: seq<Key>)
    requires df != []
    ensures SumSizes(df, g, keys) == SumSizes(df[..|df| - 1], g, keys) + Occurrences(keys, KeyOf(df[|df| - 1], g))
  {
    if keys != [] {
      SumSizesOfLastRow(df, g, keys[1..]);
    }
  }

  /** Over distinct keys that cover every row, the group sizes add up to the row count. */
  lemma {:induction false} SumSizesCoveringKeys(df: seq<Record>, g: Grouping, keys: seq<Key>)
    requires forall i, j :: 0 <= i < j < |keys| ==> keys[i] != keys[j]
    requires forall i :: 0 <= i < |df| ==> KeyOf(df[i], g) in keys
    ensures SumSizes(df, g, keys) == |df|
  {
    if df == [] {
      SumSizesOfEmpty(g, keys);
    } else {
      var n := |df| - 1;
      var init := df[..n];
      forall i | 0 <= i < n ensures KeyOf(init[i], g) in keys {
        assert init[i] == df[i];
      }
      SumSizesCoveringKeys(init, g, keys);
      SumSizesOfLastRow(df, g, keys);
      OccurrencesOfDistinct(keys, KeyOf(df[n], g));
    }
  }

  lemma {:induction false} SumSizesOfEmpty(g: Grouping, keys: seq<Key>)
    ensures SumSizes([], g, keys) == 0
  {
    if keys != [] { SumSizesOfEmpty(g, keys[1..]); }
  }

  lemma {:induction false} TotalCountIsSumSizes(df: seq<Record>, g: Grouping, keys: seq<Key>)
    ensures TotalCount(seq(|keys|, i requires 0 <= i < |keys| => CountRow(keys[i], |Members(df, g, keys[i])|)))
         == SumSizes(df, g, keys)
  {
    var rows := seq(|keys|, i requires 0 <= i < |keys| => CountRow(keys[i], |Members(df, g, keys[i])|));
    if keys != [] {
      TotalCountIsSumSizes(df, g, keys[1..]);
      assert rows[1..] == seq(|keys[1..]|, i requires 0 <= i < |keys[1..]| => CountRow(keys[1..][i], |Members(df, g, keys[1..][i])|));
    }
  }

  // ---- the count tables (app.py:254-258, 278-282) ----

  /** Every count of a `size()` table is positive, and its key occurs in the frame. */
  lemma CountTablePositive(df: seq<Record>, g: Grouping)
    ensures var t := CountTable(df, g);
      forall i :: 0 <= i < |t| ==> t[i].count >= 1 && exists j :: 0 <= j < |df| && KeyOf(df[j], g) == t[i].key
  {
    var keys := GroupKeys(df, g);
    var t := CountTable(df, g);
    GroupKeysOccupied(df, g);
    forall i | 0 <= i < |t| ensures t[i].count >= 1 && exists j :: 0 <= j < |df| && KeyOf(df[j], g) == t[i].key {
      assert keys[i] in keys;
    }
  }

  /** A `size()` table lists every occurring key, each once and in strictly ascending order. */
  lemma CountTableKeys(df: seq<Record>, g: Grouping)
    ensures var t := CountTable(df, g);
      forall i, j :: 0 <= i < j < |t| ==> KeyLess(t[i].key, t[j].key)
    ensures var t := CountTable(df, g);
      forall j :: 0 <= j < |df| ==> exists i :: 0 <= i < |t| && t[i].key == KeyOf(df[j], g)
  {
    var keys := GroupKeys(df, g);
    var t := CountTable(df, g);
    forall j | 0 <= j < |df| ensures exists i :: 0 <= i < |t| && t[i].key == KeyOf(df[j], g) {
      var i :| 0 <= i < |keys| && keys[i] == KeyOf(df[j], g);
      assert t[i].key == keys[i];
    }
  }

  /** The counts of a `size()` table add up to the number of rows; an empty frame gives an empty table. */
  lemma CountTableTotal(df: seq<Record>, g: Grouping)
    ensures TotalCount(CountTable(df, g)) == |df|
    ensures CountTable(df, g) == [] <==> df == []
  {
    var keys := GroupKeys(df, g);
    AscendingIsDistinct(keys);
    SumSizesCoveringKeys(df, g, keys);
    TotalCountIsSumSizes(df, g, keys);
    if df != [] {
      assert KeyOf(df[0], g) in keys;
    }
  }

  lemma MembersAppend(a: seq<Record>, r: Record, g: Grouping, k: Key)
    ensures Members(a + [r], g, k) == Members(a, g, k) + (if KeyOf(r, g) == k then [r] else [])
  {
    assert (a + [r])[..|a|] == a;
  }

  /** The (campus, branch) groups of the rows of branch `b` are that branch's groups of the whole frame. */
  lemma {:induction false} MembersOfBranch(df: seq<Record>, b: string, k: Key)
    ensures Members(Members(df, ByBranch, [b]), ByCampusBranch, k)
         == if |k| == 2 && k[1] == b then Members(df, ByCampusBranch, k) else []
  {
    if df != [] {
      var n := |df| - 1;
      MembersOfBranch(df[..n], b, k);
      var r := df[n];
      var init := Members(df[..n], ByBranch, [b]);
      assert KeyOf(r, ByCampusBranch) == k ==> |k| == 2 && k[1] == r.branch;
      assert Members(df, ByCampusBranch, k)
          == Members(df[..n], ByCampusBranch, k) + (if KeyOf(r, ByCampusBranch) == k then [r] else []);
      if r.branch == b {
        assert Members(df, ByBranch, [b]) == init + [r];
        MembersAppend(init, r, ByCampusBranch, k);
      } else {
        assert Members(df, ByBranch, [b]) == init;
      }
    }
  }

  lemma {:induction false} BranchSubtotalIsSumSizes(df: seq<Record>, b: string, keys: seq<Key>)
    ensures BranchSubtotal(seq(|keys|, i requires 0 <= i < |keys| => CountRow(keys[i], |Members(df, ByCampusBranch, keys[i])|)), b)
         == SumSizes(Members(df, ByBranch, [b]), ByCampusBranch, keys)
  {
    var rows := seq(|keys|, i requires 0 <= i < |keys| => CountRow(keys[i], |Members(df, ByCampusBranch, keys[i])|));
    if keys != [] {
      BranchSubtotalIsSumSizes(df, b, keys[1..]);
      assert rows[1..] == seq(|keys[1..]|, i requires 0 <= i < |keys[1..]| => CountRow(keys[1..][i], |Members(df, ByCampusBranch, keys[1..][i])|));
      MembersOfBranch(df, b, keys[0]);
    }
  }

  /**
   * The number of rows of branch `b` (its per-branch count) is the sum of
   * the (campus, branch) counts for that branch.
   */
  lemma BranchCountsAddUp(df: seq<Record>, b: string)
    ensures |Members(df, ByBranch, [b])| == BranchSubtotal(CountTable(df, ByCampusBranch), b)
  {
    var keys := GroupKeys(df, ByCampusBranch);
    var rows := Members(df, ByBranch, [b]);
    BranchSubtotalIsSumSizes(df, b, keys);
    AscendingIsDistinct(keys);
    forall i | 0 <= i < |rows| ensures KeyOf(rows[i], ByCampusBranch) in keys {
      assert rows[i] in rows;
      var j :| 0 <= j < |df| && df[j] == rows[i];
    }
    SumSizesCoveringKeys(rows, ByCampusBranch, keys);
  }

  /** Each row of the per-branch count table is the subtotal of the (campus, branch) table for its branch. */
  lemma BranchTableMatchesCampusTable(df: seq<Record>)
    ensures var t := CountTable(df, ByBranch);
      forall i :: 0 <= i < |t| ==> |t[i].key| == 1 && t[i].count == BranchSubtotal(CountTable(df, ByCampusBranch), t[i].key[0])
  {
    var keys := GroupKeys(df, ByBranch);
    var t := CountTable(df, ByBranch);
    forall i | 0 <= i < |t| ensures |t[i].key| == 1 && t[i].count == BranchSubtotal(CountTable(df, ByCampusBranch), t[i].key[0]) {
      assert keys[i] in keys;
      assert t[i].key == [t[i].key[0]];
      BranchCountsAddUp(df, t[i].key[0]);
    }
  }

  // ---- the cutoff table (app.py:208-213) ----

  /** The cutoff table is in strictly ascending (branch, campus) order. */
  lemma CutoffTableAscending(df: seq<Record>, f: ScoreField)
    ensures var t := CutoffTable(df, f);
      forall i, j :: 0 <= i < j < |t| ==> KeyLess(t[i].key, t[j].key)
  {
    var keys := GroupKeys(df, ByBranchCampus);
    var t := CutoffTable(df, f);
    forall i, j | 0 <= i < j < |t| ensures KeyLess(t[i].key, t[j].key) {
      assert t[i].key == keys[i] && t[j].key == keys[j];
    }
  }

  /** The cutoff table has a row for every (branch, campus) pair that occurs. */
  lemma CutoffTableCover(df: seq<Record>, f: ScoreField)
    ensures var t := CutoffTable(df, f);
      forall j :: 0 <= j < |df| ==> exists i :: 0 <= i < |t| && t[i].key == KeyOf(df[j], ByBranchCampus)
  {
    var keys := GroupKeys(df, ByBranchCampus);
    var t := CutoffTable(df, f);
    forall j | 0 <= j < |df| ensures exists i :: 0 <= i < |t| && t[i].key == KeyOf(df[j], ByBranchCampus) {
      var i :| 0 <= i < |keys| && keys[i] == KeyOf(df[j], ByBranchCampus);
      assert t[i].key == keys[i];
    }
  }

  /** The cutoff table has no row for a (branch, campus) pair that does not occur. */
  lemma CutoffTableOccur(df: seq<Record>, f: ScoreField)
    ensures var t := CutoffTable(df, f);
      forall i :: 0 <= i < |t| ==> exists j :: 0 <= j < |df| && KeyOf(df[j], ByBranchCampus) == t[i].key
  {
    var keys := GroupKeys(df, ByBranchCampus);
    var t := CutoffTable(df, f);
    forall i | 0 <= i < |t| ensures exists j :: 0 <= j < |df| && KeyOf(df[j], ByBranchCampus) == t[i].key {
      assert t[i].key == keys[i] && keys[i] in keys;
    }
  }

  /**
   * The statistics of one group: at least one row, a minimum and a maximum
   * that are scores of rows of the group and bound every score of the
   * group, and a mean between them.
   */
  lemma CutoffStats(df: seq<Record>, f: ScoreField, k: Key)
    requires |Members(df, ByBranchCampus, k)| >= 1
    ensures var c := Cutoff(df, f, k);
      c.key == k && c.count >= 1 && c.min <= c.mean <= c.max
    ensures var c := Cutoff(df, f, k);
      exists r :: r in df && KeyOf(r, ByBranchCampus) == k && Score(r, f) == c.min
    ensures var c := Cutoff(df, f, k);
      exists r :: r in df && KeyOf(r, ByBranchCampus) == k && Score(r, f) == c.max
    ensures var c := Cutoff(df, f, k);
      forall r :: r in df && KeyOf(r, ByBranchCampus) == k ==> c.min <= Score(r, f) <= c.max
  {
    var rows := Members(df, ByBranchCampus, k);
    var s := GroupScores(df, f, ByBranchCampus, k);
    MeanBetweenLowestAndHighest(s);
    var lo :| 0 <= lo < |s| && s[lo] == Lowest(s);
    assert rows[lo] in rows;
    var hi :| 0 <= hi < |s| && s[hi] == Highest(s);
    assert rows[hi] in rows;
    forall r | r in df && KeyOf(r, ByBranchCampus) == k ensures Lowest(s) <= Score(r, f) <= Highest(s) {
      var m :| 0 <= m < |rows| && rows[m] == r;
      assert s[m] == Score(r, f);
    }
  }

  /** Every row of the cutoff table carries its group's statistics. */
  lemma CutoffTableStats(df: seq<Record>, f: ScoreField)
    ensures var t := CutoffTable(df, f);
      forall i :: 0 <= i < |t| ==> t[i].count >= 1 && t[i].min <= t[i].mean <= t[i].max
    ensures var t := CutoffTable(df, f);
      forall i :: 0 <= i < |t| ==> exists r :: r in df && KeyOf(r, ByBranchCampus) == t[i].key && Score(r, f) == t[i].min
    ensures var t := CutoffTable(df, f);
      forall i :: 0 <= i < |t| ==> exists r :: r in df && KeyOf(r, ByBranchCampus) == t[i].key && Score(r, f) == t[i].max
    ensures var t := CutoffTable(df, f);
      forall i, r :: 0 <= i < |t| && r in df && KeyOf(r, ByBranchCampus) == t[i].key ==> t[i].min <= Score(r, f) <= t[i].max
  {
    var keys := GroupKeys(df, ByBranchCampus);
    var t := CutoffTable(df, f);
    GroupKeysOccupied(df, ByBranchCampus);
    forall i | 0 <= i < |t|
      ensures t[i].count >= 1 && t[i].min <= t[i].mean <= t[i].max
      ensures exists r :: r in df && KeyOf(r, ByBranchCampus) == t[i].key && Score(r, f) == t[i].min
      ensures exists r :: r in df && KeyOf(r, ByBranchCampus) == t[i].key && Score(r, f) == t[i].max
      ensures forall r :: r in df && KeyOf(r, ByBranchCampus) == t[i].key ==> t[i].min <= Score(r, f) <= t[i].max
    {
      assert keys[i] in keys;
      assert t[i] == Cutoff(df, f, keys[i]);
      CutoffStats(df, f, keys[i]);
    }
  }

  lemma {:induction false} TotalCutoffCountIsSumSizes(df: seq<Record>, f: ScoreField, keys: seq<Key>)
    requires forall k :: k in keys ==> |Members(df, ByBranchCampus, k)| >= 1
    ensures TotalCutoffCount(seq(|keys|, i requires 0 <= i < |keys| => Cutoff(df, f, keys[i])))
         == SumSizes(df, ByBranchCampus, keys)
  {
    var rows := seq(|keys|, i requires 0 <= i < |keys| => Cutoff(df, f, keys[i]));
    if keys != [] {
      TotalCutoffCountIsSumSizes(df, f, keys[1..]);
      assert rows[1..] == seq(|keys[1..]|, i requires 0 <= i < |keys[1..]| => Cutoff(df, f, keys[1..][i]));
    }
  }

  /** The group counts of the cutoff table add up to the number of rows. */
  lemma CutoffTableTotal(df: seq<Record>, f: ScoreField)
    ensures TotalCutoffCount(CutoffTable(df, f)) == |df|
    ensures CutoffTable(df, f) == [] <==> df == []
  {
    var keys := GroupKeys(df, ByBranchCampus);
    GroupKeysOccupied(df, ByBranchCampus);
    AscendingIsDistinct(keys);
    SumSizesCoveringKeys(df, ByBranchCampus, keys);
    TotalCutoffCountIsSumSizes(df, f, keys);
    if df != [] {
      assert KeyOf(df[0], ByBranchCampus) in keys;
    }
  }

  // ---- the mean per branch (app.py:224-228) ----

  /** The mean table is in strictly ascending branch order. */
  lemma BranchMeansAscending(df: seq<Record>, f: ScoreField)
    ensures var t := BranchMeans(df, f);
      forall i, j :: 0 <= i < j < |t| ==> KeyLess(t[i].key, t[j].key)
  {
    var keys := GroupKeys(df, ByBranch);
    var t := BranchMeans(df, f);
    forall i, j | 0 <= i < j < |t| ensures KeyLess(t[i].key, t[j].key) {
      assert t[i].key == keys[i] && t[j].key == keys[j];
    }
  }

  /** The mean table has a row for every branch that occurs. */
  lemma BranchMeansCover(df: seq<Record>, f: ScoreField)
    ensures var t := BranchMeans(df, f);
      forall j :: 0 <= j < |df| ==> exists i :: 0 <= i < |t| && t[i].key == KeyOf(df[j], ByBranch)
  {
    var keys := GroupKeys(df, ByBranch);
    var t := BranchMeans(df, f);
    forall j | 0 <= j < |df| ensures exists i :: 0 <= i < |t| && t[i].key == KeyOf(df[j], ByBranch) {
      var i :| 0 <= i < |keys| && keys[i] == KeyOf(df[j], ByBranch);
      assert t[i].key == keys[i];
    }
  }

  /** The mean table has no row for a branch that does not occur. */
  lemma BranchMeansOccur(df: seq<Record>, f: ScoreField)
    ensures var t := BranchMeans(df, f);
      forall i :: 0 <= i < |t| ==> exists j :: 0 <= j < |df| && KeyOf(df[j], ByBranch) == t[i].key
  {
    var keys := GroupKeys(df, ByBranch);
    var t := BranchMeans(df, f);
    forall i | 0 <= i < |t| ensures exists j :: 0 <= j < |df| && KeyOf(df[j], ByBranch) == t[i].key {
      assert t[i].key == keys[i] && keys[i] in keys;
    }
  }

  /** Each branch mean lies between the lowest and the highest score of that branch. */
  lemma BranchMeansWithin(df: seq<Record>, f: ScoreField)
    ensures var t := BranchMeans(df, f);
      forall i :: 0 <= i < |t| ==>
        var s := GroupScores(df, f, ByBranch, t[i].key);
        |s| >= 1 && Lowest(s) <= t[i].mean <= Highest(s)
  {
    var keys := GroupKeys(df, ByBranch);
    var t := BranchMeans(df, f);
    GroupKeysOccupied(df, ByBranch);
    forall i | 0 <= i < |t|
      ensures var s := GroupScores(df, f, ByBranch, t[i].key); |s| >= 1 && Lowest(s) <= t[i].mean <= Highest(s)
    {
      assert t[i].key == keys[i] && keys[i] in keys;
      MeanBetweenLowestAndHighest(GroupScores(df, f, ByBranch, keys[i]));
    }
  }

  /**
   * When every score of a frame is positive, so is every minimum and mean
   * of its cutoff table.
   */
  lemma CutoffTablePositive(df: seq<Record>, f: ScoreField)
    requires forall r :: r in df ==> Score(r, f) > 0.0
    ensures forall c :: c in CutoffTable(df, f) ==> 0.0 < c.min <= c.mean
  {
    var t := CutoffTable(df, f);
    CutoffTableStats(df, f);
    forall c | c in t ensures 0.0 < c.min <= c.mean {
      var i :| 0 <= i < |t| && t[i] == c;
      var r :| r in df && KeyOf(r, ByBranchCampus) == t[i].key && Score(r, f) == t[i].min;
    }
  }

  /** When every score of a frame is positive, so is every branch mean. */
  lemma {:induction false} BranchMeansPositive(df: seq<Record>, f: ScoreField)
    requires forall r :: r in df ==> Score(r, f) > 0.0
    ensures forall m :: m in BranchMeans(df, f) ==> m.mean > 0.0
  {
    var u := BranchMeans(df, f);
    var keys := GroupKeys(df, ByBranch);
    GroupKeysOccupied(df, ByBranch);
    forall m | m in u ensures m.mean > 0.0 {
      var i :| 0 <= i < |u| && u[i] == m;
      assert keys[i] in keys;
      var s := GroupScores(df, f, ByBranch, keys[i]);
      assert m.mean == Mean(s);
      GroupScoresPositive(df, f, ByBranch, keys[i]);
      MeanBetweenLowestAndHighest(s);
      assert Lowest(s) in s;
    }
  }

  /** A group of a frame with only positive scores has only positive scores. */
  lemma {:induction false} GroupScoresPositive(df: seq<Record>, f: ScoreField, g: Grouping, k: Key)
    requires forall r :: r in df ==> Score(r, f) > 0.0
    ensures forall x :: x in GroupScores(df, f, g, k) ==> x > 0.0
  {
    var rows := Members(df, g, k);
    var s := GroupScores(df, f, g, k);
    forall x | x in s ensures x > 0.0 {
      var j :| 0 <= j < |s| && s[j] == x;
      assert rows[j] in rows;
      assert s[j] == Score(rows[j], f);
    }
  }

  // ---- a worked cutoff table ----

  const Pilani70 := Record(70.0, 0.0, 0.0, 0.0, "CS", "Pilani", [])
  const Goa60 := Record(60.0, 0.0, 0.0, 0.0, "CS", "Goa", [])
  const Pilani80 := Record(80.0, 0.0, 0.0, 0.0, "CS", "Pilani", [])
  const GoaKey: Key := ["CS", "Goa"]
  const PilaniKey: Key := ["CS", "Pilani"]

  lemma ExampleKeyOrder()
    ensures KeyLess(GoaKey, PilaniKey) && !KeyLess(PilaniKey, GoaKey) && GoaKey != PilaniKey
  {
    assert Text.StrLess("Goa", "Pilani");
    assert GoaKey[1..] == ["Goa"] && PilaniKey[1..] == ["Pilani"];
    assert GoaKey[1] != PilaniKey[1];
    KeyLessIrreflexive(GoaKey);
    if KeyLess(PilaniKey, GoaKey) {
      KeyLessTransitive(GoaKey, PilaniKey, GoaKey);
    }
  }

  lemma ExampleKeys()
    ensures GroupKeys([Pilani70, Goa60, Pilani80], ByBranchCampus) == [GoaKey, PilaniKey]
  {
    var df := [Pilani70, Goa60, Pilani80];
    ExampleKeyOrder();
    assert KeyOf(Pilani70, ByBranchCampus) == PilaniKey && KeyOf(Pilani80, ByBranchCampus) == PilaniKey;
    assert KeyOf(Goa60, ByBranchCampus) == GoaKey;
    assert df[..2] == [Pilani70, Goa60] && [Pilani70, Goa60][..1] == [Pilani70] && [Pilani70][..0] == [];
    assert GroupKeys([Pilani70], ByBranchCampus) == [PilaniKey];
    assert GroupKeys([Pilani70, Goa60], ByBranchCampus) == [GoaKey, PilaniKey];
    assert [GoaKey, PilaniKey][1..] == [PilaniKey];
    assert Insert([PilaniKey], PilaniKey) == [PilaniKey];
    assert Insert([GoaKey, PilaniKey], PilaniKey) == [GoaKey, PilaniKey];
  }

  lemma ExampleMembers()
    ensures Members([Pilani70, Goa60, Pilani80], ByBranchCampus, GoaKey) == [Goa60]
    ensures Members([Pilani70, Goa60, Pilani80], ByBranchCampus, PilaniKey) == [Pilani70, Pilani80]
  {
    var df := [Pilani70, Goa60, Pilani80];
    ExampleKeyOrder();
    assert KeyOf(Pilani70, ByBranchCampus) == PilaniKey && KeyOf(Pilani80, ByBranchCampus) == PilaniKey;
    assert KeyOf(Goa60, ByBranchCampus) == GoaKey;
    assert df[..2] == [Pilani70, Goa60] && [Pilani70, Goa60][..1] == [Pilani70] && [Pilani70][..0] == [];
    assert Members([Pilani70], ByBranchCampus, GoaKey) == [];
    assert Members([Pilani70, Goa60], ByBranchCampus, GoaKey) == [Goa60];
    assert Members([Pilani70], ByBranchCampus, PilaniKey) == [Pilani70];
    assert Members([Pilani70, Goa60], ByBranchCampus, PilaniKey) == [Pilani70];
  }

  /**
   * Two (branch, campus) groups, (CS, Pilani) with GATE scores 70 and 80
   * and (CS, Goa) with 60: the table lists Goa first, because the keys are
   * sorted.
   */
  lemma CutoffExample()
    ensures CutoffTable([Pilani70, Goa60, Pilani80], GateScore)
         == [CutoffRow(GoaKey, 60.0, 60.0, 60.0, 1), CutoffRow(PilaniKey, 70.0, 80.0, 75.0, 2)]
  {
    ExampleKeys();
    ExampleMembers();
    ExampleStatistics();
    ExampleScores();
  }

  lemma ExampleScores()
    ensures GroupScores([Pilani70, Goa60, Pilani80], GateScore, ByBranchCampus, GoaKey) == [60.0]
    ensures GroupScores([Pilani70, Goa60, Pilani80], GateScore, ByBranchCampus, PilaniKey) == [70.0, 80.0]
  {
    ExampleMembers();
  }

  lemma ExampleStatistics()
    ensures Lowest([60.0]) == 60.0 && Highest([60.0]) == 60.0 && Mean([60.0]) == 60.0
    ensures Lowest([70.0, 80.0]) == 70.0 && Highest([70.0, 80.0]) == 80.0 && Mean([70.0, 80.0]) == 75.0
  {
    var sp := [70.0, 80.0];
    assert sp[1..] == [80.0] && sp[1..][1..] == [];
    assert Sum([80.0]) == 80.0;
    assert Sum([60.0]) == 60.0;
    assert Sum(sp) == 150.0;
  }
}
