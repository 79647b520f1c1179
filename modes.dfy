/**
 * `split_modes` in app.py: the GATE admissions are the rows with a positive
 * GATE score, the HD-test admissions the rows with no GATE score and a
 * positive HD score; each subset has its duplicate rows dropped.
 */
module Modes {
  import opened Records
  import opened Frames

  predicate IsGateRow(r: Record) {
    r.gate > 0.0
  }

  predicate IsHdRow(r: Record) {
    r.gate == 0.0 && r.hdScore > 0.0
  }

  /** `df_[df_["GATE Score"] > 0].copy().drop_duplicates()`. */
  function GateRows(df: seq<Record>): seq<Record> {
    DropDuplicates(Select(df, seq(|df|, k requires 0 <= k < |df| => IsGateRow(df[k]))))
  }

  /** `df_[(df_["GATE Score"] == 0) & (df_["HD Score"] > 0)].copy().drop_duplicates()`. */
  function HdRows(df: seq<Record>): seq<Record> {
    DropDuplicates(Select(df, seq(|df|, k requires 0 <= k < |df| => IsHdRow(df[k]))))
  }

  function SplitModes(df: seq<Record>): (seq<Record>, seq<Record>) {
    (GateRows(df), HdRows(df))
  }

  /**
   * A row is in the GATE subset exactly when it is an input row with a
   * positive GATE score, and in the HD subset exactly when it is an input
   * row with GATE score 0 and a positive HD score. So no row is in both,
   * rows with both scores 0 are in neither, and neither subset repeats a
   * row.
   */
  lemma SplitModesSpec(df: seq<Record>)
    ensures forall r :: r in SplitModes(df).0 <==> r in df && r.gate > 0.0
    ensures forall r :: r in SplitModes(df).1 <==> r in df && r.gate == 0.0 && r.hdScore > 0.0
    ensures forall r :: !(r in SplitModes(df).0 && r in SplitModes(df).1)
    ensures forall r: Record :: r.gate == 0.0 && r.hdScore == 0.0 ==> r !in SplitModes(df).0 && r !in SplitModes(df).1
    ensures NoDuplicates(SplitModes(df).0) && NoDuplicates(SplitModes(df).1)
  {
    GateRowsMembers(df);
    HdRowsMembers(df);
    DropDuplicatesSpec(Select(df, seq(|df|, k requires 0 <= k < |df| => IsGateRow(df[k]))));
    DropDuplicatesSpec(Select(df, seq(|df|, k requires 0 <= k < |df| => IsHdRow(df[k]))));
  }

  lemma GateRowsMembers(df: seq<Record>)
    ensures forall r :: r in GateRows(df) <==> r in df && r.gate > 0.0
  {
    var gm := seq(|df|, k requires 0 <= k < |df| => IsGateRow(df[k]));
    var gs := Select(df, gm);
    SelectSpec(df, gm);
    DropDuplicatesSpec(gs);
    forall r ensures r in GateRows(df) <==> r in df && r.gate > 0.0 {
      if r in GateRows(df) {
        var i :| 0 <= i < |GateRows(df)| && GateRows(df)[i] == r;
        var j :| 0 <= j < |gs| && gs[j] == r;
        assert Masked(df, gm, gs[j]);
      }
      if r in df && r.gate > 0.0 {
        var k :| 0 <= k < |df| && df[k] == r;
        assert gm[k];
      }
    }
  }

  lemma HdRowsMembers(df: seq<Record>)
    ensures forall r :: r in HdRows(df) <==> r in df && r.gate == 0.0 && r.hdScore > 0.0
  {
    var hm := seq(|df|, k requires 0 <= k < |df| => IsHdRow(df[k]));
    var hs := Select(df, hm);
    SelectSpec(df, hm);
    DropDuplicatesSpec(hs);
    forall r ensures r in HdRows(df) <==> r in df && r.gate == 0.0 && r.hdScore > 0.0 {
      if r in HdRows(df) {
        var i :| 0 <= i < |HdRows(df)| && HdRows(df)[i] == r;
        var j :| 0 <= j < |hs| && hs[j] == r;
        assert Masked(df, hm, hs[j]);
      }
      if r in df && r.gate == 0.0 && r.hdScore > 0.0 {
        var k :| 0 <= k < |df| && df[k] == r;
        assert hm[k];
      }
    }
  }

  /**
   * Each subset keeps the input's order: it is a subsequence of the input,
   * and it is the selected rows with exactly their first occurrences kept.
   */
  lemma SplitModesOrder(df: seq<Record>)
    ensures IsSubsequence(SplitModes(df).0, df) && IsSubsequence(SplitModes(df).1, df)
    ensures var gs := Select(df, seq(|df|, k requires 0 <= k < |df| => IsGateRow(df[k])));
      SplitModes(df).0 == Select(gs, FirstOccurrences(gs))
    ensures var hs := Select(df, seq(|df|, k requires 0 <= k < |df| => IsHdRow(df[k])));
      SplitModes(df).1 == Select(hs, FirstOccurrences(hs))
  {
    var gm := seq(|df|, k requires 0 <= k < |df| => IsGateRow(df[k]));
    var hm := seq(|df|, k requires 0 <= k < |df| => IsHdRow(df[k]));
    var gs, hs := Select(df, gm), Select(df, hm);
    SelectIsSubsequence(df, gm);
    DropDuplicatesIsSubsequence(gs);
    SubsequenceTransitive(DropDuplicates(gs), gs, df);
    SelectIsSubsequence(df, hm);
    DropDuplicatesIsSubsequence(hs);
    SubsequenceTransitive(DropDuplicates(hs), hs, df);
    DropDuplicatesKeepsFirst(gs);
    DropDuplicatesKeepsFirst(hs);
  }
}
