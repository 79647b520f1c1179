/**
 * The data flow of the two admissions tabs and the raw-data view of
 * app.py: the GATE and HD subsets, each narrowed by the sidebar selection,
 * summarised by the tables of `Aggregates`; the raw-data view picks its
 * subset by the admission mode.
 */
module Dashboard {
  import opened Wrappers
  import opened Records
  import opened Frames
  import opened Modes
  import opened Filters
  import opened Groups
  import opened Aggregates

  /** The sidebar's admission-mode radio: "All", "GATE only", "BITS-HD Test only". */
  datatype AdmissionMode = AllModes | GateOnly | HdOnly

  /** `gated = apply_filters(gate_df)`. */
  function GateView(df: seq<Record>, sel: Selection): seq<Record> {
    Filtered(GateRows(df), sel)
  }

  /** `hdd = apply_filters(hd_df)`. */
  function HdView(df: seq<Record>, sel: Selection): seq<Record> {
    Filtered(HdRows(df), sel)
  }

  /** The frame the raw-data view shows for the selected mode. */
  function RawView(df: seq<Record>, mode: AdmissionMode, sel: Selection): seq<Record> {
    match mode
    case GateOnly => GateView(df, sel)
    case HdOnly => HdView(df, sel)
    case AllModes => Filtered(df, sel)
  }

  /** The tables one tab shows when its filtered frame is not empty. */
  datatype Tab = Tab(
    entries: seq<Record>,
    cutoffs: seq<CutoffRow>,
    branchMeans: seq<MeanRow>,
    campusCounts: seq<CountRow>,
    branchCounts: seq<CountRow>)

  function TabOf(rows: seq<Record>, f: ScoreField): Tab {
    Tab(rows, CutoffTable(rows, f), BranchMeans(rows, f),
        CountTable(rows, ByCampusBranch), CountTable(rows, ByBranch))
  }

  /**
   * One tab: filter the mode's subset; when nothing is left the tab shows
   * only a notice (`None`), otherwise its tables.
   */
  method ShowTab(subset: seq<Record>, sel: Selection, f: ScoreField) returns (tab: Option<Tab>)
    ensures tab == None <==> Filtered(subset, sel) == []
    ensures tab.Some? ==> tab.value == TabOf(Filtered(subset, sel), f)
    ensures tab.Some? ==> |tab.value.entries| == TotalCutoffCount(tab.value.cutoffs)
                                             == TotalCount(tab.value.campusCounts)
                                             == TotalCount(tab.value.branchCounts)
  {
    var rows := ApplyFilters(subset, sel);
    if rows == [] {
      tab := None;
    } else {
      CutoffTableTotal(rows, f);
      CountTableTotal(rows, ByCampusBranch);
      CountTableTotal(rows, ByBranch);
      tab := Some(TabOf(rows, f));
    }
  }

  /** No row is shown in both tabs. */
  lemma ViewsDisjoint(df: seq<Record>, sel: Selection)
    ensures forall r :: !(r in GateView(df, sel) && r in HdView(df, sel))
  {
    SplitModesSpec(df);
    FilteredSpec(GateRows(df), sel);
    FilteredSpec(HdRows(df), sel);
  }

  /**
   * Every row of the GATE tab has a positive GATE score, so every cutoff
   * minimum and every mean shown there is positive.
   */
  lemma GateTabPositive(df: seq<Record>, sel: Selection)
    ensures forall r :: r in GateView(df, sel) ==> r in df && Passes(sel, r) && r.gate > 0.0
    ensures forall c :: c in CutoffTable(GateView(df, sel), GateScore) ==> 0.0 < c.min <= c.mean
    ensures forall m :: m in BranchMeans(GateView(df, sel), GateScore) ==> m.mean > 0.0
  {
    SplitModesSpec(df);
    FilteredSpec(GateRows(df), sel);
    CutoffTablePositive(GateView(df, sel), GateScore);
    BranchMeansPositive(GateView(df, sel), GateScore);
  }

  /**
   * Every row of the HD tab has GATE score 0 and a positive HD score, so
   * every cutoff minimum and every mean shown there is positive.
   */
  lemma HdTabPositive(df: seq<Record>, sel: Selection)
    ensures forall r :: r in HdView(df, sel) ==> r in df && Passes(sel, r) && r.gate == 0.0 && r.hdScore > 0.0
    ensures forall c :: c in CutoffTable(HdView(df, sel), HdScore) ==> 0.0 < c.min <= c.mean
    ensures forall m :: m in BranchMeans(HdView(df, sel), HdScore) ==> m.mean > 0.0
  {
    SplitModesSpec(df);
    FilteredSpec(HdRows(df), sel);
    CutoffTablePositive(HdView(df, sel), HdScore);
    BranchMeansPositive(HdView(df, sel), HdScore);
  }

  /** The "GATE vs HD Share" figures never add up to more than the total record count. */
  lemma ShareWithinTotal(df: seq<Record>)
    ensures |GateRows(df)| + |HdRows(df)| <= |df|
  {
    var gm := seq(|df|, k requires 0 <= k < |df| => IsGateRow(df[k]));
    var hm := seq(|df|, k requires 0 <= k < |df| => IsHdRow(df[k]));
    SelectExclusiveLength(df, gm, hm);
  }

  /**
   * Whatever the mode, the raw-data view keeps the order of the filtered
   * frame and shows only rows of it.
   */
  lemma RawViewWithinFiltered(df: seq<Record>, mode: AdmissionMode, sel: Selection)
    ensures IsSubsequence(RawView(df, mode, sel), Filtered(df, sel))
    ensures forall r :: r in RawView(df, mode, sel) ==> r in df && Passes(sel, r)
  {
    FilteredSpec(df, sel);
    match mode
    case AllModes =>
      SubsequenceReflexive(Filtered(df, sel));
    case GateOnly =>
      SplitModesOrder(df);
      FilteredMonotone(GateRows(df), df, sel);
      SplitModesSpec(df);
      FilteredSpec(GateRows(df), sel);
    case HdOnly =>
      SplitModesOrder(df);
      FilteredMonotone(HdRows(df), df, sel);
      SplitModesSpec(df);
      FilteredSpec(HdRows(df), sel);
  }
}
