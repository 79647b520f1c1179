/**
 * The rows of the admissions table (`load_data` in app.py): the raw survey
 * cells as read from JSON, and the normalised record the dashboard works
 * on. Columns are typed fields; the verbose survey-question column names
 * and their renaming are not modelled.
 */
module Records {
  import opened Text
  import opened Scores

  /** One JSON cell: a value's `str()` text, or `null`. */
  datatype Cell = Str(text: string) | Null

  /** `astype(str)` on one cell; a missing value prints as "None". */
  function AsStr(c: Cell): string {
    match c
    case Str(t) => t
    case Null => "None"
  }

  /** One survey response as loaded; `other` holds the columns the core never reads. */
  datatype RawRecord = RawRecord(
    gate: Cell, hdCore: Cell, hdSs: Cell, branch: Cell, campus: Cell, other: seq<Cell>)

  /** One response after `load_data`: the five columns it rewrites plus "HD Score". */
  datatype Record = Record(
    gate: real, hdCore: real, hdSs: real, hdScore: real,
    branch: string, campus: string, other: seq<Cell>)

  /** The row-wise `max(axis=1)` of two score columns. */
  function Max(a: real, b: real): (m: real)
    ensures m >= a && m >= b && (m == a || m == b)
  {
    if a >= b then a else b
  }

  /** What `load_data` makes of one row. */
  function Normalize(raw: RawRecord): Record {
    var hdCore := CleanNumeric(AsStr(raw.hdCore));
    var hdSs := CleanNumeric(AsStr(raw.hdSs));
    Record(CleanNumeric(AsStr(raw.gate)), hdCore, hdSs, Max(hdCore, hdSs),
           Strip(AsStr(raw.branch)), Strip(AsStr(raw.campus)), raw.other)
  }

  /** The invariant every loaded row satisfies. */
  ghost predicate Normalized(r: Record) {
    && r.gate >= 0.0 && r.hdCore >= 0.0 && r.hdSs >= 0.0
    && r.hdScore >= r.hdCore && r.hdScore >= r.hdSs
    && (r.hdScore == r.hdCore || r.hdScore == r.hdSs)
    && Trimmed(r.branch) && Trimmed(r.campus)
    && Strip(r.branch) == r.branch && Strip(r.campus) == r.campus
  }

  /**
   * A normalised row has non-negative scores, an HD score that is the
   * larger of the two HD papers, and branch and campus with no whitespace
   * at either end, which stripping again leaves alone; a score cell with
   * no digit scores 0.
   */
  lemma NormalizeSpec(raw: RawRecord)
    ensures Normalized(Normalize(raw))
    ensures NoDigit(AsStr(raw.gate)) ==> Normalize(raw).gate == 0.0
    ensures NoDigit(AsStr(raw.hdCore)) && NoDigit(AsStr(raw.hdSs)) ==> Normalize(raw).hdScore == 0.0
    ensures Normalize(raw).other == raw.other
  {
    var r := Normalize(raw);
    var b, c := AsStr(raw.branch), AsStr(raw.campus);
    assert r.gate == CleanNumeric(AsStr(raw.gate));
    assert r.hdCore == CleanNumeric(AsStr(raw.hdCore)) && r.hdSs == CleanNumeric(AsStr(raw.hdSs));
    assert r.hdScore == Max(r.hdCore, r.hdSs);
    assert r.branch == Strip(b) && r.campus == Strip(c);
    StripIsTrimmed(b);
    StripIsTrimmed(c);
    StripIdempotent(b);
    StripIdempotent(c);
  }

  /** The two text columns `load_data` strips, in the order it visits them. */
  datatype TextColumn = BranchColumn | CampusColumn

  /** `df_[col].astype(str).str.strip()`, leaving every cell a trimmed string. */
  function StripColumn(col: seq<Cell>): (r: seq<Cell>)
    ensures |r| == |col|
    ensures forall k :: 0 <= k < |col| ==> r[k] == Str(Strip(AsStr(col[k])))
  {
    seq(|col|, k requires 0 <= k < |col| => Str(Strip(AsStr(col[k]))))
  }

  /**
   * One stripped cell is a string with no whitespace at either end, cut
   * out of the cell's text by removing only whitespace; a missing value
   * becomes the text "None".
   */
  lemma StripCellSpec(c: Cell)
    ensures Trimmed(Strip(AsStr(c))) && exists i :: CutAt(AsStr(c), i, Strip(AsStr(c)))
    ensures c.Null? ==> Strip(AsStr(c)) == "None"
  {
    StripSpec(AsStr(c));
    if c.Null? {
      StripNone();
    }
  }

  /** The text of a missing value survives stripping. */
  lemma StripNone()
    ensures Strip("None") == "None"
  {
    var none := "None";
    assert !IsSpace(none[0]) && !IsSpace(none[|none| - 1]);
    StripTrimmed(none);
  }

  /** `StripCellSpec` for every cell of a stripped column. */
  lemma StripColumnSpec(col: seq<Cell>)
    ensures forall k :: 0 <= k < |col| ==> StripColumn(col)[k].Str?
    ensures forall k :: 0 <= k < |col| ==>
      Trimmed(StripColumn(col)[k].text) && exists i :: CutAt(AsStr(col[k]), i, StripColumn(col)[k].text)
    ensures forall k :: 0 <= k < |col| && col[k].Null? ==> StripColumn(col)[k] == Str("None")
  {
    forall k | 0 <= k < |col|
      ensures Trimmed(StripColumn(col)[k].text) && exists i :: CutAt(AsStr(col[k]), i, StripColumn(col)[k].text)
      ensures col[k].Null? ==> StripColumn(col)[k] == Str("None")
    {
      StripCellSpec(col[k]);
    }
  }

  /**
   * `load_data`: the three score columns are cleaned one after another,
   * "HD Score" is derived from two of them, and a loop strips the branch
   * and campus columns in turn. The result has one normalised row per raw
   * row, in the same order.
   */
  method LoadData(raw: seq<RawRecord>) returns (df: seq<Record>)
    ensures |df| == |raw|
    ensures forall k :: 0 <= k < |raw| ==> df[k] == Normalize(raw[k])
  {
    var n := |raw|;
    var gate := seq(n, k requires 0 <= k < n => CleanNumeric(AsStr(raw[k].gate)));
    var hdCore := seq(n, k requires 0 <= k < n => CleanNumeric(AsStr(raw[k].hdCore)));
    var hdSs := seq(n, k requires 0 <= k < n => CleanNumeric(AsStr(raw[k].hdSs)));
    var hdScore := seq(n, k requires 0 <= k < n => Max(hdCore[k], hdSs[k]));
    var branch := seq(n, k requires 0 <= k < n => raw[k].branch);
    var campus := seq(n, k requires 0 <= k < n => raw[k].campus);
    var textColumns := [BranchColumn, CampusColumn];
    for c := 0 to |textColumns|
      invariant |branch| == n && |campus| == n
      invariant forall k :: 0 <= k < n ==>
        branch[k] == (if c > 0 then Str(Strip(AsStr(raw[k].branch))) else raw[k].branch)
      invariant forall k :: 0 <= k < n ==>
        campus[k] == (if c > 1 then Str(Strip(AsStr(raw[k].campus))) else raw[k].campus)
    {
      match textColumns[c]
      case BranchColumn => branch := StripColumn(branch);
      case CampusColumn => campus := StripColumn(campus);
    }
    df := seq(n, k requires 0 <= k < n =>
      Record(gate[k], hdCore[k], hdSs[k], hdScore[k], AsStr(branch[k]), AsStr(campus[k]), raw[k].other));
  }
}
