/**
 * The `groupby` keys of the dashboard's tables: the group-by columns of a
 * row as a sequence of strings, ordered as pandas orders tuple keys
 * (column by column, each in code-point order), and the sorted list of
 * distinct keys that `groupby` produces.
 */
module Groups {
  import opened Text
  import opened Records

  type Key = seq<string>

  /** The three group-by column lists that app.py uses. */
  datatype Grouping =
    | ByBranchCampus   // groupby(["ME Branch", "Campus"])
    | ByCampusBranch   // groupby(["Campus", "ME Branch"])
    | ByBranch         // groupby("ME Branch")
    | ByCampus         // the campus column alone, for the campus option list

  function KeyOf(r: Record, g: Grouping): (k: Key)
    ensures |k| == Width(g)
  {
    match g
    case ByBranchCampus => [r.branch, r.campus]
    case ByCampusBranch => [r.campus, r.branch]
    case ByBranch => [r.branch]
    case ByCampus => [r.campus]
  }

  function Width(g: Grouping): nat {
    if g == ByBranch || g == ByCampus then 1 else 2
  }

  /** Tuple order: the first column that differs decides. */
  predicate KeyLess(a: Key, b: Key) {
    if a == [] then b != []
    else if b == [] then false
    else if a[0] == b[0] then KeyLess(a[1..], b[1..])
    else StrLess(a[0], b[0])
  }

  lemma {:induction false} KeyLessIrreflexive(a: Key)
    ensures !KeyLess(a, a)
  {
    if a != [] { KeyLessIrreflexive(a[1..]); }
  }

  lemma {:induction false} KeyLessTotal(a: Key, b: Key)
    requires a != b
    ensures KeyLess(a, b) || KeyLess(b, a)
  {
    if a != [] && b != [] {
      if a[0] == b[0] {
        assert a == [a[0]] + a[1..] && b == [b[0]] + b[1..];
        KeyLessTotal(a[1..], b[1..]);
      } else {
        StrLessTotal(a[0], b[0]);
      }
    }
  }

  lemma {:induction false} KeyLessTransitive(a: Key, b: Key, c: Key)
    requires KeyLess(a, b) && KeyLess(b, c)
    ensures KeyLess(a, c)
  {
    assert a != [] ==> b != [] && c != [];
    if a != [] {
      if a[0] == b[0] && b[0] == c[0] {
        KeyLessTransitive(a[1..], b[1..], c[1..]);
      } else if a[0] != b[0] && b[0] != c[0] {
        StrLessTransitive(a[0], b[0], c[0]);
        if a[0] == c[0] { StrLessIrreflexive(a[0]); }
      }
    }
  }

  ghost predicate StrictlyAscending(keys: seq<Key>) {
    forall i, j :: 0 <= i < j < |keys| ==> KeyLess(keys[i], keys[j])
  }

  /** A strictly ascending list holds each key once. */
  lemma AscendingIsDistinct(keys: seq<Key>)
    requires StrictlyAscending(keys)
    ensures forall i, j :: 0 <= i < j < |keys| ==> keys[i] != keys[j]
  {
    forall i, j | 0 <= i < j < |keys| ensures keys[i] != keys[j] {
      KeyLessIrreflexive(keys[i]);
    }
  }

  /** A key below the head of a strictly ascending list is below all of it. */
  lemma BelowHead(k: Key, keys: seq<Key>)
    requires StrictlyAscending(keys) && keys != [] && KeyLess(k, keys[0])
    ensures forall j :: 0 <= j < |keys| ==> KeyLess(k, keys[j])
  {
    forall j | 0 < j < |keys| ensures KeyLess(k, keys[j]) {
      KeyLessTransitive(k, keys[0], keys[j]);
    }
  }

  /** Adds `k` to a strictly ascending list, keeping it strictly ascending. */
  function Insert(keys: seq<Key>, k: Key): (r: seq<Key>)
    requires StrictlyAscending(keys)
    ensures StrictlyAscending(r)
    ensures forall x :: x in r <==> x in keys || x == k
  {
    if keys == [] then [k]
    else if k == keys[0] then keys
    else if KeyLess(k, keys[0]) then
      BelowHead(k, keys);
      [k] + keys
    else
      KeyLessTotal(k, keys[0]);
      var rest := Insert(keys[1..], k);
      assert forall x :: x in keys[1..] ==> KeyLess(keys[0], x);
      [keys[0]] + rest
  }

  /** The sorted distinct keys of a frame's rows, as `groupby` lists them. */
  function GroupKeys(df: seq<Record>, g: Grouping): (keys: seq<Key>)
    ensures StrictlyAscending(keys)
    ensures forall i :: 0 <= i < |df| ==> KeyOf(df[i], g) in keys
    ensures forall k :: k in keys ==> exists i :: 0 <= i < |df| && KeyOf(df[i], g) == k
  {
    if df == [] then []
    else
      var n := |df| - 1;
      var init := GroupKeys(df[..n], g);
      assert forall i :: 0 <= i < n ==> df[..n][i] == df[i];
      Insert(init, KeyOf(df[n], g))
  }

  /** The rows of one group, in their order. */
  function Members(df: seq<Record>, g: Grouping, k: Key): (rows: seq<Record>)
    ensures |rows| <= |df|
    ensures forall r :: r in rows <==> r in df && KeyOf(r, g) == k
  {
    if df == [] then []
    else
      var n := |df| - 1;
      assert df == df[..n] + [df[n]];
      Members(df[..n], g, k) + (if KeyOf(df[n], g) == k then [df[n]] else [])
  }

  /** A group holds each row with its key as often as the frame does, and no other row. */
  lemma {:induction false} MembersCounts(df: seq<Record>, g: Grouping, k: Key)
    ensures forall r :: multiset(Members(df, g, k))[r] == if KeyOf(r, g) == k then multiset(df)[r] else 0
  {
    if df != [] {
      var n := |df| - 1;
      MembersCounts(df[..n], g, k);
      assert df == df[..n] + [df[n]];
      assert multiset(df) == multiset(df[..n]) + multiset{df[n]};
    }
  }

  /** Every listed key has at least one row. */
  lemma GroupKeysOccupied(df: seq<Record>, g: Grouping)
    ensures forall k :: k in GroupKeys(df, g) ==> |Members(df, g, k)| >= 1
  {
    forall k | k in GroupKeys(df, g) ensures |Members(df, g, k)| >= 1 {
      var i :| 0 <= i < |df| && KeyOf(df[i], g) == k;
      assert df[i] in Members(df, g, k);
    }
  }

  /**
   * The option lists of the sidebar, `sorted(df[col].dropna().unique())`:
   * the first column of the one-column keys.
   */
  function Heads(keys: seq<Key>): (r: seq<string>)
    requires forall k :: k in keys ==> |k| >= 1
    ensures |r| == |keys|
  {
    seq(|keys|, i requires 0 <= i < |keys| => keys[i][0])
  }

  function BranchOptions(df: seq<Record>): seq<string> {
    Heads(GroupKeys(df, ByBranch))
  }

  function CampusOptions(df: seq<Record>): seq<string> {
    Heads(GroupKeys(df, ByCampus))
  }

  /** On one-column keys the key order is the string order. */
  lemma SingletonKeyLess(a: string, b: string)
    requires KeyLess([a], [b])
    ensures StrLess(a, b)
  {
    assert [a][1..] == [] && [b][1..] == [];
  }

  /**
   * A one-column option list is sorted in code-point order, holds no
   * value twice, and holds exactly the values the column takes.
   */
  lemma {:induction false} OptionListSpec(df: seq<Record>, g: Grouping)
    requires Width(g) == 1
    ensures var opts := Heads(GroupKeys(df, g));
      forall i, j :: 0 <= i < j < |opts| ==> StrLess(opts[i], opts[j])
    ensures var opts := Heads(GroupKeys(df, g));
      forall i, j :: 0 <= i < j < |opts| ==> opts[i] != opts[j]
    ensures forall v :: v in Heads(GroupKeys(df, g)) <==> exists i :: 0 <= i < |df| && KeyOf(df[i], g) == [v]
  {
    var keys := GroupKeys(df, g);
    var opts := Heads(keys);
    forall i | 0 <= i < |keys| ensures keys[i] == [opts[i]] {
      assert keys[i] in keys;
    }
    forall i, j | 0 <= i < j < |opts| ensures StrLess(opts[i], opts[j]) {
      SingletonKeyLess(opts[i], opts[j]);
    }
    forall i, j | 0 <= i < j < |opts| ensures opts[i] != opts[j] {
      StrLessIrreflexive(opts[i]);
    }
    forall v ensures v in opts <==> exists i :: 0 <= i < |df| && KeyOf(df[i], g) == [v] {
      if v in opts {
        var i :| 0 <= i < |opts| && opts[i] == v;
        assert keys[i] in keys;
      }
      if exists i :: 0 <= i < |df| && KeyOf(df[i], g) == [v] {
        var i :| 0 <= i < |df| && KeyOf(df[i], g) == [v];
        var j :| 0 <= j < |keys| && keys[j] == [v];
        assert opts[j] == v;
      }
    }
  }

  /** `all_branches` (app.py:73): sorted, distinct, and exactly the branches that occur. */
  lemma BranchOptionsSpec(df: seq<Record>)
    ensures forall i, j :: 0 <= i < j < |BranchOptions(df)| ==> StrLess(BranchOptions(df)[i], BranchOptions(df)[j])
    ensures forall b :: b in BranchOptions(df) <==> exists r :: r in df && r.branch == b
  {
    OptionListSpec(df, ByBranch);
    var opts := BranchOptions(df);
    assert opts == Heads(GroupKeys(df, ByBranch));
    forall b | exists r :: r in df && r.branch == b ensures b in BranchOptions(df) {
      var r :| r in df && r.branch == b;
      var i :| 0 <= i < |df| && df[i] == r;
      assert KeyOf(df[i], ByBranch) == [b];
    }
  }

  /** `all_campuses` (app.py:74): sorted, distinct, and exactly the campuses that occur. */
  lemma CampusOptionsSpec(df: seq<Record>)
    ensures forall i, j :: 0 <= i < j < |CampusOptions(df)| ==> StrLess(CampusOptions(df)[i], CampusOptions(df)[j])
    ensures forall c :: c in CampusOptions(df) <==> exists r :: r in df && r.campus == c
  {
    OptionListSpec(df, ByCampus);
    var opts := CampusOptions(df);
    assert opts == Heads(GroupKeys(df, ByCampus));
    forall c | exists r :: r in df && r.campus == c ensures c in CampusOptions(df) {
      var r :| r in df && r.campus == c;
      var i :| 0 <= i < |df| && df[i] == r;
      assert KeyOf(df[i], ByCampus) == [c];
    }
  }
}
