/**
 * The pandas primitives the dashboard builds on, over a frame seen as the
 * sequence of its rows: boolean-mask indexing (`df[mask]`) and
 * `drop_duplicates()` with its default `keep="first"`.
 */
module Frames {

  /** `a` is `b` with some elements left out, the rest in their order. */
  ghost predicate IsSubsequence<T>(a: seq<T>, b: seq<T>)
    decreases |b|
  {
    if a == [] then true
    else if b == [] then false
    else ((a[|a| - 1] == b[|b| - 1] && IsSubsequence(a[..|a| - 1], b[..|b| - 1]))
          || IsSubsequence(a, b[..|b| - 1]))
  }

  ghost predicate NoDuplicates<T>(s: seq<T>) {
    forall i, j :: 0 <= i < j < |s| ==> s[i] != s[j]
  }

  lemma {:induction false} SubsequenceTransitive<T>(a: seq<T>, b: seq<T>, c: seq<T>)
    requires IsSubsequence(a, b) && IsSubsequence(b, c)
    ensures IsSubsequence(a, c)
    decreases |c|
  {
    if a != [] {
      assert b != [] && c != [];
      var b', c' := b[..|b| - 1], c[..|c| - 1];
      if IsSubsequence(b, c') {
        SubsequenceTransitive(a, b, c');
      } else {
        assert b[|b| - 1] == c[|c| - 1] && IsSubsequence(b', c');
        if a[|a| - 1] == b[|b| - 1] && IsSubsequence(a[..|a| - 1], b') {
          SubsequenceTransitive(a[..|a| - 1], b', c');
        } else {
          SubsequenceTransitive(a, b', c');
        }
      }
    }
  }

  /** `s[mask]`: the rows whose mask entry is true, in their order. */
  function Select<T>(s: seq<T>, mask: seq<bool>): (r: seq<T>)
    requires |mask| == |s|
    ensures |r| <= |s|
  {
    if s == [] then []
    else
      var n := |s| - 1;
      var init := Select(s[..n], mask[..n]);
      if mask[n] then init + [s[n]] else init
  }

  /** `x` is a row of `s` whose mask entry is true. */
  ghost predicate Masked<T>(s: seq<T>, mask: seq<bool>, x: T)
    requires |mask| == |s|
  {
    exists k :: 0 <= k < |s| && mask[k] && s[k] == x
  }

  /** Boolean indexing keeps every masked row and only masked rows. */
  lemma {:induction false} SelectSpec<T>(s: seq<T>, mask: seq<bool>)
    requires |mask| == |s|
    ensures forall k :: 0 <= k < |s| && mask[k] ==> s[k] in Select(s, mask)
    ensures forall i :: 0 <= i < |Select(s, mask)| ==> Masked(s, mask, Select(s, mask)[i])
  {
    if s != [] {
      var n := |s| - 1;
      var init := Select(s[..n], mask[..n]);
      SelectSpec(s[..n], mask[..n]);
      var r := Select(s, mask);
      assert init <= r;
      forall k | 0 <= k < |s| && mask[k] ensures s[k] in r {
        if k < n {
          assert s[..n][k] == s[k] && mask[..n][k];
          assert s[k] in init;
        }
      }
      forall i | 0 <= i < |r| ensures Masked(s, mask, r[i]) {
        if i < |init| {
          assert Masked(s[..n], mask[..n], init[i]);
          var k :| 0 <= k < n && mask[..n][k] && s[..n][k] == init[i];
          assert r[i] == init[i];
          assert mask[k] && s[k] == r[i];
        } else {
          assert mask[n] && r == init + [s[n]];
          assert r[i] == s[n];
        }
      }
    }
  }

  lemma {:induction false} SubsequenceReflexive<T>(a: seq<T>)
    ensures IsSubsequence(a, a)
  {
    if a != [] {
      SubsequenceReflexive(a[..|a| - 1]);
    }
  }

  /** Extending the longer sequence keeps a subsequence a subsequence. */
  lemma SubsequenceOfExtended<T>(a: seq<T>, b: seq<T>, x: T)
    requires IsSubsequence(a, b)
    ensures IsSubsequence(a, b + [x])
  {
    assert (b + [x])[..|b|] == b;
  }

  /** Two masks that never select the same position select no more rows than there are. */
  lemma {:induction false} SelectExclusiveLength<T>(s: seq<T>, m1: seq<bool>, m2: seq<bool>)
    requires |m1| == |s| && |m2| == |s|
    requires forall k :: 0 <= k < |s| ==> !(m1[k] && m2[k])
    ensures |Select(s, m1)| + |Select(s, m2)| <= |s|
  {
    if s != [] {
      var n := |s| - 1;
      SelectExclusiveLength(s[..n], m1[..n], m2[..n]);
    }
  }

  lemma {:induction false} SelectIsSubsequence<T>(s: seq<T>, mask: seq<bool>)
    requires |mask| == |s|
    ensures IsSubsequence(Select(s, mask), s)
  {
    if s != [] {
      var n := |s| - 1;
      SelectIsSubsequence(s[..n], mask[..n]);
      var r := Select(s, mask);
      if mask[n] {
        assert r[..|r| - 1] == Select(s[..n], mask[..n]);
      }
    }
  }

  /**
   * `drop_duplicates()`: each row is kept unless an equal row came before
   * it.
   */
  function DropDuplicates<T(==)>(s: seq<T>): (r: seq<T>)
    ensures |r| <= |s|
  {
    if s == [] then []
    else
      var n := |s| - 1;
      var init := DropDuplicates(s[..n]);
      if s[n] in s[..n] then init else init + [s[n]]
  }

  /** `drop_duplicates()` leaves no row twice, loses no distinct row and adds none. */
  lemma {:induction false} DropDuplicatesSpec<T>(s: seq<T>)
    ensures NoDuplicates(DropDuplicates(s))
    ensures forall k :: 0 <= k < |s| ==> s[k] in DropDuplicates(s)
    ensures forall i :: 0 <= i < |DropDuplicates(s)| ==> DropDuplicates(s)[i] in s
  {
    if s != [] {
      var n := |s| - 1;
      var init := DropDuplicates(s[..n]);
      DropDuplicatesSpec(s[..n]);
      var r := DropDuplicates(s);
      assert s == s[..n] + [s[n]];
      assert init <= r;
      forall k | 0 <= k < |s| ensures s[k] in r {
        if k < n {
          assert s[..n][k] == s[k];
        }
      }
      if s[n] !in s[..n] {
        forall i | 0 <= i < |init| ensures init[i] != s[n] {
          assert init[i] in s[..n];
        }
      }
    }
  }

  lemma {:induction false} DropDuplicatesIsSubsequence<T>(s: seq<T>)
    ensures IsSubsequence(DropDuplicates(s), s)
  {
    if s != [] {
      var n := |s| - 1;
      DropDuplicatesIsSubsequence(s[..n]);
      var r := DropDuplicates(s);
      if s[n] !in s[..n] {
        assert r[..|r| - 1] == DropDuplicates(s[..n]);
      }
    }
  }

  /** The mask of `~s.duplicated(keep="first")`: true at first occurrences. */
  function FirstOccurrences<T(==)>(s: seq<T>): (m: seq<bool>)
    ensures |m| == |s|
  {
    seq(|s|, k requires 0 <= k < |s| => s[k] !in s[..k])
  }

  /**
   * Keep-first semantics: dropping duplicates keeps exactly the rows that
   * occur for the first time, in their original order.
   */
  lemma {:induction false} DropDuplicatesKeepsFirst<T>(s: seq<T>)
    ensures DropDuplicates(s) == Select(s, FirstOccurrences(s))
  {
    if s != [] {
      var n := |s| - 1;
      DropDuplicatesKeepsFirst(s[..n]);
      assert FirstOccurrences(s)[..n] == FirstOccurrences(s[..n]) by {
        forall k | 0 <= k < n ensures FirstOccurrences(s)[k] == FirstOccurrences(s[..n])[k] {
          assert s[..n][..k] == s[..k];
        }
      }
    }
  }

  /** The rows kept from a prefix are a prefix of the rows kept from the whole. */
  lemma PrefixTransitive<T>(a: seq<T>, b: seq<T>, c: seq<T>)
    requires a <= b && b <= c
    ensures a <= c
  {
    assert a == b[..|a|] && b == c[..|b|];
    assert c[..|b|][..|a|] == c[..|a|];
  }

  lemma DropDuplicatesExtends<T>(s: seq<T>)
    requires s != []
    ensures DropDuplicates(s[..|s| - 1]) <= DropDuplicates(s)
  {
  }

  lemma {:induction false} DropDuplicatesOfPrefix<T>(s: seq<T>, k: nat)
    requires k <= |s|
    ensures DropDuplicates(s[..k]) <= DropDuplicates(s)
    decreases |s|
  {
    if k < |s| {
      var n := |s| - 1;
      var init := s[..n];
      assert init[..k] == s[..k];
      DropDuplicatesOfPrefix(init, k);
      DropDuplicatesExtends(s);
      PrefixTransitive(DropDuplicates(s[..k]), DropDuplicates(init), DropDuplicates(s));
    } else {
      assert s[..k] == s;
    }
  }
}
