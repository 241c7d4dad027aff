/**
 The include roots of a scan (internal/pkg/overlaydiff/diff.go): overlapping roots
 are dropped, so that every path below a given root lies below exactly one kept root.
 */
module ScanIncludes {
  import opened Text

  // ----- dedupeTopLevelIncludes ----------------------------------------------

  /** The prefix test of the scanner: strictly below. */
  predicate Below(path: string, root: string) {
    HasPrefix(path, root + "/")
  }

  lemma BelowTransitive(a: string, b: string, c: string)
    requires Below(a, b) && Below(b, c)
    ensures Below(a, c)
  {
  }

  /** Two roots above one path are comparable. */
  lemma BelowBoth(p: string, a: string, b: string)
    requires Below(p, a) && Below(p, b)
    ensures a == b || Below(a, b) || Below(b, a)
  {
    assert p[..|a|] == a && p[..|b|] == b;
    if |a| < |b| {
      assert b[..|a| + 1] == a + "/";
    } else if |b| < |a| {
      assert a[..|b| + 1] == b + "/";
    }
  }

  /** Shorter first, then in string order. */
  function ByLength(): (string, string) -> bool {
    (a: string, b: string) => |a| < |b| || (|a| == |b| && StringLe(a, b))
  }

  lemma LengthOrdering()
    ensures Ordering(ByLength())
  {
    StringOrdering();
    hide StringLe;
    forall a, b ensures ByLength()(a, b) || ByLength()(b, a) {
      assert ByString()(a, b) || ByString()(b, a);
    }
    forall a, b, c | ByLength()(a, b) && ByLength()(b, c) ensures ByLength()(a, c) {
      if |a| == |b| == |c| {
        assert ByString()(a, b) && ByString()(b, c);
        assert ByString()(a, c);
      }
    }
  }

  /** No kept root lies below another. */
  ghost predicate Antichain(roots: seq<string>) {
    Distinct(roots) && forall a, b :: a in roots && b in roots ==> !Below(a, b)
  }

  /** Every given root is kept or lies below a kept one. */
  ghost predicate Covers(kept: seq<string>, given: seq<string>) {
    forall x :: x in given ==> exists r :: r in kept && (x == r || Below(x, r))
  }

  method DedupeTopLevelIncludes(includes: seq<string>) returns (result: seq<string>)
    ensures Antichain(result) && Covers(result, includes)
    ensures forall r :: r in result ==> r in includes
    ensures forall i, j :: 0 <= i < j < |result| ==>
              |result[i]| < |result[j]| || (|result[i]| == |result[j]| && StringLe(result[i], result[j]))
  {
    if |includes| <= 1 {
      assert forall a: string :: !Below(a, a);
      return includes;
    }
    hide SortBy, Below, ByLength;
    var ordered := SortBy(ByLength(), includes);
    assert SortedBy(ByLength(), ordered) by {
      LengthOrdering();
      SortBySorted(ByLength(), includes);
    }
    result := [];
    for i := 0 to |ordered|
      invariant Antichain(result) && Covers(result, ordered[..i])
      invariant forall r :: r in result ==> r in ordered[..i]
      invariant SortedBy(ByLength(), result)
    {
      hide Antichain, Covers;
      var root := ordered[i];
      assert ordered[..i + 1] == ordered[..i] + [root];
      var skip := Skips(result, root);
      KeepStep(ordered, i, result);
      if !skip {
        SortedSnoc(ordered, i, result);
        result := result + [root];
      }
    }
    assert ordered[..|ordered|] == ordered;
    forall x ensures x in ordered <==> x in includes {
      SortByMembers(ByLength(), includes, x);
    }
    ByLengthSorted(result);
  }

  lemma SortedSnoc(ordered: seq<string>, i: nat, result: seq<string>)
    requires i < |ordered| && SortedBy(ByLength(), ordered)
    requires SortedBy(ByLength(), result) && forall r :: r in result ==> r in ordered[..i]
    ensures SortedBy(ByLength(), result + [ordered[i]])
  {
    hide ByLength;
    forall k | 0 <= k < |result| ensures ByLength()(result[k], ordered[i]) {
      assert result[k] in ordered[..i];
      var j :| 0 <= j < i && ordered[..i][j] == result[k];
    }
  }

  lemma ByLengthSorted(result: seq<string>)
    requires SortedBy(ByLength(), result)
    ensures forall i, j :: 0 <= i < j < |result| ==>
              |result[i]| < |result[j]| || (|result[i]| == |result[j]| && StringLe(result[i], result[j]))
  {
    forall i, j | 0 <= i < j < |result|
      ensures |result[i]| < |result[j]| || (|result[i]| == |result[j]| && StringLe(result[i], result[j]))
    {
      assert ByLength()(result[i], result[j]);
    }
  }

  /**
   The kept roots: none twice and none at or after a slash below another, and every given
   root is one of them or continues one after a slash.
   */
  lemma KeptMeans(kept: seq<string>, given: seq<string>)
    ensures Antichain(kept) && Covers(kept, given) <==>
            && (forall i, j :: 0 <= i < |kept| && 0 <= j < |kept| && i != j ==>
                                 kept[i] != kept[j] && !(kept[j] + "/" <= kept[i]))
            && (forall x :: x in given ==> exists r :: r in kept && (x == r || r + "/" <= x))
  {
    if forall i, j :: 0 <= i < |kept| && 0 <= j < |kept| && i != j ==>
                        kept[i] != kept[j] && !(kept[j] + "/" <= kept[i]) {
      forall a, b | a in kept && b in kept ensures !Below(a, b) {
        var i :| 0 <= i < |kept| && kept[i] == a;
        var j :| 0 <= j < |kept| && kept[j] == b;
      }
    }
    if Antichain(kept) {
      forall i, j | 0 <= i < |kept| && 0 <= j < |kept| && i != j
        ensures kept[i] != kept[j] && !(kept[j] + "/" <= kept[i])
      {
        assert kept[i] in kept && kept[j] in kept && !Below(kept[i], kept[j]);
      }
    }
    if Covers(kept, given) {
      forall x | x in given ensures exists r :: r in kept && (x == r || r + "/" <= x) {
        var r :| r in kept && (x == r || Below(x, r));
      }
    }
  }

  /** The inner loop: is the root covered by one that was kept? */
  method Skips(result: seq<string>, root: string) returns (skip: bool)
    ensures skip <==> exists r :: r in result && (root == r || Below(root, r))
  {
    hide Below;
    for i := 0 to |result|
      invariant forall k :: 0 <= k < i ==> !(root == result[k] || Below(root, result[k]))
    {
      if root == result[i] || Below(root, result[i]) {
        assert result[i] in result;
        return true;
      }
    }
    return false;
  }

  lemma KeepStep(ordered: seq<string>, i: nat, result: seq<string>)
    requires i < |ordered| && SortedBy(ByLength(), ordered)
    requires Antichain(result) && Covers(result, ordered[..i]) && forall r :: r in result ==> r in ordered[..i]
    ensures var x := ordered[i];
            if exists r :: r in result && (x == r || Below(x, r)) then Covers(result, ordered[..i] + [x])
            else Antichain(result + [x]) && Covers(result + [x], ordered[..i] + [x])
  {
    var x := ordered[i];
    forall r | r in result ensures |r| <= |x| {
      var j :| 0 <= j < i && ordered[..i][j] == r;
      assert ByLength()(ordered[j], ordered[i]);
    }
    assert forall r: string :: Below(r, x) ==> |r| > |x|;
    hide Below, ByLength;
    if !exists r :: r in result && (x == r || Below(x, r)) {
      DistinctSnoc(result, x);
      assert forall a :: a in result + [x] <==> a in result || a == x;
      forall y | y in ordered[..i] + [x] ensures exists r :: r in result + [x] && (y == r || Below(y, r)) {
        if y in ordered[..i] {
          var r :| r in result && (y == r || Below(y, r));
          assert r in result + [x];
        } else {
          assert x in result + [x];
        }
      }
    }
  }

  /** What lies below some given root lies below exactly one kept root. */
  lemma ExactlyOneRoot(kept: seq<string>, given: seq<string>, p: string)
    requires Antichain(kept) && Covers(kept, given)
    requires exists x :: x in given && Below(p, x)
    ensures exists r :: r in kept && Below(p, r) && forall s :: s in kept && Below(p, s) ==> s == r
  {
    hide Below;
    var x :| x in given && Below(p, x);
    var r :| r in kept && (x == r || Below(x, r));
    if x != r { BelowTransitive(p, x, r); }
    forall s | s in kept && Below(p, s) ensures s == r {
      BelowBoth(p, r, s);
    }
  }
}
