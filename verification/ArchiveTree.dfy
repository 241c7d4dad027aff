/**
 The tree that an overlay archive is extracted to
 (internal/app/wwctl/overlay/imprt/main.go): which archives are accepted, what each
 path holds afterwards, and that neither depends on the order of the entries.
 */
module ArchiveTree {
  import opened Text
  import opened ArtifactPaths
  import opened ArtifactImport

  // ----- One entry -----------------------------------------------------------

  /**
   An entry is accepted if and only if its name cleans to the manifest or to a path at or
   below rootfs, it is a directory, a file or a link that passes validation, everything
   above it that exists is a directory, and nothing is where it goes, except that a
   directory may be there already.
   */
  lemma AcceptedIff(tree: Tree, h: Header)
    ensures Verdict(tree, h) == Done <==>
            && CleanEntryName(h.name).Some?
            && var p := CleanEntryName(h.name).value;
               && (p == ["overlaydiff-manifest.json"] || p[0] == "rootfs")
               && (h.flag == TypeDir || h.flag == TypeReg || (h.flag == TypeSymlink && SafeLink(p, h.linkName)))
               && (forall k :: 0 < k < |p| && p[..k] in tree ==> tree[p[..k]] == Dir)
               && (p in tree ==> h.flag == TypeDir && tree[p] == Dir)
  {
    hide CleanEntryName, SafeLink;
    if CleanEntryName(h.name).Some? {
      CleanEntryShape(h.name);
      var p := Target(h);
      assert forall k :: 0 < k < |p| ==> Parent(p)[..k] == p[..k];
      assert p[..|p|] == p;
      if h.flag == TypeDir {
        assert DirFor(h) == p;
        if !Blocked(tree, p) && p in tree { assert p[..|p|] in tree; }
      } else {
        assert DirFor(h) == Parent(p);
      }
    }
  }

  /** What an entry puts at its path. */
  function NodeFor(h: Header): (n: Node)
    ensures h.flag == TypeDir ==> n == Dir
    ensures h.flag == TypeReg ==> n == File(h.content)
    ensures h.flag == TypeSymlink ==> n == Link(h.linkName)
  {
    match h.flag
    case TypeDir => Dir
    case TypeSymlink => Link(h.linkName)
    case _ => File(h.content)
  }

  lemma WithDirsAt(tree: Tree, dir: Path, p: Path)
    ensures var r := WithDirs(tree, dir, |dir|);
            && (p in r <==> p in tree || (p != [] && p <= dir))
            && (p in tree ==> r[p] == tree[p])
            && (p in r && p !in tree ==> r[p] == Dir)
  {
    if p != [] && p <= dir { assert p == dir[..|p|]; }
  }

  /** One accepted entry: its path and everything above it is there, and nothing else is new or changed. */
  lemma ExtractedAt(tree: Tree, h: Header, p: Path)
    requires Verdict(tree, h) == Done
    ensures CleanEntryName(h.name).Some?
    ensures var now, q := Extracted(tree, h), Target(h);
            && q != []
            && (p in now <==> p in tree || (p != [] && p <= q))
            && (p in tree ==> now[p] == tree[p])
            && (p == q ==> now[p] == NodeFor(h))
            && (p in now && p !in tree && p != q ==> now[p] == Dir)
  {
    AcceptedIff(tree, h);
    hide CleanEntryName, SafeLink, Verdict, WithDirs;
    CleanEntryShape(h.name);
    var q := Target(h);
    WithDirsAt(tree, DirFor(h), p);
    assert p <= q <==> p == q || p <= Parent(q) by { PrefixParent(p, q); }
  }

  lemma PrefixParent(p: Path, q: Path)
    requires q != []
    ensures p <= q <==> p == q || p <= Parent(q)
  {
    if p <= q && p != q { assert p == q[..|p|] && Parent(q)[..|p|] == q[..|p|]; }
    if p <= Parent(q) { assert q[..|p|] == Parent(q)[..|p|]; }
  }

  /** The paths of two entries do not exclude each other: no file or link is at or above the other. */
  ghost predicate Compatible(a: Header, b: Header)
    requires CleanEntryName(a.name).Some? && CleanEntryName(b.name).Some?
  {
    && (a.flag != TypeDir ==> !(Target(a) <= Target(b)))
    && (b.flag != TypeDir ==> !(Target(b) <= Target(a)))
  }

  lemma AcceptedTarget(tree: Tree, h: Header)
    requires Verdict(tree, h) == Done
    ensures CleanEntryName(h.name).Some?
  {
  }

  /** After one entry, another is accepted if and only if it was before and the two are compatible. */
  lemma AcceptedAfter(tree: Tree, h: Header, g: Header)
    requires Verdict(tree, h) == Done
    ensures CleanEntryName(h.name).Some?
    ensures Verdict(Extracted(tree, h), g) == Done <==>
            Verdict(tree, g) == Done && CleanEntryName(g.name).Some? && Compatible(h, g)
  {
    AcceptedTarget(tree, h);
    AcceptedIff(tree, h);
    AcceptedIff(tree, g);
    var now := Extracted(tree, h);
    AcceptedIff(now, g);
    hide CleanEntryName, SafeLink, Verdict, Extracted;
    if CleanEntryName(g.name).Some? {
      CleanEntryShape(g.name);
      var p, q := Target(h), Target(g);
      ExtractedAt(tree, h, q);
      ExtractedAt(tree, h, p);
      forall k | 0 < k < |q|
        ensures q[..k] in now <==> q[..k] in tree || q[..k] <= p
        ensures q[..k] in tree ==> now[q[..k]] == tree[q[..k]]
        ensures q[..k] == p ==> now[q[..k]] == NodeFor(h)
        ensures q[..k] in now && q[..k] !in tree && q[..k] != p ==> now[q[..k]] == Dir
      {
        ExtractedAt(tree, h, q[..k]);
      }
      if p <= q && p != q { assert q[..|p|] == p; }
      hide Target;
    }
  }

  /**
   A tree is sound if and only if every path in it consists of names, is the manifest or at
   or below rootfs, and lies in the staging root or in a directory of the tree, and every
   link in it passes validation. It grows into trees that hold all it holds.
   */
  lemma SoundMeans(tree: Tree, more: Tree)
    ensures Sound(tree) <==>
            forall p :: p in tree ==>
              && p != [] && (forall c :: c in p ==> c !in ["", ".", ".."])
              && (p == ["overlaydiff-manifest.json"] || p[0] == "rootfs")
              && (|p| > 1 ==> p[..|p| - 1] in tree && tree[p[..|p| - 1]] == Dir)
              && (tree[p].Link? ==> SafeLink(p, tree[p].target))
    ensures Grows(tree, more) <==> tree.Keys <= more.Keys && forall p :: p in tree ==> more[p] == tree[p]
  {
    hide SafeLink;
    forall p: Path ensures Names(p) <==> forall c :: c in p ==> c !in ["", ".", ".."] {
      if Names(p) {
        forall c | c in p ensures c !in ["", ".", ".."] {
          var i :| 0 <= i < |p| && p[i] == c;
        }
      } else {
        var i :| 0 <= i < |p| && !IsName(p[i]);
        assert p[i] in p && p[i] in ["", ".", ".."];
      }
    }
    forall p: Path | |p| == 1 ensures Parent(p) == [] { }
  }

  // ----- A whole archive -----------------------------------------------------

  /**
   An archive is extracted without error if and only if each entry would be accepted by
   itself, and no file or link has another entry at its own path or below it. The order
   of the entries plays no part.
   */
  lemma {:induction false} ExtractsIff(tree: Tree, headers: seq<Header>)
    ensures AllDone(tree, headers) <==>
            && (forall i :: 0 <= i < |headers| ==>
                  Verdict(tree, headers[i]) == Done && CleanEntryName(headers[i].name).Some?)
            && (forall i, j :: 0 <= i < |headers| && 0 <= j < |headers| && i != j && headers[i].flag != TypeDir ==>
                  !(CleanEntryName(headers[i].name).value <= CleanEntryName(headers[j].name).value))
    decreases |headers|
  {
    hide Verdict, Extracted, CleanEntryName;
    if headers != [] {
      var h, rest := headers[0], headers[1..];
      assert forall i :: 0 < i < |headers| ==> headers[i] == rest[i - 1];
      if Verdict(tree, h) == Done {
        var now := Extracted(tree, h);
        AcceptedTarget(tree, h);
        ExtractsIff(now, rest);
        forall i | 0 <= i < |rest|
          ensures Verdict(now, rest[i]) == Done <==>
                  Verdict(tree, rest[i]) == Done && CleanEntryName(rest[i].name).Some? && Compatible(h, rest[i])
        {
          AcceptedAfter(tree, h, rest[i]);
        }
        ExtractsCons(tree, now, headers);
      }
    }
  }

  lemma ExtractsCons(tree: Tree, now: Tree, headers: seq<Header>)
    requires headers != [] && CleanEntryName(headers[0].name).Some?
    requires forall i :: 0 < i < |headers| ==>
               (Verdict(now, headers[i]) == Done <==>
                  Verdict(tree, headers[i]) == Done && CleanEntryName(headers[i].name).Some? &&
                  Compatible(headers[0], headers[i]))
    ensures var rest := headers[1..];
            (&& (forall i :: 0 <= i < |rest| ==> Verdict(now, rest[i]) == Done && CleanEntryName(rest[i].name).Some?)
             && (forall i, j :: 0 <= i < |rest| && 0 <= j < |rest| && i != j && rest[i].flag != TypeDir ==>
                   !(CleanEntryName(rest[i].name).value <= CleanEntryName(rest[j].name).value))) <==>
            (&& (forall i :: 0 < i < |headers| ==>
                   Verdict(tree, headers[i]) == Done && CleanEntryName(headers[i].name).Some?)
             && (forall i, j :: 0 <= i < |headers| && 0 <= j < |headers| && i != j && headers[i].flag != TypeDir ==>
                   !(CleanEntryName(headers[i].name).value <= CleanEntryName(headers[j].name).value)))
  {
  }

  /**
   The tree of an extracted archive, path by path: what was there is unchanged; every
   entry is there with its own content, target or type; everything above an entry is
   there, as a directory unless it was there before; and there is nothing else.
   */
  lemma {:induction false} ExtractedAllAt(tree: Tree, headers: seq<Header>, p: Path)
    requires AllDone(tree, headers)
    ensures forall h :: h in headers ==> CleanEntryName(h.name).Some?
    ensures var final := ExtractedAll(tree, headers);
            && (p in final <==> p in tree || (p != [] && exists h :: h in headers && p <= CleanEntryName(h.name).value))
            && (p in tree ==> final[p] == tree[p])
            && (forall h :: h in headers && CleanEntryName(h.name).value == p ==> p in final && final[p] == NodeFor(h))
            && (p in final && p !in tree && (forall h :: h in headers ==> CleanEntryName(h.name).value != p) ==>
                  final[p] == Dir)
    decreases |headers|
  {
    hide Verdict, Extracted, CleanEntryName, NodeFor;
    if headers != [] {
      var h, rest := headers[0], headers[1..];
      var now := Extracted(tree, h);
      AcceptedTarget(tree, h);
      ExtractedAllAt(now, rest, p);
      ExtractedAt(tree, h, p);
      ExtractedAt(tree, h, Target(h));
      assert forall g :: g in headers <==> g == h || g in rest;
    }
  }

  // ----- The order of the entries --------------------------------------------

  lemma {:induction false} Twice<T(!new)>(s: seq<T>, i: nat, j: nat)
    requires i < j < |s| && s[i] == s[j]
    ensures multiset(s)[s[i]] >= 2
  {
    assert s == s[..j] + [s[j]] + s[j + 1..];
    assert s[..j][i] in multiset(s[..j]);
  }

  lemma {:induction false} TwoPlaces<T(!new)>(s: seq<T>, x: T) returns (i: nat, j: nat)
    requires multiset(s)[x] >= 2
    ensures i < j < |s| && s[i] == s[j] == x
  {
    j := |s| - 1;
    assert s == s[..j] + [s[j]];
    if s[j] == x {
      assert x in multiset(s[..j]);
      i :| 0 <= i < j && s[..j][i] == x;
    } else {
      i, j := TwoPlaces(s[..j], x);
    }
  }

  /** Two places of a list that hold these two elements, for another list with the same elements. */
  lemma SamePlaces<T(!new)>(a: seq<T>, b: seq<T>, i: nat, j: nat) returns (k: nat, l: nat)
    requires multiset(a) == multiset(b) && i < |a| && j < |a| && i != j
    ensures k < |b| && l < |b| && k != l && b[k] == a[i] && b[l] == a[j]
  {
    assert a[i] in multiset(a) && a[j] in multiset(a);
    assert a[i] in b && a[j] in b;
    if a[i] == a[j] {
      Twice(a, if i < j then i else j, if i < j then j else i);
      k, l := TwoPlaces(b, a[i]);
    } else {
      k :| 0 <= k < |b| && b[k] == a[i];
      l :| 0 <= l < |b| && b[l] == a[j];
    }
  }

  /** The entries of an archive may come in any order: it is accepted in all of them or in none, with the same tree. */
  lemma OrderFree(tree: Tree, a: seq<Header>, b: seq<Header>)
    requires multiset(a) == multiset(b) && AllDone(tree, a)
    ensures AllDone(tree, b) && ExtractedAll(tree, b) == ExtractedAll(tree, a)
  {
    hide AllDone, ExtractedAll, Verdict, CleanEntryName;
    ExtractsIff(tree, a);
    ExtractsIff(tree, b);
    forall h ensures h in a <==> h in b { assert h in multiset(a) <==> h in multiset(b); }
    forall i, j | 0 <= i < |b| && 0 <= j < |b| && i != j && b[i].flag != TypeDir
      ensures CleanEntryName(b[i].name).Some? && CleanEntryName(b[j].name).Some?
      ensures !(CleanEntryName(b[i].name).value <= CleanEntryName(b[j].name).value)
    {
      var k, l := SamePlaces(b, a, i, j);
    }
    forall i | 0 <= i < |b| ensures Verdict(tree, b[i]) == Done && CleanEntryName(b[i].name).Some? {
      assert b[i] in a;
      var k :| 0 <= k < |a| && a[k] == b[i];
    }
    assert AllDone(tree, b);
    var x, y := ExtractedAll(tree, a), ExtractedAll(tree, b);
    forall p ensures p in x <==> p in y
      ensures p in x ==> x[p] == y[p]
    {
      SameAt(tree, a, b, p);
    }
  }

  lemma SameAt(tree: Tree, a: seq<Header>, b: seq<Header>, p: Path)
    requires AllDone(tree, a) && AllDone(tree, b) && forall h :: h in a <==> h in b
    ensures p in ExtractedAll(tree, a) <==> p in ExtractedAll(tree, b)
    ensures p in ExtractedAll(tree, a) ==> ExtractedAll(tree, a)[p] == ExtractedAll(tree, b)[p]
  {
    hide AllDone, ExtractedAll, Verdict, CleanEntryName, NodeFor;
    ExtractedAllAt(tree, a, p);
    ExtractedAllAt(tree, b, p);
    if h :| h in a && CleanEntryName(h.name).value == p {
      assert h in b;
    }
  }
}
