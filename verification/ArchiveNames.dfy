/**
 The lexical checks of internal/app/wwctl/overlay/imprt/main.go against the path lookup
 of the kernel: where every name is a directory, a lookup arrives at the cleaned path,
 so an entry name or a link target is accepted by where it leads.
 */
module ArchiveNames {
  import opened Text
  import opened ArtifactPaths
  import opened ArtifactImport

  // ----- Cleaning a path is looking it up ------------------------------------

  ghost predicate AllDirs(tree: Tree) {
    forall p :: p in tree ==> tree[p] == Dir
  }

  /** A step of a lookup among directories does not change where the rest leads. */
  lemma StepCleans(tree: Tree, w: Walk, c: Path)
    requires AllDirs(tree) && w.At? && Names(w.dir) && c == CleanFrom(w.dir, w.rest)
    ensures var next := Step(tree, w);
            && (next.At? ==> Names(next.dir) && CleanFrom(next.dir, next.rest) == c)
            && (next.Reached? ==> next.path == c && Names(c))
            && (next == Escaped ==> c != [] && c[0] == "..")
  {
    CleanOne(w.dir, w.rest);
    if w.rest != [] && w.rest[0] == ".." && w.dir == [] {
      CleanKeepsUp([".."], w.rest[1..]);
    }
    hide CleanFrom;
    if w.rest != [] && w.rest[0] == ".." && w.dir != [] {
      assert IsName(w.dir[|w.dir| - 1]);
      hide IsName;
    }
  }

  lemma CleanOne(dir: Path, rest: seq<string>)
    requires Names(dir)
    ensures rest == [] ==> CleanFrom(dir, rest) == dir
    ensures rest != [] && rest[0] in ["", "."] ==> CleanFrom(dir, rest) == CleanFrom(dir, rest[1..])
    ensures rest != [] && rest[0] == ".." && dir != [] ==> CleanFrom(dir, rest) == CleanFrom(Parent(dir), rest[1..])
    ensures rest != [] && rest[0] == ".." && dir == [] ==> CleanFrom(dir, rest) == CleanFrom([".."], rest[1..])
    ensures rest != [] && IsName(rest[0]) ==> CleanFrom(dir, rest) == CleanFrom(dir + [rest[0]], rest[1..])
  {
    if dir != [] { assert IsName(dir[|dir| - 1]); } else { assert dir + [".."] == [".."]; }
  }

  lemma {:induction false} LookupCleans(tree: Tree, dir: Path, rest: seq<string>, n: nat)
    requires AllDirs(tree) && Names(dir)
    ensures var c, w := CleanFrom(dir, rest), Steps(tree, At(dir, rest), n);
            && (w.At? ==> Names(w.dir) && CleanFrom(w.dir, w.rest) == c)
            && (w.Reached? ==> w.path == c && Names(c))
            && (w == Escaped ==> c != [] && c[0] == "..")
  {
    hide CleanFrom, Names, Step;
    if n > 0 {
      LookupCleans(tree, dir, rest, n - 1);
      var w := Steps(tree, At(dir, rest), n - 1);
      if w.At? { StepCleans(tree, w, CleanFrom(dir, rest)); } else { StepStays(tree, w); }
    }
  }

  lemma StepStays(tree: Tree, w: Walk)
    requires !w.At?
    ensures Step(tree, w) == w
  {
  }

  lemma {:induction false} StepsFirst(tree: Tree, w: Walk, n: nat)
    ensures Steps(tree, w, n + 1) == Steps(tree, Step(tree, w), n)
  {
    hide Step;
    if n > 0 { StepsFirst(tree, w, n - 1); }
  }

  /** More directories do not change a lookup that has not failed. */
  lemma {:induction false} MoreDirs(tree: Tree, more: Tree, w: Walk, n: nat)
    requires AllDirs(tree) && AllDirs(more) && tree.Keys <= more.Keys && Steps(tree, w, n) != Failed
    ensures Steps(more, w, n) == Steps(tree, w, n)
  {
    if n > 0 {
      var before := Steps(tree, w, n - 1);
      if before == Failed { StepStays(tree, before); }
      MoreDirs(tree, more, w, n - 1);
      hide Steps;
      OneMoreDirs(tree, more, before);
    }
  }

  lemma OneMoreDirs(tree: Tree, more: Tree, w: Walk)
    requires AllDirs(tree) && AllDirs(more) && tree.Keys <= more.Keys && Step(tree, w) != Failed
    ensures Step(more, w) == Step(tree, w)
  {
  }

  /** Among enough directories every lookup arrives, at some directory or outside. */
  lemma {:induction false} Arrives(dir: Path, rest: seq<string>) returns (tree: Tree)
    ensures AllDirs(tree)
    ensures var w := Steps(tree, At(dir, rest), |rest| + 1); w.Reached? || w == Escaped
    decreases |rest|
  {
    hide Steps;
    if rest == [] {
      tree := map[];
      StepsFirst(tree, At(dir, rest), 0);
      NoSteps(tree, Step(tree, At(dir, rest)));
    } else {
      var c, more := rest[0], rest[1..];
      if c == ".." && dir == [] {
        tree := map[];
        StepsFirst(tree, At(dir, rest), |rest|);
        EscapedStays(tree, |rest|);
      } else {
        var next := if c == "" || c == "." then dir else if c == ".." then Parent(dir) else dir + [c];
        var below := Arrives(next, more);
        tree := below[next := Dir];
        MoreDirs(below, tree, At(next, more), |more| + 1);
        assert Step(tree, At(dir, rest)) == At(next, more);
        StepsFirst(tree, At(dir, rest), |rest|);
      }
    }
  }

  lemma NoSteps(tree: Tree, w: Walk)
    ensures Steps(tree, w, 0) == w
  {
  }

  lemma {:induction false} EscapedStays(tree: Tree, n: nat)
    ensures Steps(tree, Escaped, n) == Escaped
  {
    if n > 0 { EscapedStays(tree, n - 1); }
  }

  /** A path cleans to another if and only if looking it up among directories arrives there. */
  lemma CleanIsLookup(dir: Path, rest: seq<string>, p: Path)
    requires Names(dir) && (p == [] || p[0] != "..")
    ensures CleanFrom(dir, rest) == p <==>
            exists tree: Tree, n: nat ::
              (forall q :: q in tree ==> tree[q] == Dir) && Steps(tree, At(dir, rest), n) == Reached(p)
  {
    hide CleanFrom, Steps, Names;
    var tree := Arrives(dir, rest);
    LookupCleans(tree, dir, rest, |rest| + 1);
    var w := Steps(tree, At(dir, rest), |rest| + 1);
    if CleanFrom(dir, rest) == p {
      assert (forall q :: q in tree ==> tree[q] == Dir) && w == Reached(p);
    }
    if t: Tree, n: nat :| (forall q :: q in t ==> t[q] == Dir) && Steps(t, At(dir, rest), n) == Reached(p) {
      LookupCleans(t, dir, rest, n);
    }
  }

  // ----- What the checks accept ----------------------------------------------

  /**
   An entry name is accepted for a path if and only if it is not blank, does not start at
   the root, and looking it up from the staging root among directories arrives at that
   path, below the staging root.
   */
  lemma EntryNameIff(name: string, p: Path)
    ensures CleanEntryName(name) == Some(p) <==>
            && !Blank(name) && !("/" <= name) && p != []
            && exists tree: Tree, n: nat ::
                 && (forall q :: q in tree ==> tree[q] == Dir)
                 && Steps(tree, At([], Split(name, '/')), n) == Reached(p)
  {
    hide Steps, Split, Blank, CleanFrom, Names;
    var parts := Split(name, '/');
    assert Names([]) by { NoNames(); }
    CleanShape([], parts);
    if p == [] || p[0] != ".." {
      CleanIsLookup([], parts, p);
      assert CleanEntryName(name) == Some(p) <==>
             !Blank(name) && !("/" <= name) && p != [] && CleanFrom([], parts) == p;
      if CleanFrom([], parts) == p {
        var tree: Tree, n: nat :|
          (forall q :: q in tree ==> tree[q] == Dir) && Steps(tree, At([], parts), n) == Reached(p);
        assert Steps(tree, At([], Split(name, '/')), n) == Reached(p);
      }
    } else {
      forall tree: Tree, n: nat | forall q :: q in tree ==> tree[q] == Dir
        ensures Steps(tree, At([], parts), n) != Reached(p)
      {
        LookupCleans(tree, [], parts, n);
        NotUp(p);
      }
    }
  }

  lemma NoNames()
    ensures Names([])
  {
  }

  lemma NotUp(p: Path)
    requires p != [] && p[0] == ".."
    ensures !Names(p)
  {
  }

  /**
   A link target is accepted if and only if it is not blank, does not start at the root,
   has no ".." behind a name, and looking it up from the link's directory among
   directories arrives at or below rootfs.
   */
  lemma SafeLinkIff(dir: Path, name: string, target: string)
    requires Names(dir)
    ensures SafeLink(dir + [name], target) <==>
            && !Blank(target) && !("/" <= target)
            && (forall i, j :: 0 <= i < j < |Split(target, '/')| && Split(target, '/')[j] == ".." ==>
                                 Split(target, '/')[i] in ["", ".", ".."])
            && exists tree: Tree, n: nat ::
                 && (forall q :: q in tree ==> tree[q] == Dir)
                 && Steps(tree, At(dir, Split(target, '/')), n).Reached?
                 && ["rootfs"] <= Steps(tree, At(dir, Split(target, '/')), n).path
  {
    hide Steps, Split, Blank, CleanFrom;
    var parts := Split(target, '/');
    assert Parent(dir + [name]) == dir;
    CleanAppend([], dir, parts);
    CleanNames([], dir);
    assert [] + dir == dir;
    var c := CleanFrom(dir, parts);
    if c != [] && c[0] == "rootfs" {
      CleanIsLookup(dir, parts, c);
      var tree: Tree, n: nat :|
        (forall q :: q in tree ==> tree[q] == Dir) && Steps(tree, At(dir, parts), n) == Reached(c);
      assert Steps(tree, At(dir, parts), n).Reached? && ["rootfs"] <= Steps(tree, At(dir, parts), n).path;
    }
    if tree: Tree, n: nat :| && (forall q :: q in tree ==> tree[q] == Dir)
                             && Steps(tree, At(dir, parts), n).Reached?
                             && ["rootfs"] <= Steps(tree, At(dir, parts), n).path {
      LookupCleans(tree, dir, parts, n);
    }
  }

  /**
   Text starts with white space if and only if it starts with the UTF-8 bytes of one of
   the code points with the property White_Space.
   */
  lemma SpaceIff(s: string)
    ensures SpaceLength(s) == 1 <==> s != "" && (9 <= s[0] as int <= 13 || s[0] as int == 32)
    ensures SpaceLength(s) == 2 <==>
            && |s| >= 2 && 0xC0 <= s[0] as int <= 0xDF && 0x80 <= s[1] as int <= 0xBF
            && (s[0] as int - 0xC0) * 64 + (s[1] as int - 0x80) in {0x85, 0xA0}
    ensures SpaceLength(s) == 3 <==>
            && |s| >= 3 && 0xE0 <= s[0] as int <= 0xEF && 0x80 <= s[1] as int <= 0xBF && 0x80 <= s[2] as int <= 0xBF
            && var c := (s[0] as int - 0xE0) * 4096 + (s[1] as int - 0x80) * 64 + (s[2] as int - 0x80);
               c in {0x1680, 0x2028, 0x2029, 0x202F, 0x205F, 0x3000} || 0x2000 <= c <= 0x200A
    ensures SpaceLength(s) <= 3
  {
    if |s| >= 3 {
      assert s[..3] == [s[0], s[1], s[2]] && s[..2] == [s[0], s[1]];
    }
  }

  /** Text of ASCII bytes is blank if and only if it is all white space. */
  lemma {:induction false} BlankIff(s: string)
    requires forall c :: c in s ==> c as int < 0x80
    ensures Blank(s) <==> forall c :: c in s ==> c in "\t\n\U{0B}\U{0C}\r "
    decreases |s|
  {
    if s != "" {
      assert s[0] in s && s == [s[0]] + s[1..];
      assert forall c :: c in s[1..] ==> c in s;
      BlankIff(s[1..]);
      hide Blank;
      BlankStep(s);
    }
  }

  lemma BlankStep(s: string)
    requires s != "" && s[0] as int < 0x80
    ensures Blank(s) <==> s[0] in "\t\n\U{0B}\U{0C}\r " && Blank(s[1..])
  {
    assert |s| >= 3 ==> s[..3][0] == s[0] && s[..2][0] == s[0];
  }
}
