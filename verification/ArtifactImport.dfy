/**
 Extraction of an overlay artifact (internal/app/wwctl/overlay/imprt/main.go): a
 staging tree that only grows, and the proof that following any extracted
 symlink, through any number of hops, never ends outside rootfs.
 */
module ArtifactImport {
  import opened Text
  import opened ArtifactPaths

  datatype Node = Dir | File(content: string) | Link(target: string)

  /** Everything below the staging root, which is the directory []. */
  type Tree = map<Path, Node>

  datatype TypeFlag = TypeDir | TypeReg | TypeSymlink | TypeLink | TypeOther

  datatype Header = Header(name: string, flag: TypeFlag, linkName: string, content: string)

  datatype Status = Done | BadName | OutsideLayout | NotADirectory | Exists | BadLink | Unsupported

  // ----- What extraction keeps -----------------------------------------------

  /** A path is the staging root or a real directory. */
  predicate IsDir(tree: Tree, p: Path) {
    p == [] || (p in tree && tree[p] == Dir)
  }

  /** Every entry sits in a real directory, in the layout, and every link passed the check. */
  ghost predicate Sound(tree: Tree) {
    forall p :: p in tree ==>
      && p != [] && Names(p) && InLayout(p) && IsDir(tree, Parent(p))
      && (tree[p].Link? ==> SafeLink(p, tree[p].target))
  }

  /** Entries are never removed or replaced. */
  predicate Grows(was: Tree, now: Tree) {
    forall p :: p in was ==> p in now && now[p] == was[p]
  }

  /** Some component of the directory path exists and is not a directory. */
  predicate Blocked(tree: Tree, dir: Path) {
    exists k :: 0 < k <= |dir| && dir[..k] in tree && tree[dir[..k]] != Dir
  }

  /** The tree with every missing directory on the way to `dir`. */
  function WithDirs(tree: Tree, dir: Path, upTo: nat): (r: Tree)
    requires upTo <= |dir|
    ensures Grows(tree, r)
  {
    map p | p in tree.Keys + (set k | 0 < k <= upTo :: dir[..k]) :: if p in tree then tree[p] else Dir
  }

  /** The effect of one entry, and whether it succeeds. */
  function Target(h: Header): Path
    requires CleanEntryName(h.name).Some?
  {
    CleanEntryName(h.name).value
  }

  function DirFor(h: Header): Path
    requires CleanEntryName(h.name).Some?
  {
    if h.flag == TypeDir then Target(h) else Parent(Target(h))
  }

  function Verdict(tree: Tree, h: Header): Status {
    if CleanEntryName(h.name).None? then BadName
    else if !InLayout(Target(h)) then OutsideLayout
    else if h.flag == TypeLink || h.flag == TypeOther then Unsupported
    else if h.flag == TypeSymlink && !SafeLink(Target(h), h.linkName) then BadLink
    else if Blocked(tree, DirFor(h)) then NotADirectory
    else if h.flag != TypeDir && Target(h) in tree then Exists
    else Done
  }

  function Extracted(tree: Tree, h: Header): Tree
    requires Verdict(tree, h) == Done
  {
    var dirs := WithDirs(tree, DirFor(h), |DirFor(h)|);
    match h.flag
    case TypeDir => dirs
    case TypeSymlink => dirs[Target(h) := Link(h.linkName)]
    case _ => dirs[Target(h) := File(h.content)]
  }

  lemma WithDirsSound(tree: Tree, dir: Path, upTo: nat)
    requires Sound(tree) && Names(dir) && upTo <= |dir| && !Blocked(tree, dir[..upTo])
    requires dir == [] || InLayout(dir)
    ensures Sound(WithDirs(tree, dir, upTo))
    ensures forall k :: 0 <= k <= upTo ==> IsDir(WithDirs(tree, dir, upTo), dir[..k])
  {
    var now := WithDirs(tree, dir, upTo);
    forall k | 0 <= k <= upTo ensures IsDir(now, dir[..k]) {
      if k > 0 {
        assert dir[..k] in now;
        assert dir[..upTo][..k] == dir[..k];
      }
    }
    forall p | p in now
      ensures p != [] && Names(p) && InLayout(p) && IsDir(now, Parent(p))
      ensures now[p].Link? ==> SafeLink(p, now[p].target)
    {
      if p !in tree {
        var k :| 0 < k <= upTo && p == dir[..k];
        assert Parent(p) == dir[..k - 1];
      }
    }
  }

  class Staging {
    var tree: Tree

    /** `os.MkdirTemp`: an empty staging directory. */
    constructor ()
      ensures tree == map[]
    {
      tree := map[];
    }

    /** `ensureImportDir`: refuse links and files on the way, create what is missing. */
    method EnsureImportDir(dir: Path) returns (ok: bool)
      modifies this
      ensures ok <==> !Blocked(old(tree), dir)
      ensures ok ==> tree == WithDirs(old(tree), dir, |dir|)
      ensures !ok ==> exists k :: 0 <= k < |dir| && !Blocked(old(tree), dir[..k]) && tree == WithDirs(old(tree), dir, k)
    {
      ghost var was := tree;
      assert tree == WithDirs(was, dir, 0);
      for i := 0 to |dir|
        invariant tree == WithDirs(was, dir, i) && !Blocked(was, dir[..i])
      {
        hide WithDirs, Blocked;
        var current := dir[..i + 1];
        DirStep(was, dir, i);
        if current in tree {
          if tree[current] != Dir {
            return false;
          }
          continue;
        }
        tree := tree[current := Dir];
      }
      assert dir[..|dir|] == dir;
      return true;
    }

    /** `extractArtifactEntry`. */
    method ExtractArtifactEntry(h: Header) returns (status: Status)
      requires Sound(tree)
      modifies this
      ensures status == Verdict(old(tree), h)
      ensures status == Done ==> tree == Extracted(old(tree), h)
      ensures Sound(tree) && Grows(old(tree), tree)
    {
      hide *;
      ghost var was := tree;
      GrowsSelf(was);
      var cleaned := CleanEntryName(h.name);
      if cleaned.None? {
        VerdictEarly(was, h);
        return BadName;
      }
      var name := cleaned.value;
      VerdictEarly(was, h);
      if name != [MANIFEST] && !InRootfs(name) {
        return OutsideLayout;
      }
      match h.flag {
        case TypeDir =>
          status := ExtractDir(h, name);
        case TypeReg =>
          status := ExtractBelow(h, name, File(h.content));
        case TypeSymlink =>
          var safe := ValidateArchiveSymlink(name, h.linkName);
          if !safe {
            return BadLink;
          }
          status := ExtractBelow(h, name, Link(h.linkName));
        case _ =>
          status := Unsupported;
      }
    }

    method ExtractDir(h: Header, name: Path) returns (status: Status)
      requires Sound(tree) && CleanEntryName(h.name) == Some(name) && InLayout(name) && h.flag == TypeDir
      modifies this
      ensures status == Verdict(old(tree), h)
      ensures status == Done ==> tree == Extracted(old(tree), h)
      ensures Sound(tree) && Grows(old(tree), tree)
    {
      hide Sound, Blocked, WithDirs, SafeLink, CleanEntryName;
      ghost var was := tree;
      CleanEntryShape(h.name);
      var ok := EnsureImportDir(name);
      DirsSound(was, name);
      status := if ok then Done else NotADirectory;
    }

    method ExtractBelow(h: Header, name: Path, node: Node) returns (status: Status)
      requires Sound(tree) && CleanEntryName(h.name) == Some(name) && InLayout(name)
      requires (h.flag == TypeReg && node == File(h.content)) ||
               (h.flag == TypeSymlink && node == Link(h.linkName) && name != [] && SafeLink(name, h.linkName))
      modifies this
      ensures status == Verdict(old(tree), h)
      ensures status == Done ==> tree == Extracted(old(tree), h)
      ensures status == Done ==> name !in old(tree) && name in tree && tree[name] == node
      ensures Sound(tree) && Grows(old(tree), tree)
    {
      hide Sound, Blocked, SafeLink, CleanEntryName;
      ghost var was := tree;
      CleanEntryShape(h.name);
      var ok := EnsureImportDir(Parent(name));
      ParentLayout(name);
      DirsSound(was, Parent(name));
      if !ok {
        return NotADirectory;
      }
      ParentsOnly(was, name);
      if name in tree {
        return Exists;
      }
      AddSound(tree, name, node);
      tree := tree[name := node];
      return Done;
    }

    /** `extractArtifactArchive`: entries in order, stopping at the first that fails. */
    method ExtractArtifactArchive(headers: seq<Header>) returns (status: Status)
      requires Sound(tree)
      modifies this
      ensures Sound(tree) && Grows(old(tree), tree)
      ensures status == Done <==> AllDone(old(tree), headers)
      ensures status == Done ==> tree == ExtractedAll(old(tree), headers)
    {
      hide *;
      ghost var was := tree;
      GrowsSelf(was);
      status := Done;
      AllDoneStart(was, headers);
      for i := 0 to |headers|
        invariant Sound(tree) && Grows(was, tree) && status == Done
        invariant AllDone(was, headers) <==> AllDone(tree, headers[i..])
        invariant AllDone(was, headers) ==> ExtractedAll(was, headers) == ExtractedAll(tree, headers[i..])
      {
        ghost var before := tree;
        AllDoneStep(tree, headers, i);
        status := ExtractArtifactEntry(headers[i]);
        GrowsTrans(was, before, tree);
        if status != Done {
          return;
        }
      }
      AllDoneEnd(tree, headers);
    }
  }

  ghost predicate AllDone(tree: Tree, headers: seq<Header>)
    decreases |headers|
  {
    headers == [] || (Verdict(tree, headers[0]) == Done && AllDone(Extracted(tree, headers[0]), headers[1..]))
  }

  ghost function ExtractedAll(tree: Tree, headers: seq<Header>): Tree
    requires AllDone(tree, headers)
    decreases |headers|
  {
    if headers == [] then tree else ExtractedAll(Extracted(tree, headers[0]), headers[1..])
  }

  lemma AllDoneStart(tree: Tree, headers: seq<Header>)
    ensures headers[0..] == headers
  {
  }

  lemma AllDoneStep(tree: Tree, headers: seq<Header>, i: nat)
    requires i < |headers|
    ensures AllDone(tree, headers[i..]) <==>
            Verdict(tree, headers[i]) == Done && AllDone(Extracted(tree, headers[i]), headers[i + 1..])
    ensures AllDone(tree, headers[i..]) ==>
              ExtractedAll(tree, headers[i..]) == ExtractedAll(Extracted(tree, headers[i]), headers[i + 1..])
  {
    hide Verdict, Extracted;
    assert headers[i..][1..] == headers[i + 1..];
  }

  lemma AllDoneEnd(tree: Tree, headers: seq<Header>)
    ensures AllDone(tree, headers[|headers|..]) && ExtractedAll(tree, headers[|headers|..]) == tree
  {
  }

  lemma GrowsSelf(tree: Tree)
    ensures Grows(tree, tree)
  {
  }

  lemma GrowsTrans(a: Tree, b: Tree, c: Tree)
    requires Grows(a, b) && Grows(b, c)
    ensures Grows(a, c)
  {
  }

  lemma CleanEntryShape(name: string)
    requires CleanEntryName(name).Some?
    ensures CleanEntryName(name).value != [] && Names(CleanEntryName(name).value)
  {
  }

  /** The checks made before anything is touched. */
  lemma VerdictEarly(tree: Tree, h: Header)
    ensures CleanEntryName(h.name).None? ==> Verdict(tree, h) == BadName
    ensures CleanEntryName(h.name).Some? ==>
              var name := CleanEntryName(h.name).value;
              && name != []
              && (InLayout(name) <==> name == [MANIFEST] || InRootfs(name))
              && (!InLayout(name) ==> Verdict(tree, h) == OutsideLayout)
              && (InLayout(name) && (h.flag == TypeLink || h.flag == TypeOther) ==> Verdict(tree, h) == Unsupported)
              && (InLayout(name) && h.flag == TypeSymlink && !SafeLink(name, h.linkName) ==>
                    Verdict(tree, h) == BadLink)
  {
    hide CleanEntryName, SafeLink, Blocked;
    if CleanEntryName(h.name).Some? { CleanEntryShape(h.name); }
  }

  lemma DirStep(was: Tree, dir: Path, i: nat)
    requires i < |dir| && !Blocked(was, dir[..i])
    ensures var now := WithDirs(was, dir, i);
            var current := dir[..i + 1];
            && (current in now && now[current] != Dir <==> Blocked(was, dir[..i + 1]))
            && (current in now && now[current] != Dir ==> Blocked(was, dir))
            && (current in now && now[current] == Dir ==> WithDirs(was, dir, i + 1) == now)
            && (current !in now ==> WithDirs(was, dir, i + 1) == now[current := Dir])
  {
    var now := WithDirs(was, dir, i);
    var current := dir[..i + 1];
    assert forall k :: 0 < k <= i ==> |dir[..k]| == k && dir[..i][..k] == dir[..k] && current[..k] == dir[..k];
    assert current[..i + 1] == current;
    assert current in now <==> current in was;
  }

  /** Whatever `EnsureImportDir` leaves behind is sound. */
  lemma DirsSound(was: Tree, dir: Path)
    requires Sound(was) && Names(dir) && (dir == [] || InLayout(dir))
    ensures forall k {:trigger WithDirs(was, dir, k)} :: 0 <= k <= |dir| && !Blocked(was, dir[..k]) ==>
              && Sound(WithDirs(was, dir, k)) && Grows(was, WithDirs(was, dir, k))
              && IsDir(WithDirs(was, dir, k), dir[..k])
    ensures dir[..|dir|] == dir
  {
    hide Sound, Blocked, WithDirs, SafeLink;
    forall k {:trigger WithDirs(was, dir, k)} | 0 <= k <= |dir| && !Blocked(was, dir[..k])
      ensures Sound(WithDirs(was, dir, k)) && IsDir(WithDirs(was, dir, k), dir[..k])
    {
      WithDirsSound(was, dir, k);
    }
  }

  lemma ParentLayout(name: Path)
    requires name != [] && Names(name) && InLayout(name)
    ensures Names(Parent(name)) && (Parent(name) == [] || InLayout(Parent(name)))
  {
  }

  /** Creating the parents of an entry does not create the entry. */
  lemma ParentsOnly(was: Tree, name: Path)
    requires name != []
    ensures name in WithDirs(was, Parent(name), |Parent(name)|) <==> name in was
  {
    var p := Parent(name);
    assert forall k :: 0 < k <= |p| ==> |p[..k]| < |name|;
  }

  lemma AddSound(tree: Tree, name: Path, node: Node)
    requires Sound(tree) && name != [] && Names(name) && InLayout(name) && name !in tree && IsDir(tree, Parent(name))
    requires node.Link? ==> SafeLink(name, node.target)
    ensures Sound(tree[name := node]) && Grows(tree, tree[name := node])
  {
    hide SafeLink;
  }

  // ----- Following links -----------------------------------------------------

  /** Path lookup in the kernel: where it stands, and the components still to follow. */
  datatype Walk = At(dir: Path, rest: seq<string>) | Reached(path: Path) | Escaped | Failed

  /** One step of path resolution; ".." leaves the real directory it stands in. */
  function Step(tree: Tree, w: Walk): Walk {
    if !w.At? then w
    else if w.rest == [] then Reached(w.dir)
    else
      var c, more := w.rest[0], w.rest[1..];
      if c == "" || c == "." then At(w.dir, more)
      else if c == ".." then if w.dir == [] then Escaped else At(Parent(w.dir), more)
      else
        var p := w.dir + [c];
        if p !in tree then Failed
        else match tree[p]
          case Dir => At(p, more)
          case File(_) => if more == [] then Reached(p) else Failed
          case Link(target) =>
            if HasPrefix(target, "/") then Escaped else At(w.dir, Split(target, '/') + more)
  }

  function Steps(tree: Tree, w: Walk, n: nat): Walk
    decreases n
  {
    if n == 0 then w else Step(tree, Steps(tree, w, n - 1))
  }

  /** A walk that cannot leave rootfs: read lexically, what is left ends inside it. */
  ghost predicate Contained(w: Walk) {
    match w
    case At(dir, rest) => Names(dir) && UpsLead(rest) && InRootfs(CleanFrom(dir, rest))
    case Reached(p) => InRootfs(p)
    case Escaped => false
    case Failed => true
  }

  lemma UpsLeadTail(rest: seq<string>)
    requires UpsLead(rest) && rest != []
    ensures UpsLead(rest[1..])
    ensures IsName(rest[0]) ==> NoUps(rest[1..])
  {
  }

  lemma UpsLeadAppend(a: seq<string>, b: seq<string>)
    requires UpsLead(a) && NoUps(b)
    ensures UpsLead(a + b)
  {
    forall i, j | 0 <= i < j < |a + b| && IsName((a + b)[i]) ensures (a + b)[j] != ".." {
      if j >= |a| { assert b[j - |a|] in b; }
    }
  }

  /** Entering a checked link keeps the walk contained. */
  lemma LinkContained(dir: Path, c: string, target: string, more: seq<string>)
    requires Names(dir) && IsName(c) && SafeLink(dir + [c], target) && NoUps(more)
    ensures Contained(At(dir, Split(target, '/') + more))
  {
    hide Split, Blank, CleanFrom;
    var parts := Split(target, '/');
    assert Parent(dir + [c]) == dir;
    CleanAppend([], dir, parts);
    CleanNames([], dir);
    assert [] + dir == dir;
    CleanAppend(dir, parts, more);
    CleanGrows(CleanFrom(dir, parts), more);
    UpsLeadAppend(parts, more);
  }

  lemma StepContained(tree: Tree, w: Walk)
    requires Sound(tree) && Contained(w)
    ensures Contained(Step(tree, w))
  {
    hide SafeLink, Split;
    if w.At? && w.rest != [] {
      var c, more := w.rest[0], w.rest[1..];
      UpsLeadTail(w.rest);
      if c == ".." {
        if w.dir == [] {
          assert w.dir + [c] == [".."];
          CleanKeepsUp([".."], more);
        } else {
          assert IsName(w.dir[|w.dir| - 1]);
        }
      } else if IsName(c) && w.dir + [c] in tree {
        var p := w.dir + [c];
        assert CleanFrom(w.dir, w.rest) == CleanFrom(p, more) && Names(p);
        if tree[p].Link? {
          LinkContained(w.dir, c, tree[p].target, more);
          LinkRelative(p, tree[p].target);
        }
      }
    }
  }

  lemma LinkRelative(p: Path, target: string)
    requires p != [] && SafeLink(p, target)
    ensures !HasPrefix(target, "/")
  {
  }

  lemma {:induction false} StepsContained(tree: Tree, w: Walk, n: nat)
    requires Sound(tree) && Contained(w)
    ensures Contained(Steps(tree, w, n))
  {
    hide Step, Contained, Sound;
    if n > 0 {
      StepsContained(tree, w, n - 1);
      StepContained(tree, Steps(tree, w, n - 1));
    }
  }

  lemma SoundLinkStays(tree: Tree, p: Path, n: nat)
    requires Sound(tree) && p in tree && tree[p].Link?
    ensures p != []
    ensures var w := Steps(tree, At(Parent(p), Split(tree[p].target, '/')), n);
            w != Escaped && (w.Reached? ==> InRootfs(w.path))
  {
    hide SafeLink, Split, CleanFrom, Steps;
    var dir, c, parts := Parent(p), p[|p| - 1], Split(tree[p].target, '/');
    assert p == dir + [c] && parts + [] == parts;
    assert IsName(c) && Names(dir);
    LinkContained(dir, c, tree[p].target, []);
    StepsContained(tree, At(dir, parts), n);
  }

  /**
   In every tree that extraction can produce, following any extracted symlink
   never leaves the staging root and never ends outside rootfs, however many
   links it passes through.
   */
  lemma LinksStayInRootfs(headers: seq<Header>, p: Path, n: nat)
    requires AllDone(map[], headers)
    requires var tree := ExtractedAll(map[], headers); p in tree && tree[p].Link?
    ensures p != []
    ensures var tree := ExtractedAll(map[], headers);
            var w := Steps(tree, At(Parent(p), Split(tree[p].target, '/')), n);
            w != Escaped && (w.Reached? ==> w.path != [] && w.path[0] == "rootfs")
  {
    hide Sound, AllDone, ExtractedAll, Steps, Split, Parent;
    EmptySound();
    ArchiveSound(map[], headers);
    SoundLinkStays(ExtractedAll(map[], headers), p, n);
  }

  lemma EmptySound()
    ensures Sound(map[])
  {
  }

  /** Looking up any path below rootfs that has no ".." stays inside as well. */
  lemma LookupsStayInRootfs(headers: seq<Header>, path: seq<string>, n: nat)
    requires AllDone(map[], headers) && NoUps(path)
    ensures var w := Steps(ExtractedAll(map[], headers), At([ROOTFS], path), n);
            w != Escaped && (w.Reached? ==> w.path != [] && w.path[0] == "rootfs")
  {
    ArchiveSound(map[], headers);
    hide AllDone, ExtractedAll;
    CleanGrows([ROOTFS], path);
    StepsContained(ExtractedAll(map[], headers), At([ROOTFS], path), n);
  }

  lemma ExtractedSound(tree: Tree, h: Header)
    requires Sound(tree) && Verdict(tree, h) == Done
    ensures Sound(Extracted(tree, h)) && Grows(tree, Extracted(tree, h))
  {
    hide Sound, Blocked, SafeLink, CleanEntryName;
    CleanEntryShape(h.name);
    var name := Target(h);
    if h.flag == TypeDir {
      DirsSound(tree, name);
    } else {
      ParentLayout(name);
      DirsSound(tree, Parent(name));
      ParentsOnly(tree, name);
      var node := if h.flag == TypeSymlink then Link(h.linkName) else File(h.content);
      AddSound(WithDirs(tree, Parent(name), |Parent(name)|), name, node);
    }
  }

  lemma {:induction false} ArchiveSound(tree: Tree, headers: seq<Header>)
    requires Sound(tree) && AllDone(tree, headers)
    ensures Sound(ExtractedAll(tree, headers)) && Grows(tree, ExtractedAll(tree, headers))
    decreases |headers|
  {
    hide Sound, Verdict, Extracted;
    if headers != [] {
      ExtractedSound(tree, headers[0]);
      ArchiveSound(Extracted(tree, headers[0]), headers[1..]);
    }
  }

  const R: Path := [ROOTFS]
  const A: Path := R + ["a"]
  const UP: Path := A + ["up"]

  /** rootfs/a/up -> .. */
  function ExampleTree(): Tree {
    map[R := Dir, A := Dir, UP := Link("..")]
  }

  lemma ExampleEntries()
    ensures var t := ExampleTree();
            && R in t && A in t && UP in t && t[R] == Dir && t[A] == Dir && t[UP] == Link("..")
            && forall p :: p in t <==> p == R || p == A || p == UP
    ensures Parent(R) == [] && Parent(A) == R && Parent(UP) == A
  {
    assert |R| == 1 && |A| == 2 && |UP| == 3;
  }

  lemma ExampleSound()
    ensures Sound(ExampleTree())
  {
    hide ExampleTree, CleanFrom;
    ExampleEntries();
    SplitNone("..", '/');
    CleanAppend([], A, [".."]);
    CleanNames([], A);
    assert [] + A == A;
    ExampleUp();
    assert SafeLink(UP, "..");
  }

  lemma ExampleUp()
    ensures CleanFrom(A, [".."]) == R && CleanFrom(UP, ["..", ".."]) == R
  {
    assert A[..1] == R && UP[..2] == A;
    assert ["..", ".."][1..] == [".."];
  }

  lemma ExampleWalk()
    ensures Steps(ExampleTree(), At(R, ["a", "up", "..", ".."]), 5) == Escaped
  {
    var tree := ExampleTree();
    var s0, s1 := At(R, ["a", "up", "..", ".."]), At(A, ["up", "..", ".."]);
    var s2, s3, s4 := At(A, ["..", "..", ".."]), At(R, ["..", ".."]), At([], [".."]);
    ExampleEntries();
    SplitNone("..", '/');
    assert s0.rest[1..] == s1.rest && s1.rest[1..] == s3.rest && s2.rest[1..] == s3.rest && s3.rest[1..] == s4.rest;
    assert [".."] + s3.rest == s2.rest;
    hide ExampleTree, Split;
    assert Step(tree, s0) == s1;
    assert Step(tree, s1) == s2;
    assert Step(tree, s2) == s3 && Step(tree, s3) == s4 && Step(tree, s4) == Escaped;
    hide Step;
    assert Steps(tree, s0, 2) == s2;
    assert Steps(tree, s0, 4) == s4;
  }

  // ----- The archive that builds it ------------------------------------------

  lemma StartsWith(p: seq<string>)
    requires p != [] && p[0] != ""
    ensures Join(p, "/") != "" && Join(p, "/")[0] == p[0][0]
  {
  }

  lemma NotBlank(s: string)
    requires s != "" && 'a' <= s[0] <= 'z'
    ensures !Blank(s) && !HasPrefix(s, "/")
  {
  }

  /** An entry name spelled out from plain names is accepted as it stands. */
  lemma EntryNamed(p: Path)
    requires Names(p) && p != [] && p[0] == ROOTFS && forall c :: c in p ==> '/' !in c
    ensures CleanEntryName(Join(p, "/")) == Some(p) && InLayout(p)
  {
    hide Join, Split, CleanFrom, Blank, HasPrefix, Names;
    StartsWith(p);
    NotBlank(Join(p, "/"));
    SplitJoin(p, '/');
    CleanNames([], p);
    assert [] + p == p;
  }

  /** rootfs/a, then rootfs/a/up -> .. */
  function ExampleArchive(): seq<Header> {
    [Header(Join(A, "/"), TypeDir, "", ""), Header(Join(UP, "/"), TypeSymlink, "..", "")]
  }

  lemma ExampleFirst()
    ensures var h := ExampleArchive()[0];
            Verdict(map[], h) == Done && Extracted(map[], h) == map[R := Dir, A := Dir]
  {
    hide Join, CleanFrom, Split, CleanEntryName;
    EntryNamed(A);
    assert A[..1] == R && A[..2] == A;
    var made := WithDirs(map[], A, 2);
    forall p ensures p in made <==> p == R || p == A {
      if p in made {
        var k :| 0 < k <= 2 && p == A[..k];
      }
    }
  }

  lemma ExampleSecond()
    ensures var h, tree := ExampleArchive()[1], map[R := Dir, A := Dir];
            Verdict(tree, h) == Done && Extracted(tree, h) == ExampleTree()
  {
    hide Join, CleanFrom, Split, CleanEntryName, SafeLink;
    var tree: Tree := map[R := Dir, A := Dir];
    EntryNamed(UP);
    ExampleLink();
    assert Parent(UP) == A && A[..1] == R && A[..2] == A && |UP| == 3;
    assert WithDirs(tree, A, 2) == tree;
  }

  lemma ExampleLink()
    ensures SafeLink(UP, "..")
  {
    ExampleSound();
    ExampleEntries();
    hide ExampleTree, SafeLink;
  }

  lemma ExampleExtracts()
    ensures AllDone(map[], ExampleArchive()) && ExtractedAll(map[], ExampleArchive()) == ExampleTree()
  {
    hide Verdict, Extracted, ExampleTree;
    ExampleFirst();
    ExampleSecond();
    var headers := ExampleArchive();
    AllDoneStep(map[], headers, 0);
    AllDoneStep(map[R := Dir, A := Dir], headers, 1);
    assert headers[0..] == headers && headers[2..] == [];
  }

  /**
   Why ".." may only lead: after some archive was extracted without error, a link whose
   target would pass every other test, and is inside rootfs when read lexically, leaves
   the staging root, because a component before its ".." is itself an extracted symlink.
   */
  lemma LateUpsEscape()
    ensures exists headers: seq<Header>, link: Path, target: string, n: nat ::
              AllDone(map[], headers) && OnlyLateUps(ExtractedAll(map[], headers), link, target, n)
  {
    hide AllDone, ExtractedAll, ExampleTree, ExampleArchive, OnlyLateUps;
    ExampleExtracts();
    ExampleEscapes();
    assert OnlyLateUps(ExtractedAll(map[], ExampleArchive()), R + ["x"], Join(LATE, "/"), 5);
  }

  /** A target that fails only the rule on late ".."s, and a lookup of it that escapes. */
  ghost predicate OnlyLateUps(tree: Tree, link: Path, target: string, n: nat) {
    && link != [] && Names(link) && link !in tree && IsDir(tree, Parent(link))
    && !Blank(target) && !HasPrefix(target, "/") && InRootfs(CleanFrom([], Parent(link) + Split(target, '/')))
    && Steps(tree, At(Parent(link), Split(target, '/')), n) == Escaped
  }

  const LATE: seq<string> := ["a", "up", "..", ".."]

  lemma LateInside()
    ensures InRootfs(CleanFrom([], R + LATE))
  {
    hide CleanFrom;
    assert R + LATE == UP + ["..", ".."];
    CleanAppend([], UP, ["..", ".."]);
    CleanNames([], UP);
    assert [] + UP == UP;
    ExampleUp();
  }

  lemma ExampleEscapes()
    ensures OnlyLateUps(ExampleTree(), R + ["x"], Join(LATE, "/"), 5)
  {
    hide CleanFrom, Steps, ExampleTree, Join, Split, Blank, HasPrefix;
    var link: Path, target := R + ["x"], Join(LATE, "/");
    assert |link| == 2 && link[1] == "x" && Parent(link) == R;
    ExampleEntries();
    ExampleWalk();
    LateInside();
    SplitJoin(LATE, '/');
    StartsWith(LATE);
    NotBlank(target);
  }
}
