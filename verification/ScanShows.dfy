/**
 What a scan (internal/pkg/overlaydiff/diff.go) shows of the file system, path by path:
 names lead to an object, the excludes are prefixes of names, and the entry map of the
 whole scan holds exactly the objects that are there.
 */
module ScanShows {
  import opened Text
  import opened OverlayCompare
  import opened ScanIncludes
  import opened ScanWorkers
  import opened ScanWalk

  // ----- Names and paths -----------------------------------------------------

  /** The text of names is a slash before their joined text. */
  lemma {:induction false} TailIs(comps: seq<string>)
    requires comps != []
    ensures Tail(comps) == "/" + Join(comps, "/")
  {
    assert comps == [comps[0]] + comps[1..];
    if |comps| == 1 {
      JoinOne(comps[0], "/");
    } else {
      TailIs(comps[1..]);
      JoinCons(comps[0], comps[1..], "/");
    }
  }

  /** The first name leads to the child with that name, the others on inside it, and only in a directory. */
  lemma AtChild(children: seq<Child>, i: nat, rest: seq<string>, item: Item)
    requires GoodTree(children) && i < |children|
    ensures At(children, [children[i].name] + rest) == Some(item) <==>
            if rest == [] then children[i].item == item
            else children[i].item.Dir? && At(children[i].item.children, rest) == Some(item)
  {
    FindIff(children, children[i].name);
    var comps := [children[i].name] + rest;
    assert comps[1..] == rest;
    assert At(children, comps) == Inside(children[i].item, comps[1..]);
  }

  /** Names that no child begins lead nowhere. */
  lemma AtNoChild(children: seq<Child>, comps: seq<string>)
    requires GoodTree(children) && comps != []
    requires forall i :: 0 <= i < |children| ==> children[i].name != comps[0]
    ensures At(children, comps) == None
  {
    NotFound(children, comps[0]);
  }

  lemma {:induction false} NotFound(children: seq<Child>, name: string)
    requires forall i :: 0 <= i < |children| ==> children[i].name != name
    ensures Find(children, name) == None
  {
    if children != [] { NotFound(children[..|children| - 1], name); }
  }

  lemma {:induction false} FindIff(children: seq<Child>, name: string)
    requires GoodTree(children)
    ensures forall i :: 0 <= i < |children| && children[i].name == name ==>
                          Find(children, name) == Some(children[i].item)
  {
    if children != [] {
      FindIff(children[..|children| - 1], name);
    }
  }

  /**
   A path is excluded if and only if one of its names is "cache" or ".cache", or it is
   an exclude or continues one after a slash.
   */
  lemma ExcludedIff(comps: seq<string>, excludes: seq<string>)
    requires comps != [] && forall c :: c in comps ==> '/' !in c
    ensures ShouldExclude("/" + Join(comps, "/"), excludes) <==>
            || "cache" in comps || ".cache" in comps
            || exists e :: e in excludes && (e == "/" + Join(comps, "/") || e + "/" <= "/" + Join(comps, "/"))
  {
    var path := "/" + Join(comps, "/");
    SplitJoin(comps, '/');
    SplitCons("", Join(comps, "/"), '/');
    assert [] + ['/'] + Join(comps, "/") == path;
    assert forall s :: s in Split(path, '/') <==> s == "" || s in comps;
  }

  /** An exclude of names excludes the paths that begin with these names. */
  lemma ExcludesNames(comps: seq<string>, ex: seq<string>)
    requires comps != [] && GoodNames(comps) && ex != [] && GoodNames(ex)
    ensures ShouldExclude("/" + Join(comps, "/"), ["/" + Join(ex, "/")]) <==>
            "cache" in comps || ".cache" in comps || ex <= comps
  {
    forall c | c in comps ensures '/' !in c { assert GoodName(c); }
    ExcludedIff(comps, ["/" + Join(ex, "/")]);
    TailIs(comps);
    TailIs(ex);
    TailPrefix(ex, comps);
    assert "/" + Join(ex, "/") in ["/" + Join(ex, "/")];
  }

  lemma {:induction false} TailAppend(a: seq<string>, b: seq<string>)
    ensures Tail(a + b) == Tail(a) + Tail(b)
    decreases |a|
  {
    if a == [] {
      assert a + b == b;
    } else {
      assert (a + b)[0] == a[0] && (a + b)[1..] == a[1..] + b;
      TailAppend(a[1..], b);
    }
  }

  lemma TailPrefix(ex: seq<string>, comps: seq<string>)
    requires GoodNames(ex) && GoodNames(comps) && ex != []
    ensures Tail(ex) == Tail(comps) || Tail(ex) + "/" <= Tail(comps) <==> ex <= comps
  {
    hide Tail, GoodName;
    if Tail(ex) == Tail(comps) { TailInjective(ex, comps); }
    if Tail(ex) + "/" <= Tail(comps) { PrefixNames(ex, comps, Tail(comps)[|Tail(ex)| + 1..]); }
    if ex <= comps {
      var rest := comps[|ex|..];
      assert comps == ex + rest;
      TailAppend(ex, rest);
      TailStarts(rest);
      if Tail(rest) == "" { assert Tail(ex) + Tail(rest) == Tail(ex); }
      else { assert (Tail(ex) + Tail(rest))[|Tail(ex)|] == '/'; }
    }
  }

  lemma TailStarts(comps: seq<string>)
    ensures Tail(comps) == "" || Tail(comps)[0] == '/'
  {
  }

  lemma {:induction false} PrefixNames(ex: seq<string>, comps: seq<string>, more: string)
    requires GoodNames(ex) && GoodNames(comps) && Tail(comps) == Tail(ex) + "/" + more
    ensures ex <= comps
    decreases |ex|
  {
    if ex != [] && comps != [] {
      var a, b, x, y := ex[0], comps[0], Tail(ex[1..]), Tail(comps[1..]);
      assert a in ex && b in comps && ex == [a] + ex[1..] && comps == [b] + comps[1..];
      assert Tail(comps)[1..] == a + (x + "/" + more) == b + y;
      NameEnds(a, b, x + "/" + more, y);
      PrefixNames(ex[1..], comps[1..], more);
    }
  }

  // ----- The entry map of a scan ---------------------------------------------

  /** The object is shown at this path with this entry once its file, if it is one, is hashed. */
  ghost predicate Object(options: Options, hasher: Hasher, key: string, item: Option<Item>, e: Entry) {
    && !ShouldExclude(key, options.excludes) && item.Some?
    && match item.value
       case Gone => false
       case Symlink(mode, target) => target.Some? && e == Entry(EntrySymlink, mode, 0, 0, 0, 0, "", target.value)
       case Dir(mode, _) => e == Entry(EntryDir, mode, 0, 0, 0, 0, "", "")
       case File(info) =>
         hasher(key) == Some(e.hash) &&
         e == Entry(EntryFile, info.mode, info.size, info.mtime, info.inode, info.device, e.hash, "")
  }

  lemma SeesObject(options: Options, hasher: Hasher, local: Local, key: string, item: Option<Item>, e: Entry)
    requires Sees(Uncached(options), local, key, item)
    ensures HashedAt(hasher, local.entries, key, key in local.jobs) == Some(e) <==>
            Object(options, hasher, key, item, e)
  {
    hide ShouldExclude;
    if item.Some? && item.value.File? { assert Reuses(Uncached(options), key, Stat(item.value.info)) == false; }
  }

  /** Names below this root lead to an object that is shown at this path. */
  ghost predicate ObjectBelow(options: Options, hasher: Hasher, tree: Tree, r: string, comps: seq<string>, key: string,
                              e: Entry) {
    && tree(r).Some? && comps != [] && GoodNames(comps) && key == Base(r) + Tail(comps)
    && Object(options, hasher, key, At(tree(r).value, comps), e)
  }

  lemma WalkObject(options: Options, hasher: Hasher, tree: Tree, r: string, key: string, e: Entry)
    requires tree(r).Some? && GoodTree(tree(r).value)
    ensures var one := WalkAll(Uncached(options), Base(r), tree(r).value);
            HashedAt(hasher, one.entries, key, key in one.jobs) == Some(e) <==>
            exists comps :: ObjectBelow(options, hasher, tree, r, comps, key, e)
  {
    hide GoodTree, WalkAll, At, GoodNames, Tail, Sees, Object, Base;
    var one := WalkAll(Uncached(options), Base(r), tree(r).value);
    forall comps | comps != [] && GoodNames(comps) && key == Base(r) + Tail(comps)
      ensures HashedAt(hasher, one.entries, key, key in one.jobs) == Some(e) <==>
              Object(options, hasher, key, At(tree(r).value, comps), e)
    {
      WalkAllAt(Uncached(options), Base(r), tree(r).value, comps);
      SeesObject(options, hasher, one, key, At(tree(r).value, comps), e);
    }
    if HashedAt(hasher, one.entries, key, key in one.jobs) == Some(e) {
      var comps := WalkAllKey(Uncached(options), Base(r), tree(r).value, key);
      assert ObjectBelow(options, hasher, tree, r, comps, key, e);
    }
  }

  lemma ScanResult(options: Options, hasher: Hasher, tree: Tree, roots: seq<string>, key: string, e: Entry)
    requires Disjoint(roots) && GoodRoots(tree, roots)
    ensures Get(SequentialResult(WalkScanner(Uncached(options), tree), hasher, roots), key) == Some(e) <==>
            exists r, comps :: r in roots && ObjectBelow(options, hasher, tree, r, comps, key, e)
  {
    var scanner := WalkScanner(Uncached(options), tree);
    WalkerWalksBelow(Uncached(options), tree, roots);
    forall r | r in roots && tree(r).Some?
      ensures GoodTree(tree(r).value)
      ensures scanner(r) == Some(WalkAll(Uncached(options), Base(r), tree(r).value))
    {
    }
    assert forall r :: scanner(r).Some? <==> tree(r).Some?;
    hide Disjoint, WalksBelow, GoodRoots, GoodTree, SequentialResult, SequentialScan, HashedAt, WalkScanner, WalkAll,
         ObjectBelow, Base;
    ResultAt(scanner, hasher, roots, key);
    if i :| 0 <= i < |roots| && FoundBy(scanner, roots[i], key) {
      ScannedAt(scanner, hasher, roots, i, key);
      WalkObject(options, hasher, tree, roots[i], key, e);
      forall r, comps | r in roots && ObjectBelow(options, hasher, tree, r, comps, key, e) ensures r == roots[i] {
        BelowFound(options, hasher, tree, roots, r, comps, key, e);
        var j :| 0 <= j < |roots| && roots[j] == r;
        OneFinder(scanner, roots, i, j, key);
      }
    } else {
      ScannedNowhere(scanner, hasher, roots, key);
      forall r, comps | r in roots && ObjectBelow(options, hasher, tree, r, comps, key, e) ensures false {
        BelowFound(options, hasher, tree, roots, r, comps, key, e);
      }
    }
  }

  lemma BelowFound(options: Options, hasher: Hasher, tree: Tree, roots: seq<string>, r: string, comps: seq<string>,
                   key: string, e: Entry)
    requires GoodRoots(tree, roots) && r in roots && ObjectBelow(options, hasher, tree, r, comps, key, e)
    ensures FoundBy(WalkScanner(Uncached(options), tree), r, key)
  {
    hide GoodTree, WalkAll, At, GoodNames, Tail, Sees, Object, Base;
    var one := WalkAll(Uncached(options), Base(r), tree(r).value);
    WalkObject(options, hasher, tree, r, key, e);
    if key in one.jobs { JobRecorded(Uncached(options), Base(r), tree(r).value, key); }
  }

  /**
   A scan without a baseline shows a path with an entry if and only if names lead from one
   of the roots to an object there, no exclude matches the whole path, and the entry says
   what the object is: a link with its mode and target, a directory with its mode, a file
   with what lstat says and the hash of its content. A file that cannot be hashed any more
   is not shown.
   */
  lemma ScanShowsObjects(options: Options, hasher: Hasher, tree: Tree, roots: seq<string>, key: string, e: Entry)
    requires Disjoint(roots) && GoodRoots(tree, roots)
    ensures Get(SequentialResult(WalkScanner(Uncached(options), tree), hasher, roots), key) == Some(e) <==>
            exists r, comps ::
              && r in roots && tree(r).Some? && comps != [] && GoodNames(comps)
              && key == (if r == "/" then "" else r) + "/" + Join(comps, "/")
              && !ShouldExclude(key, options.excludes) && At(tree(r).value, comps).Some?
              && match At(tree(r).value, comps).value
                 case Gone => false
                 case Symlink(mode, target) =>
                   target.Some? && e == Entry(EntrySymlink, mode, 0, 0, 0, 0, "", target.value)
                 case Dir(mode, _) => e == Entry(EntryDir, mode, 0, 0, 0, 0, "", "")
                 case File(info) =>
                   hasher(key) == Some(e.hash) &&
                   e == Entry(EntryFile, info.mode, info.size, info.mtime, info.inode, info.device, e.hash, "")
  {
    hide Disjoint, GoodRoots, SequentialResult, WalkScanner, ShouldExclude, At, Tail, Join, Base, GoodNames;
    ScanResult(options, hasher, tree, roots, key, e);
    forall r, comps: seq<string> | r in roots && tree(r).Some? && comps != []
      ensures Base(r) + Tail(comps) == (if r == "/" then "" else r) + "/" + Join(comps, "/")
    {
      TailIs(comps);
      BaseIs(r);
      assert Base(r) + ("/" + Join(comps, "/")) == Base(r) + "/" + Join(comps, "/");
    }
    forall r, comps: seq<string> | r in roots && tree(r).Some? && comps != [] && At(tree(r).value, comps).Some?
      ensures ObjectBelow(options, hasher, tree, r, comps, key, e) <==>
              GoodNames(comps) && key == Base(r) + Tail(comps) &&
              Object(options, hasher, key, At(tree(r).value, comps), e)
    {
    }
  }

  lemma BaseIs(r: string)
    ensures Base(r) == if r == "/" then "" else r
  {
  }
}
