/**
 The directory walk of scanTreeInto (internal/pkg/overlaydiff/diff.go): it prunes
 whole subtrees, decides per file whether a recorded hash is reused, and is proved
 to see exactly the paths that no exclude matches.
 */
module ScanWalk {
  import opened Text
  import opened OverlayCompare
  import opened HashReuse
  import opened ScanIncludes
  import opened ScanWorkers

  /**
   What the walk meets at a path. `Gone` is an object that cannot be inspected any
   more, and a symlink without target one that cannot be read; both are skipped. A
   directory that cannot be listed has no children.
   */
  datatype Item =
    | File(info: Entry)
    | Symlink(mode: nat, target: Option<string>)
    | Dir(mode: nat, children: seq<Child>)
    | Gone

  datatype Child = Child(name: string, item: Item)

  datatype Options = Options(excludes: seq<string>, baseline: Scan, capturedAt: Option<int>)

  // ----- Which paths are excluded --------------------------------------------

  predicate HasAutoExcludedSegment(path: string) {
    exists s :: s in Split(path, '/') && (s == "cache" || s == ".cache")
  }

  predicate ShouldExclude(path: string, excludes: seq<string>) {
    HasAutoExcludedSegment(path) || exists e :: e in excludes && (path == e || Below(path, e))
  }

  function Slash(path: string, name: string): string {
    path + "/" + name
  }

  lemma SlashAfter(head: string, tail: string, name: string)
    ensures Slash(head + ['/'] + tail, name) == head + ['/'] + Slash(tail, name)
  {
  }

  lemma CutAt(p: string, i: nat)
    requires i < |p| && p[i] == '/'
    ensures p == p[..i] + ['/'] + p[i + 1..]
  {
  }

  lemma {:induction false} SplitSnoc(p: string, name: string)
    requires '/' !in name
    ensures Split(Slash(p, name), '/') == Split(p, '/') + [name]
    decreases |p|
  {
    hide Split;
    SplitNone(name, '/');
    if '/' !in p {
      SplitNone(p, '/');
      SplitCons(p, name, '/');
    } else {
      hide Slash;
      var i := Index(p, '/');
      var head, tail := p[..i], p[i + 1..];
      CutAt(p, i);
      SlashAfter(head, tail, name);
      SplitCons(head, tail, '/');
      SplitCons(head, Slash(tail, name), '/');
      SplitSnoc(tail, name);
    }
  }

  /** What lies in an excluded directory is excluded, so nothing is lost by not entering it. */
  lemma ExcludesBelow(p: string, name: string, excludes: seq<string>)
    requires '/' !in name && ShouldExclude(p, excludes)
    ensures ShouldExclude(Slash(p, name), excludes)
  {
    if HasAutoExcludedSegment(p) {
      SplitSnoc(p, name);
      var s :| s in Split(p, '/') && (s == "cache" || s == ".cache");
      assert s in Split(Slash(p, name), '/');
    } else {
      var e :| e in excludes && (p == e || Below(p, e));
      assert Below(Slash(p, name), e);
    }
  }

  // ----- The walk ------------------------------------------------------------

  const NOTHING: Local := Local(map[], [])

  function Merge(a: Local, b: Local): Local {
    Local(a.entries + b.entries, a.jobs + b.jobs)
  }

  /** A baseline hash may be used for this file. */
  predicate Reuses(options: Options, path: string, info: Entry) {
    path in options.baseline && CanReuseFileHash(info, options.baseline[path], options.capturedAt)
  }

  /** What lstat alone says about a file. */
  function Stat(info: Entry): Entry {
    info.(kind := EntryFile, hash := "", linkTarget := "")
  }

  /** The entry recorded for an object, and whether its hash is left to the workers. */
  function EntryOf(options: Options, path: string, item: Item): Option<Entry> {
    match item
    case Gone => None
    case Symlink(mode, target) =>
      if target.None? then None else Some(Entry(EntrySymlink, mode, 0, 0, 0, 0, "", target.value))
    case Dir(mode, _) => Some(Entry(EntryDir, mode, 0, 0, 0, 0, "", ""))
    case File(info) =>
      var entry := Stat(info);
      Some(if Reuses(options, path, entry) then entry.(hash := options.baseline[path].hash) else entry)
  }

  predicate NeedsHash(options: Options, path: string, item: Item) {
    item.File? && !Reuses(options, path, Stat(item.info))
  }

  function Record(options: Options, path: string, item: Item): Local {
    match EntryOf(options, path, item)
    case None => NOTHING
    case Some(e) => Local(map[path := e], if NeedsHash(options, path, item) then [path] else [])
  }

  /** What the walk adds for one object, pruned as soon as it is excluded. */
  function WalkOne(options: Options, path: string, item: Item): Local
    decreases item
  {
    if ShouldExclude(path, options.excludes) then NOTHING
    else if item.Dir? then Merge(Record(options, path, item), WalkAll(options, path, item.children))
    else Record(options, path, item)
  }

  function WalkAll(options: Options, path: string, children: seq<Child>): Local
    decreases children
  {
    if children == [] then NOTHING
    else
      var n := |children| - 1;
      Merge(WalkAll(options, path, children[..n]), WalkOne(options, Slash(path, children[n].name), children[n].item))
  }

  lemma MergeAssoc(a: Local, b: Local, c: Local)
    ensures Merge(Merge(a, b), c) == Merge(a, Merge(b, c))
  {
  }

  lemma MergeNothing(a: Local)
    ensures Merge(a, NOTHING) == a && Merge(NOTHING, a) == a
  {
  }

  /** The callback's writes, as one addition. */
  lemma RecordStep(was: Local, options: Options, path: string, item: Item)
    ensures var e := EntryOf(options, path, item);
            && (e.None? ==> Merge(was, Record(options, path, item)) == was)
            && (e.Some? ==>
                  Merge(was, Record(options, path, item)) ==
                  Local(was.entries[path := e.value],
                        if NeedsHash(options, path, item) then was.jobs + [path] else was.jobs))
  {
    MergeNothing(was);
    hide EntryOf, NeedsHash;
  }

  lemma WalkOneStep(was: Local, options: Options, path: string, item: Item)
    ensures ShouldExclude(path, options.excludes) ==> Merge(was, WalkOne(options, path, item)) == was
    ensures !ShouldExclude(path, options.excludes) && !item.Dir? ==>
              Merge(was, WalkOne(options, path, item)) == Merge(was, Record(options, path, item))
    ensures !ShouldExclude(path, options.excludes) && item.Dir? ==>
              Merge(was, WalkOne(options, path, item)) ==
              Merge(Merge(was, Record(options, path, item)), WalkAll(options, path, item.children))
  {
    MergeNothing(was);
    if item.Dir? { MergeAssoc(was, Record(options, path, item), WalkAll(options, path, item.children)); }
    hide ShouldExclude, Record, Merge;
  }

  lemma WalkAllStep(was: Local, options: Options, path: string, children: seq<Child>, i: nat)
    requires i < |children|
    ensures Merge(was, WalkAll(options, path, children[..i + 1])) ==
            Merge(Merge(was, WalkAll(options, path, children[..i])),
                  WalkOne(options, Slash(path, children[i].name), children[i].item))
  {
    hide WalkOne, Merge;
    assert children[..i + 1][..i] == children[..i] && children[..i + 1][i] == children[i];
    MergeAssoc(was, WalkAll(options, path, children[..i]), WalkOne(options, Slash(path, children[i].name),
               children[i].item));
  }

  lemma WalkAllEnds(was: Local, options: Options, path: string, children: seq<Child>)
    ensures Merge(was, WalkAll(options, path, children[..0])) == was && children[..|children|] == children
  {
    MergeNothing(was);
  }

  /** The maps that all callbacks of a walk write to. */
  class Gather {
    var entries: Scan
    var jobs: seq<string>

    constructor ()
      ensures entries == map[] && jobs == []
    {
      entries := map[];
      jobs := [];
    }

    /** The callback on one object, and the walk below it. */
    method Visit(options: Options, path: string, item: Item)
      modifies this
      ensures Local(entries, jobs) == Merge(old(Local(entries, jobs)), WalkOne(options, path, item))
      decreases item
    {
      hide *;
      WalkOneStep(Local(entries, jobs), options, path, item);
      RecordStep(Local(entries, jobs), options, path, item);
      if ShouldExclude(path, options.excludes) {
        return;
      }
      var entry := EntryOf(options, path, item);
      if entry.Some? {
        if NeedsHash(options, path, item) {
          jobs := jobs + [path];
        }
        entries := entries[path := entry.value];
      }
      if item.Dir? {
        ScanTreeInto(options, path, item.children);
      }
    }

    /** `scanTreeInto` from the directory at `path`, which is not recorded itself. */
    method ScanTreeInto(options: Options, path: string, children: seq<Child>)
      modifies this
      ensures Local(entries, jobs) == Merge(old(Local(entries, jobs)), WalkAll(options, path, children))
      decreases children
    {
      hide *;
      ghost var was := Local(entries, jobs);
      WalkAllEnds(was, options, path, children);
      for i := 0 to |children|
        invariant Local(entries, jobs) == Merge(was, WalkAll(options, path, children[..i]))
      {
        WalkAllStep(was, options, path, children, i);
        Visit(options, Slash(path, children[i].name), children[i].item);
      }
    }
  }

  // ----- Paths below a directory ---------------------------------------------

  predicate GoodName(name: string) {
    name != "" && '/' !in name
  }

  /** Directory entries have distinct names without slashes. */
  ghost predicate GoodTree(children: seq<Child>) {
    && (forall i :: 0 <= i < |children| ==> GoodName(children[i].name) && GoodItem(children[i].item))
    && (forall i, j :: 0 <= i < j < |children| ==> children[i].name != children[j].name)
  }

  ghost predicate GoodItem(item: Item) {
    item.Dir? ==> GoodTree(item.children)
  }

  predicate GoodNames(comps: seq<string>) {
    forall c :: c in comps ==> GoodName(c)
  }

  /** The text a sequence of names adds to the path of a directory. */
  function Tail(comps: seq<string>): string {
    if comps == [] then "" else "/" + comps[0] + Tail(comps[1..])
  }

  function Find(children: seq<Child>, name: string): Option<Item> {
    if children == [] then None
    else
      var n := |children| - 1;
      if children[n].name == name then Some(children[n].item) else Find(children[..n], name)
  }

  /** The object a sequence of names leads to. */
  function At(children: seq<Child>, comps: seq<string>): Option<Item>
    requires comps != []
    decreases |comps|, 0
  {
    var item := Find(children, comps[0]);
    if item.None? then None else Inside(item.value, comps[1..])
  }

  function Inside(item: Item, comps: seq<string>): Option<Item>
    decreases |comps|, 1
  {
    if comps == [] then Some(item) else if item.Dir? then At(item.children, comps) else None
  }

  lemma TailCons(path: string, c: string, rest: seq<string>)
    ensures Slash(path, c) + Tail(rest) == path + Tail([c] + rest)
  {
    assert ([c] + rest)[1..] == rest;
  }

  /** A name ends where the next slash begins. */
  lemma NameEnds(a: string, b: string, x: string, y: string)
    requires '/' !in a && '/' !in b && a + x == b + y
    requires (x == "" || x[0] == '/') && (y == "" || y[0] == '/')
    ensures a == b && x == y
  {
    IndexShift(a, x, '/');
    IndexShift(b, y, '/');
    assert |a| + |x| == |b| + |y|;
    assert a == (a + x)[..|a|] && b == (b + y)[..|b|];
    assert x == (a + x)[|a|..] && y == (b + y)[|b|..];
  }

  lemma {:induction false} TailInjective(a: seq<string>, b: seq<string>)
    requires GoodNames(a) && GoodNames(b) && Tail(a) == Tail(b)
    ensures a == b
  {
    if a != [] && b != [] {
      assert a[0] in a && b[0] in b;
      assert a[0] + Tail(a[1..]) == Tail(a)[1..] && b[0] + Tail(b[1..]) == Tail(b)[1..];
      NameEnds(a[0], b[0], Tail(a[1..]), Tail(b[1..]));
      TailInjective(a[1..], b[1..]);
      assert a == [a[0]] + a[1..] && b == [b[0]] + b[1..];
    }
  }

  lemma {:induction false} ExcludesTail(p: string, comps: seq<string>, excludes: seq<string>)
    requires GoodNames(comps) && ShouldExclude(p, excludes)
    ensures ShouldExclude(p + Tail(comps), excludes)
    decreases |comps|
  {
    hide ShouldExclude;
    if comps == [] {
      assert p + Tail(comps) == p;
    } else {
      assert comps[0] in comps && comps == [comps[0]] + comps[1..];
      ExcludesBelow(p, comps[0], excludes);
      ExcludesTail(Slash(p, comps[0]), comps[1..], excludes);
      TailCons(p, comps[0], comps[1..]);
    }
  }

  // ----- Where the walk's paths come from ------------------------------------

  ghost predicate Holds(local: Local, key: string) {
    key in local.entries || key in local.jobs
  }

  lemma RecordHolds(options: Options, path: string, item: Item, key: string)
    ensures Holds(Record(options, path, item), key) ==> key == path
  {
  }

  lemma MergeHolds(a: Local, b: Local, key: string)
    ensures Holds(Merge(a, b), key) <==> Holds(a, key) || Holds(b, key)
  {
  }

  lemma {:induction false} WalkOneKey(options: Options, path: string, item: Item, key: string)
    returns (comps: seq<string>)
    requires GoodItem(item) && Holds(WalkOne(options, path, item), key)
    ensures GoodNames(comps) && key == path + Tail(comps)
    decreases item
  {
    hide Record, ShouldExclude, Merge, Holds;
    RecordHolds(options, path, item, key);
    NothingHolds(key);
    comps := [];
    if item.Dir? {
      MergeHolds(Record(options, path, item), WalkAll(options, path, item.children), key);
      if key != path {
        comps := WalkAllKey(options, path, item.children, key);
      }
    }
    assert path + Tail([]) == path;
  }

  lemma NothingHolds(key: string)
    ensures !Holds(NOTHING, key)
  {
  }

  /** Every recorded path is a sequence of names that starts with a child. */
  lemma {:induction false} WalkAllKey(options: Options, path: string, children: seq<Child>, key: string)
    returns (comps: seq<string>)
    requires GoodTree(children) && Holds(WalkAll(options, path, children), key)
    ensures GoodNames(comps) && comps != [] && key == path + Tail(comps)
    ensures exists i :: 0 <= i < |children| && children[i].name == comps[0]
    decreases children
  {
    hide WalkOne, Merge, Holds;
    NothingHolds(key);
    var n := |children| - 1;
    var name := children[n].name;
    MergeHolds(WalkAll(options, path, children[..n]), WalkOne(options, Slash(path, name), children[n].item), key);
    if Holds(WalkAll(options, path, children[..n]), key) {
      comps := WalkAllKey(options, path, children[..n], key);
      var i :| 0 <= i < n && children[..n][i].name == comps[0];
      assert children[i].name == comps[0];
    } else {
      var rest := WalkOneKey(options, Slash(path, name), children[n].item, key);
      comps := [name] + rest;
      TailCons(path, name, rest);
    }
  }

  // ----- The walk is a filter ------------------------------------------------

  /** At this path the result shows what is there, unless an exclude matches. */
  ghost predicate Sees(options: Options, local: Local, key: string, item: Option<Item>) {
    var e := if item.None? || ShouldExclude(key, options.excludes) then None else EntryOf(options, key, item.value);
    && Get(local.entries, key) == e
    && (key in local.jobs <==> e.Some? && NeedsHash(options, key, item.value))
  }

  lemma SeesNothing(options: Options, key: string, item: Option<Item>)
    requires item.None? || ShouldExclude(key, options.excludes)
    ensures Sees(options, NOTHING, key, item)
  {
  }

  lemma SeesRecord(options: Options, key: string, item: Item)
    requires !ShouldExclude(key, options.excludes)
    ensures Sees(options, Record(options, key, item), key, Some(item))
  {
    hide ShouldExclude, EntryOf, NeedsHash;
  }

  lemma SeesMerge(options: Options, a: Local, b: Local, key: string, item: Option<Item>)
    ensures !Holds(b, key) && Sees(options, a, key, item) ==> Sees(options, Merge(a, b), key, item)
    ensures !Holds(a, key) && Sees(options, b, key, item) ==> Sees(options, Merge(a, b), key, item)
  {
    hide ShouldExclude, EntryOf, NeedsHash;
  }

  lemma SeesElsewhere(options: Options, local: Local, key: string)
    requires !Holds(local, key)
    ensures Sees(options, local, key, None)
  {
    hide ShouldExclude, EntryOf, NeedsHash;
  }

  lemma TailPlus(path: string, comps: seq<string>)
    requires path + Tail(comps) == path
    ensures comps == []
  {
  }

  lemma {:induction false} WalkOneAt(options: Options, path: string, item: Item, comps: seq<string>)
    requires GoodItem(item) && GoodNames(comps)
    ensures Sees(options, WalkOne(options, path, item), path + Tail(comps), Inside(item, comps))
    decreases item, 1
  {
    var key := path + Tail(comps);
    hide Record, ShouldExclude, Merge, Holds, Sees, GoodName, Tail;
    if ShouldExclude(path, options.excludes) {
      ExcludesTail(path, comps, options.excludes);
      SeesNothing(options, key, Inside(item, comps));
    } else if comps == [] {
      assert key == path by { TailNone(path); }
      SeesRecord(options, path, item);
      if item.Dir? {
        var below := WalkAll(options, path, item.children);
        if Holds(below, key) {
          var other := WalkAllKey(options, path, item.children, key);
          TailPlus(path, other);
          assert false;
        }
        SeesMerge(options, Record(options, path, item), below, key, Some(item));
      }
    } else {
      var record := Record(options, path, item);
      RecordHolds(options, path, item, key);
      if key == path {
        TailPlus(path, comps);
        assert false;
      }
      if item.Dir? {
        WalkAllAt(options, path, item.children, comps);
        SeesMerge(options, record, WalkAll(options, path, item.children), key, Inside(item, comps));
      } else {
        SeesElsewhere(options, record, key);
      }
    }
  }

  lemma TailNone(path: string)
    ensures path + Tail([]) == path
  {
  }

  /** Walking a directory sees, at every path below it, exactly what is there and not excluded. */
  lemma {:induction false} WalkAllAt(options: Options, path: string, children: seq<Child>, comps: seq<string>)
    requires GoodTree(children) && GoodNames(comps) && comps != []
    ensures Sees(options, WalkAll(options, path, children), path + Tail(comps), At(children, comps))
    decreases children, 0
  {
    var key := path + Tail(comps);
    hide WalkOne, ShouldExclude, Merge, Holds, Sees, GoodName, Tail;
    if children == [] {
      SeesNothing(options, key, None);
    } else {
      var n := |children| - 1;
      var name, item := children[n].name, children[n].item;
      var before, last := WalkAll(options, path, children[..n]), WalkOne(options, Slash(path, name), item);
      assert comps == [comps[0]] + comps[1..];
      if name == comps[0] {
        TailCons(path, name, comps[1..]);
        WalkOneAt(options, Slash(path, name), item, comps[1..]);
        if Holds(before, key) {
          var other := WalkAllKey(options, path, children[..n], key);
          SameTail(path, other, comps);
          assert false;
        }
        SeesMerge(options, before, last, key, At(children, comps));
      } else {
        WalkAllAt(options, path, children[..n], comps);
        if Holds(last, key) {
          var rest := WalkOneKey(options, Slash(path, name), item, key);
          TailCons(path, name, rest);
          SameTail(path, [name] + rest, comps);
          assert false;
        }
        SeesMerge(options, before, last, key, At(children, comps));
      }
    }
  }

  lemma SameTail(path: string, a: seq<string>, b: seq<string>)
    requires GoodNames(a) && GoodNames(b) && path + Tail(a) == path + Tail(b)
    ensures a == b
  {
    assert Tail(a) == (path + Tail(a))[|path|..] && Tail(b) == (path + Tail(b))[|path|..];
    TailInjective(a, b);
  }

  /** At this path an object is recorded with this entry. */
  ghost predicate Recorded(options: Options, key: string, item: Option<Item>, e: Entry) {
    item.Some? && !ShouldExclude(key, options.excludes) && EntryOf(options, key, item.value) == Some(e)
  }

  lemma RecordedAt(options: Options, path: string, children: seq<Child>, key: string, e: Entry)
    requires GoodTree(children)
    ensures Get(WalkAll(options, path, children).entries, key) == Some(e) <==>
              exists comps :: && comps != [] && GoodNames(comps) && key == path + Tail(comps)
                              && Recorded(options, key, At(children, comps), e)
  {
    hide ShouldExclude, EntryOf, WalkAll, At, GoodNames, GoodTree, Tail, NeedsHash;
    if Get(WalkAll(options, path, children).entries, key) == Some(e) {
      var comps := WalkAllKey(options, path, children, key);
      WalkAllAt(options, path, children, comps);
      assert Recorded(options, key, At(children, comps), e);
    }
    forall comps | && comps != [] && GoodNames(comps) && key == path + Tail(comps)
                   && Recorded(options, key, At(children, comps), e)
      ensures Get(WalkAll(options, path, children).entries, key) == Some(e)
    {
      WalkAllAt(options, path, children, comps);
    }
  }

  /**
   The entry of an object: a link with its mode and target, a directory with its mode, a
   file with what lstat says. A file has the hash of the baseline exactly when the baseline
   holds a hashed file with the same size, mode and time under a stamp at least a second
   after that time, and nothing shows that it is another file; otherwise it has none.
   */
  ghost predicate Shown(options: Options, key: string, item: Item, e: Entry) {
    match item
    case Gone => false
    case Symlink(mode, target) => target.Some? && e == Entry(EntrySymlink, mode, 0, 0, 0, 0, "", target.value)
    case Dir(mode, _) => e == Entry(EntryDir, mode, 0, 0, 0, 0, "", "")
    case File(info) =>
      && e.kind == EntryFile && e.mode == info.mode && e.size == info.size && e.mtime == info.mtime
      && e.inode == info.inode && e.device == info.device && e.linkTarget == ""
      && (e.hash == if && key in options.baseline && options.baseline[key].kind == EntryFile
                         && options.baseline[key].mode == info.mode && options.baseline[key].size == info.size
                         && options.baseline[key].mtime == info.mtime && options.capturedAt.Some?
                         && info.mtime + 1_000_000_000 <= options.capturedAt.value
                         && (|| info.inode == 0 || options.baseline[key].inode == 0
                             || info.device == 0 || options.baseline[key].device == 0
                             || (&& info.inode == options.baseline[key].inode
                                 && info.device == options.baseline[key].device))
                      then options.baseline[key].hash else "")
  }

  lemma EntryIs(options: Options, key: string, item: Item, e: Entry)
    ensures EntryOf(options, key, item) == Some(e) <==> Shown(options, key, item, e)
  {
  }

  /**
   The pruned walk is a filter: it records a path exactly when names lead to an object
   there that can be read and no exclude matches the whole path, and it leaves exactly the
   files recorded without a hash to the workers.
   */
  lemma WalkIsFilter(options: Options, path: string, children: seq<Child>, key: string, e: Entry)
    requires GoodTree(children)
    ensures Get(WalkAll(options, path, children).entries, key) == Some(e) <==>
            exists comps ::
              && comps != [] && GoodNames(comps) && key == path + Tail(comps)
              && !ShouldExclude(key, options.excludes) && At(children, comps).Some?
              && match At(children, comps).value
                 case Gone => false
                 case Symlink(mode, target) =>
                   target.Some? && e == Entry(EntrySymlink, mode, 0, 0, 0, 0, "", target.value)
                 case Dir(mode, _) => e == Entry(EntryDir, mode, 0, 0, 0, 0, "", "")
                 case File(info) =>
                   && e.kind == EntryFile && e.mode == info.mode && e.size == info.size && e.mtime == info.mtime
                   && e.inode == info.inode && e.device == info.device && e.linkTarget == ""
                   && (e.hash == if && key in options.baseline && options.baseline[key].kind == EntryFile
                                   && options.baseline[key].mode == info.mode && options.baseline[key].size == info.size
                                   && options.baseline[key].mtime == info.mtime && options.capturedAt.Some?
                                   && info.mtime + 1_000_000_000 <= options.capturedAt.value
                                   && (|| info.inode == 0 || options.baseline[key].inode == 0
                                       || info.device == 0 || options.baseline[key].device == 0
                                       || (&& info.inode == options.baseline[key].inode
                                           && info.device == options.baseline[key].device))
                                then options.baseline[key].hash else "")
    ensures key in WalkAll(options, path, children).jobs <==>
              && key in WalkAll(options, path, children).entries
              && WalkAll(options, path, children).entries[key].kind == EntryFile
              && WalkAll(options, path, children).entries[key].hash == ""
  {
    hide WalkAll, At, GoodTree, GoodNames, Tail, ShouldExclude, EntryOf;
    RecordedAt(options, path, children, key, e);
    forall comps: seq<string> | comps != [] && At(children, comps).Some? && !ShouldExclude(key, options.excludes)
      ensures Recorded(options, key, At(children, comps), e) <==> Shown(options, key, At(children, comps).value, e)
    {
      EntryIs(options, key, At(children, comps).value, e);
    }
    JobsAre(options, path, children, key);
  }

  lemma JobsAre(options: Options, path: string, children: seq<Child>, key: string)
    requires GoodTree(children)
    ensures key in WalkAll(options, path, children).jobs <==>
              && key in WalkAll(options, path, children).entries
              && WalkAll(options, path, children).entries[key].kind == EntryFile
              && WalkAll(options, path, children).entries[key].hash == ""
  {
    hide ShouldExclude, WalkAll, At, GoodNames, GoodTree, Tail;
    if Holds(WalkAll(options, path, children), key) {
      var comps := WalkAllKey(options, path, children, key);
      WalkAllAt(options, path, children, comps);
    }
  }

  lemma JobRecorded(options: Options, path: string, children: seq<Child>, key: string)
    requires GoodTree(children) && key in WalkAll(options, path, children).jobs
    ensures key in WalkAll(options, path, children).entries
  {
    hide ShouldExclude, EntryOf, WalkAll, At, GoodNames, GoodTree, Tail, NeedsHash;
    var comps := WalkAllKey(options, path, children, key);
    WalkAllAt(options, path, children, comps);
  }

  lemma {:induction false} OneJobEach(options: Options, path: string, item: Item)
    requires GoodItem(item)
    ensures Distinct(WalkOne(options, path, item).jobs)
    decreases item
  {
    hide ShouldExclude, EntryOf, NeedsHash;
    if item.Dir? {
      JobsDistinct(options, path, item.children);
      assert Record(options, path, item).jobs == [] by { DirNoJob(options, path, item); }
      assert [] + WalkAll(options, path, item.children).jobs == WalkAll(options, path, item.children).jobs;
    }
  }

  lemma DirNoJob(options: Options, path: string, item: Item)
    requires item.Dir?
    ensures Record(options, path, item).jobs == []
  {
  }

  lemma {:induction false} JobsDistinct(options: Options, path: string, children: seq<Child>)
    requires GoodTree(children)
    ensures Distinct(WalkAll(options, path, children).jobs)
    decreases children
  {
    hide WalkOne, GoodName, Tail;
    if children != [] {
      var n := |children| - 1;
      var name, item := children[n].name, children[n].item;
      var before, last := WalkAll(options, path, children[..n]), WalkOne(options, Slash(path, name), item);
      JobsDistinct(options, path, children[..n]);
      OneJobEach(options, Slash(path, name), item);
      forall j | j in before.jobs ensures j !in last.jobs {
        JobsApart(options, path, children, j);
      }
      DistinctAppend(before.jobs, last.jobs);
    }
  }

  lemma JobsApart(options: Options, path: string, children: seq<Child>, key: string)
    requires GoodTree(children) && children != []
    requires Holds(WalkAll(options, path, children[..|children| - 1]), key)
    ensures var last := children[|children| - 1];
            !Holds(WalkOne(options, Slash(path, last.name), last.item), key)
  {
    hide WalkOne, WalkAll, Holds, GoodName, Tail;
    var n := |children| - 1;
    var last := children[n];
    assert GoodTree(children[..n]);
    var comps := WalkAllKey(options, path, children[..n], key);
    if Holds(WalkOne(options, Slash(path, last.name), last.item), key) {
      var rest := WalkOneKey(options, Slash(path, last.name), last.item, key);
      TailCons(path, last.name, rest);
      SameTail(path, [last.name] + rest, comps);
      assert false;
    }
  }

  // ----- The walk as the scanner of the worker pool --------------------------

  /** The directories that can be listed, by path: what the workers find at an include root. */
  type Tree = string -> Option<seq<Child>>

  function WalkScanner(options: Options, tree: Tree): Scanner {
    (root: string) => if tree(root).None? then None else Some(WalkAll(options, Base(root), tree(root).value))
  }

  ghost predicate GoodRoots(tree: Tree, roots: seq<string>) {
    forall r :: r in roots && tree(r).Some? ==> GoodTree(tree(r).value)
  }

  /** The walk meets what the worker pools rely on. */
  lemma WalkerWalksBelow(options: Options, tree: Tree, roots: seq<string>)
    requires GoodRoots(tree, roots)
    ensures forall r :: r in roots ==> WalksBelow(WalkScanner(options, tree), r)
  {
    forall r | r in roots ensures WalksBelow(WalkScanner(options, tree), r) {
      if tree(r).Some? {
        var children := tree(r).value;
        var base := Base(r);
        var local := WalkAll(options, base, children);
        hide WalkAll, GoodTree, GoodNames, Base;
        JobsDistinct(options, base, children);
        forall k | k in local.entries ensures Below(k, base) {
          var comps := WalkAllKey(options, base, children, k);
          assert Tail(comps)[0] == '/';
          assert k[..|base| + 1] == base + "/";
        }
        forall j | j in local.jobs ensures j in local.entries {
          JobRecorded(options, base, children, j);
        }
      }
    }
  }

  // ----- The hash cache agrees with full hashing -----------------------------

  /** Scanning without a baseline. */
  function Uncached(options: Options): Options {
    options.(baseline := map[])
  }

  /** If a baseline hash is reused for this object, it is what the file hashes to now. */
  ghost predicate FreshItem(options: Options, hasher: Hasher, key: string, item: Option<Item>) {
    item.Some? && item.value.File? && Reuses(options, key, Stat(item.value.info)) ==>
          hasher(key) == Some(options.baseline[key].hash)
  }

  /** Every hash reused below the include roots is fresh. */
  ghost predicate FreshBaseline(options: Options, hasher: Hasher, tree: Tree, roots: seq<string>) {
    forall r, comps: seq<string> :: r in roots && tree(r).Some? && comps != [] && GoodNames(comps) ==>
      FreshItem(options, hasher, Base(r) + Tail(comps), At(tree(r).value, comps))
  }

  /** A stamp no later than the baseline lstat of a file makes its reused hash fresh. */
  lemma StampMakesFresh(options: Options, hasher: Hasher, key: string, info: Entry, hash: string -> string,
                        sc: Scenario)
    requires Observed(hash, sc) && sc.current == Stat(info) && Get(options.baseline, key) == Some(sc.baseline)
    requires options.capturedAt.Some? ==> options.capturedAt.value <= sc.lstat
    requires hasher(key) == Some(hash(HashReuse.Content(sc, sc.now)))
    ensures FreshItem(options, hasher, key, Some(File(info)))
  {
    if Reuses(options, key, Stat(info)) {
      ReuseIsFresh(hash, sc, options.capturedAt);
    }
  }

  lemma SameWhenHashed(options: Options, hasher: Hasher, a: Local, b: Local, key: string, item: Option<Item>)
    requires FreshItem(options, hasher, key, item)
    requires Sees(options, a, key, item) && Sees(Uncached(options), b, key, item)
    ensures HashedAt(hasher, a.entries, key, key in a.jobs) == HashedAt(hasher, b.entries, key, key in b.jobs)
    ensures key in a.entries <==> key in b.entries
  {
    hide ShouldExclude, CanReuseFileHash;
  }

  /** Below one root, hashing completes the cached walk to what the uncached walk gives. */
  lemma WalksAgree(options: Options, hasher: Hasher, tree: Tree, roots: seq<string>, r: string, key: string)
    requires GoodRoots(tree, roots) && FreshBaseline(options, hasher, tree, roots) && r in roots && tree(r).Some?
    ensures var a, b := WalkAll(options, Base(r), tree(r).value), WalkAll(Uncached(options), Base(r), tree(r).value);
            && (key in a.entries <==> key in b.entries)
            && HashedAt(hasher, a.entries, key, key in a.jobs) == HashedAt(hasher, b.entries, key, key in b.jobs)
  {
    var children := tree(r).value;
    assert GoodTree(children);
    var a, b := WalkAll(options, Base(r), children), WalkAll(Uncached(options), Base(r), children);
    hide WalkAll, Base, GoodTree, Sees, FreshItem, At, Tail, HashOne;
    if Holds(a, key) {
      var comps := WalkAllKey(options, Base(r), children, key);
      WalkAllAt(options, Base(r), children, comps);
      WalkAllAt(Uncached(options), Base(r), children, comps);
      SameWhenHashed(options, hasher, a, b, key, At(children, comps));
    } else if Holds(b, key) {
      var comps := WalkAllKey(Uncached(options), Base(r), children, key);
      WalkAllAt(options, Base(r), children, comps);
      WalkAllAt(Uncached(options), Base(r), children, comps);
      SameWhenHashed(options, hasher, a, b, key, At(children, comps));
    }
  }

  lemma HashedAtSame(hasher: Hasher, a: Scan, b: Scan, key: string, ran: bool)
    requires Get(a, key) == Get(b, key)
    ensures HashedAt(hasher, a, key, ran) == HashedAt(hasher, b, key, ran)
  {
  }

  /** After all roots, a path looks as below the one root that found it, or is absent. */
  lemma ScannedAt(scanner: Scanner, hasher: Hasher, roots: seq<string>, i: nat, key: string)
    requires Disjoint(roots) && (forall r :: r in roots ==> WalksBelow(scanner, r))
    requires i < |roots| && FoundBy(scanner, roots[i], key)
    ensures var all, one := SequentialScan(scanner, roots, |roots|), scanner(roots[i]).value;
            HashedAt(hasher, all.entries, key, key in all.jobs) == HashedAt(hasher, one.entries, key, key in one.jobs)
  {
    assert scanner(roots[i]).Some?;
    hide *;
    SequentialGathers(scanner, roots, |roots|);
    var all, one := SequentialScan(scanner, roots, |roots|), scanner(roots[i]).value;
    GatheredAt(scanner, roots, all.entries, all.jobs, i, key);
    HashedAtSame(hasher, all.entries, one.entries, key, key in all.jobs);
  }

  /** What is gathered from all roots looks, at a path, as below the one root that found it. */
  lemma GatheredAt(scanner: Scanner, roots: seq<string>, entries: Scan, jobs: seq<string>, i: nat, key: string)
    requires Disjoint(roots) && (forall r :: r in roots ==> WalksBelow(scanner, r))
    requires i < |roots| && FoundBy(scanner, roots[i], key)
    requires Gathered(scanner, roots, i => 0 <= i < |roots|, entries, jobs)
    ensures scanner(roots[i]).Some?
    ensures Get(entries, key) == Get(scanner(roots[i]).value.entries, key)
    ensures key in jobs <==> key in scanner(roots[i]).value.jobs
  {
    hide Disjoint, Distinct;
    if key in jobs {
      var j :| 0 <= j < |roots| && JobOf(scanner, roots[j], key);
      assert roots[j] in roots && WalksBelow(scanner, roots[j]);
      assert FoundBy(scanner, roots[j], key);
      assert roots[i] in roots;
      hide WalksBelow;
      OneFinder(scanner, roots, i, j, key);
    } else {
      assert !JobOf(scanner, roots[i], key);
    }
  }

  lemma ScannedNowhere(scanner: Scanner, hasher: Hasher, roots: seq<string>, key: string)
    requires Disjoint(roots) && (forall r :: r in roots ==> WalksBelow(scanner, r))
    requires forall i :: 0 <= i < |roots| ==> !FoundBy(scanner, roots[i], key)
    ensures var all := SequentialScan(scanner, roots, |roots|);
            HashedAt(hasher, all.entries, key, key in all.jobs) == None
  {
    hide Disjoint, SequentialScan;
    SequentialGathers(scanner, roots, |roots|);
    var all := SequentialScan(scanner, roots, |roots|);
    forall j | 0 <= j < |roots| ensures !JobOf(scanner, roots[j], key) {
      assert WalksBelow(scanner, roots[j]) && !FoundBy(scanner, roots[j], key);
    }
  }

  lemma ResultAt(scanner: Scanner, hasher: Hasher, roots: seq<string>, key: string)
    requires Disjoint(roots) && (forall r :: r in roots ==> WalksBelow(scanner, r))
    ensures var all := SequentialScan(scanner, roots, |roots|);
            Get(SequentialResult(scanner, hasher, roots), key) == HashedAt(hasher, all.entries, key, key in all.jobs)
  {
    hide Disjoint, WalksBelow, SequentialScan, HashedAt, SequentialHash;
    SequentialGathers(scanner, roots, |roots|);
    var all := SequentialScan(scanner, roots, |roots|);
    SequentialHashes(hasher, all.entries, all.jobs, |all.jobs|);
    assert all.jobs[..|all.jobs|] == all.jobs;
  }

  lemma ResultsAgreeAt(options: Options, hasher: Hasher, tree: Tree, roots: seq<string>, key: string)
    requires Disjoint(roots) && GoodRoots(tree, roots) && FreshBaseline(options, hasher, tree, roots)
    ensures Get(SequentialResult(WalkScanner(options, tree), hasher, roots), key) ==
            Get(SequentialResult(WalkScanner(Uncached(options), tree), hasher, roots), key)
  {
    var cached, plain := WalkScanner(options, tree), WalkScanner(Uncached(options), tree);
    WalkerWalksBelow(options, tree, roots);
    WalkerWalksBelow(Uncached(options), tree, roots);
    hide Disjoint, WalksBelow, SequentialResult, SequentialScan, HashedAt, GoodRoots, FreshBaseline, WalkAll;
    ResultAt(cached, hasher, roots, key);
    ResultAt(plain, hasher, roots, key);
    forall i | 0 <= i < |roots| ensures FoundBy(cached, roots[i], key) <==> FoundBy(plain, roots[i], key) {
      if tree(roots[i]).Some? { WalksAgree(options, hasher, tree, roots, roots[i], key); }
    }
    if i :| 0 <= i < |roots| && FoundBy(cached, roots[i], key) {
      WalksAgree(options, hasher, tree, roots, roots[i], key);
      ScannedAt(cached, hasher, roots, i, key);
      ScannedAt(plain, hasher, roots, i, key);
    } else {
      ScannedNowhere(cached, hasher, roots, key);
      ScannedNowhere(plain, hasher, roots, key);
    }
  }

  /** With fresh hashes, the cached scan of any interleaving is the sequential scan that hashes every file. */
  lemma FreshParallelScan(options: Options, hasher: Hasher, tree: Tree, roots: seq<string>,
                          scanWorkers: nat, scanActions: seq<Action>, scanned: ScanState,
                          hashWorkers: nat, hashActions: seq<Action>, hashed: HashState)
    requires Disjoint(roots) && GoodRoots(tree, roots) && FreshBaseline(options, hasher, tree, roots)
    requires ScanRun(WalkScanner(options, tree), roots, scanWorkers, scanActions, ScanState(IDLE, map[], []), scanned)
    requires scanned.pool.Final(|roots|)
    requires HashRun(hasher, scanned.jobs, hashWorkers, hashActions, HashState(IDLE, scanned.entries), hashed)
    requires hashed.pool.Final(|scanned.jobs|)
    ensures hashed.entries == SequentialResult(WalkScanner(Uncached(options), tree), hasher, roots)
  {
    hide *;
    var cached, plain := WalkScanner(options, tree), WalkScanner(Uncached(options), tree);
    WalkerWalksBelow(options, tree, roots);
    ParallelIsSequential(cached, hasher, roots, scanWorkers, scanActions, scanned, hashWorkers, hashActions, hashed);
    forall k ensures Get(SequentialResult(cached, hasher, roots), k) == Get(SequentialResult(plain, hasher, roots), k) {
      ResultsAgreeAt(options, hasher, tree, roots, k);
    }
    SameScans(SequentialResult(cached, hasher, roots), SequentialResult(plain, hasher, roots));
  }

  /**
   The hash reused for a file comes from a history of writes in which the captured-at
   stamp is no later than the file's baseline lstat, and the workers hash what the file
   holds when this scan inspects it.
   */
  ghost predicate StampedItem(options: Options, hasher: Hasher, hash: string -> string, key: string,
                              item: Option<Item>) {
    item.Some? && item.value.File? && Reuses(options, key, Stat(item.value.info)) ==>
      exists sc :: StampedBy(options, hasher, hash, key, item.value.info, sc)
  }

  ghost predicate StampedBy(options: Options, hasher: Hasher, hash: string -> string, key: string, info: Entry,
                            sc: Scenario) {
    && Observed(hash, sc) && sc.current == Stat(info) && Get(options.baseline, key) == Some(sc.baseline)
    && (options.capturedAt.Some? ==> options.capturedAt.value <= sc.lstat)
    && hasher(key) == Some(hash(HashReuse.Content(sc, sc.now)))
  }

  ghost predicate Stamped(options: Options, hasher: Hasher, hash: string -> string, tree: Tree, roots: seq<string>) {
    forall r, comps: seq<string> :: r in roots && tree(r).Some? && comps != [] && GoodNames(comps) ==>
      StampedItem(options, hasher, hash, Base(r) + Tail(comps), At(tree(r).value, comps))
  }

  /** An early stamp makes every reused hash fresh. */
  lemma StampedIsFresh(options: Options, hasher: Hasher, hash: string -> string, tree: Tree, roots: seq<string>)
    requires Stamped(options, hasher, hash, tree, roots)
    ensures FreshBaseline(options, hasher, tree, roots)
  {
    hide At, Tail, Base, Reuses, Observed;
    forall r, comps: seq<string> | r in roots && tree(r).Some? && comps != [] && GoodNames(comps)
      ensures FreshItem(options, hasher, Base(r) + Tail(comps), At(tree(r).value, comps))
    {
      var key, item := Base(r) + Tail(comps), At(tree(r).value, comps);
      assert StampedItem(options, hasher, hash, key, item);
      if item.Some? && item.value.File? && Reuses(options, key, Stat(item.value.info)) {
        var sc :| StampedBy(options, hasher, hash, key, item.value.info, sc);
        StampMakesFresh(options, hasher, key, item.value.info, hash, sc);
      }
    }
  }

  /**
   A scan that reuses baseline hashes under a stamp no later than each file's baseline
   lstat, run by any interleaving of the scan workers and then of the hash workers, ends
   with the entry map of one sequential scan that hashes every file.
   */
  lemma CachedParallelScan(options: Options, hasher: Hasher, hash: string -> string, tree: Tree, roots: seq<string>,
                           scanWorkers: nat, scanActions: seq<Action>, scanned: ScanState,
                           hashWorkers: nat, hashActions: seq<Action>, hashed: HashState)
    requires Disjoint(roots) && GoodRoots(tree, roots) && Stamped(options, hasher, hash, tree, roots)
    requires ScanRun(WalkScanner(options, tree), roots, scanWorkers, scanActions, ScanState(IDLE, map[], []), scanned)
    requires scanned.pool.Final(|roots|)
    requires HashRun(hasher, scanned.jobs, hashWorkers, hashActions, HashState(IDLE, scanned.entries), hashed)
    requires hashed.pool.Final(|scanned.jobs|)
    ensures hashed.entries == SequentialResult(WalkScanner(Uncached(options), tree), hasher, roots)
  {
    hide *;
    StampedIsFresh(options, hasher, hash, tree, roots);
    FreshParallelScan(options, hasher, tree, roots, scanWorkers, scanActions, scanned, hashWorkers, hashActions,
                      hashed);
  }

  lemma SameScans(a: Scan, b: Scan)
    requires forall k :: Get(a, k) == Get(b, k)
    ensures a == b
  {
    forall k ensures k in a <==> k in b
      ensures k in a ==> a[k] == b[k]
    {
      assert Get(a, k) == Get(b, k);
    }
  }
}
