/**
 Compare of internal/pkg/overlaydiff/diff.go: the changes between two scanned
 trees, and what applying them to the baseline gives.
 */
module OverlayCompare {
  import opened Text

  datatype EntryType = EntryFile | EntryDir | EntrySymlink

  /** One scanned filesystem object. */
  datatype Entry = Entry(kind: EntryType, mode: nat, size: nat, mtime: int, inode: nat, device: nat,
                         hash: string, linkTarget: string)

  type Scan = map<string, Entry>

  datatype ChangeType = Added | Removed | Modified | ModeChanged | TypeChanged

  datatype Change = Change(path: string, change: ChangeType, kind: EntryType, mode: nat, size: nat,
                           source: Option<Entry>, baseline: Option<Entry>)

  predicate EntryModified(source: Entry, baseline: Entry) {
    match source.kind
    case EntryFile => source.hash != baseline.hash
    case EntrySymlink => source.linkTarget != baseline.linkTarget
    case EntryDir => false
  }

  function NewChange(path: string, change: ChangeType, source: Option<Entry>, baseline: Option<Entry>): Change
    requires source.Some? || baseline.Some?
  {
    var e := if source.Some? then source.value else baseline.value;
    Change(path, change, e.kind, e.mode, e.size, source, baseline)
  }

  function Get(m: Scan, key: string): Option<Entry> {
    if key in m then Some(m[key]) else None
  }

  /** The change the two loops of Compare make for one key, if any. */
  function ChangeAt(source: Scan, baseline: Scan, key: string): (c: Option<Change>)
    ensures c.Some? ==> c.value.path == key
  {
    match (Get(source, key), Get(baseline, key))
    case (None, None) => None
    case (None, Some(base)) => Some(NewChange(key, Removed, None, Some(base)))
    case (Some(src), None) => Some(NewChange(key, Added, Some(src), None))
    case (Some(src), Some(base)) =>
      if src.kind != base.kind then Some(NewChange(key, TypeChanged, Some(src), Some(base)))
      else if EntryModified(src, base) then Some(NewChange(key, Modified, Some(src), Some(base)))
      else if src.mode != base.mode then Some(NewChange(key, ModeChanged, Some(src), Some(base)))
      else None
  }

  /** Equal in type, in content hash or link target, and in mode. */
  predicate Agree(a: Entry, b: Entry) {
    && a.kind == b.kind && a.mode == b.mode
    && (a.kind == EntryFile ==> a.hash == b.hash)
    && (a.kind == EntrySymlink ==> a.linkTarget == b.linkTarget)
  }

  predicate AgreeAt(a: Option<Entry>, b: Option<Entry>) {
    match (a, b)
    case (None, None) => true
    case (Some(x), Some(y)) => Agree(x, y)
    case _ => false
  }

  /** The result of Compare: one change per differing key, in path order. */
  ghost predicate Compared(source: Scan, baseline: Scan, changes: seq<Change>) {
    && (forall i, j :: 0 <= i < j < |changes| ==>
          changes[i].path != changes[j].path && StringLe(changes[i].path, changes[j].path))
    && (forall c :: c in changes <==> ChangeAt(source, baseline, c.path) == Some(c))
  }

  /** The changes of every key that is no longer pending, in any order. */
  ghost predicate Collected(source: Scan, baseline: Scan, pending: set<string>, changes: seq<Change>) {
    && (forall i, j :: 0 <= i < j < |changes| ==> changes[i].path != changes[j].path)
    && (forall c :: c in changes <==> c.path !in pending && ChangeAt(source, baseline, c.path) == Some(c))
  }

  lemma CollectedStep(source: Scan, baseline: Scan, pending: set<string>, changes: seq<Change>, key: string)
    requires Collected(source, baseline, pending, changes) && key in pending
    ensures var c := ChangeAt(source, baseline, key);
            Collected(source, baseline, pending - {key}, if c.Some? then changes + [c.value] else changes)
  {
    hide ChangeAt;
    var c := ChangeAt(source, baseline, key);
    ChangePath(source, baseline, key);
    if c.Some? {
      var now := changes + [c.value];
      forall i, j | 0 <= i < j < |now| ensures now[i].path != now[j].path {
        assert changes[i] in changes;
      }
    }
  }

  /** The body of the loop over the source. */
  method ChangeForSource(source: Scan, baseline: Scan, key: string) returns (c: Option<Change>)
    requires key in source
    ensures c == ChangeAt(source, baseline, key)
  {
    var src := source[key];
    if key !in baseline {
      return Some(NewChange(key, Added, Some(src), None));
    }
    var base := baseline[key];
    if src.kind != base.kind {
      return Some(NewChange(key, TypeChanged, Some(src), Some(base)));
    }
    if EntryModified(src, base) {
      return Some(NewChange(key, Modified, Some(src), Some(base)));
    }
    if src.mode != base.mode {
      return Some(NewChange(key, ModeChanged, Some(src), Some(base)));
    }
    return None;
  }

  lemma RemovedAt(source: Scan, baseline: Scan, key: string)
    requires key in baseline && key !in source
    ensures ChangeAt(source, baseline, key) == Some(NewChange(key, Removed, None, Some(baseline[key])))
  {
  }

  method Compare(source: Scan, baseline: Scan) returns (changes: seq<Change>)
    ensures Compared(source, baseline, changes)
    ensures forall i, j :: 0 <= i < j < |changes| ==>
              changes[i].path != changes[j].path && StringLe(changes[i].path, changes[j].path)
  {
    hide *;
    changes := [];
    ghost var pending := source.Keys + baseline.Keys;
    CollectedNone(source, baseline);
    var todo := source.Keys;
    while todo != {}
      invariant forall k :: k in todo ==> k in source
      invariant forall k :: k in pending <==> k in todo || (k in baseline && k !in source)
      invariant Collected(source, baseline, pending, changes)
      decreases |todo|
    {
      var key :| key in todo;
      CollectedStep(source, baseline, pending, changes, key);
      var c := ChangeForSource(source, baseline, key);
      changes := if c.Some? then changes + [c.value] else changes;
      todo, pending := todo - {key}, pending - {key};
    }
    todo := baseline.Keys;
    while todo != {}
      invariant forall k :: k in todo ==> k in baseline
      invariant forall k :: k in pending <==> k in todo && k !in source
      invariant Collected(source, baseline, pending, changes)
      decreases |todo|
    {
      var key :| key in todo;
      todo := todo - {key};
      if key in source {
        continue;
      }
      CollectedStep(source, baseline, pending, changes, key);
      RemovedAt(source, baseline, key);
      changes := changes + [NewChange(key, Removed, None, Some(baseline[key]))];
      pending := pending - {key};
    }
    CollectedSorts(source, baseline, pending, changes);
    changes := SortBy(ByPath(), changes);
    ComparedSorted(source, baseline, changes);
  }

  lemma ComparedSorted(source: Scan, baseline: Scan, changes: seq<Change>)
    requires Compared(source, baseline, changes)
    ensures forall i, j :: 0 <= i < j < |changes| ==>
              changes[i].path != changes[j].path && StringLe(changes[i].path, changes[j].path)
  {
  }

  lemma CollectedNone(source: Scan, baseline: Scan)
    ensures Collected(source, baseline, source.Keys + baseline.Keys, [])
  {
  }

  /** The order of `sort.Slice` in Compare. */
  function ByPath(): (Change, Change) -> bool {
    (a: Change, b: Change) => StringLe(a.path, b.path)
  }

  lemma CollectedSorts(source: Scan, baseline: Scan, pending: set<string>, changes: seq<Change>)
    requires Collected(source, baseline, pending, changes) && forall k :: k !in pending
    ensures Compared(source, baseline, SortBy(ByPath(), changes))
  {
    hide SortBy, ChangeAt, StringLe;
    var r := SortBy(ByPath(), changes);
    StringOrdering();
    assert Ordering(ByPath()) by {
      assert forall a, b :: ByPath()(a, b) <==> ByString()(a.path, b.path);
    }
    SortBySorted(ByPath(), changes);
    SortByDistinct(ByPath(), (c: Change) => c.path, changes);
    assert SortedBy(ByPath(), r) && KeysDistinct((c: Change) => c.path, r);
    forall i, j | 0 <= i < j < |r| ensures r[i].path != r[j].path && StringLe(r[i].path, r[j].path) {
      assert ByPath()(r[i], r[j]);
    }
    forall c ensures c in r <==> c in changes {
      SortByMembers(ByPath(), changes, c);
    }
  }

  // ----- Applying the changes ------------------------------------------------

  /** What a change does to the entry at its path, from its own recorded data. */
  function ApplyTo(was: Option<Entry>, c: Change): Option<Entry> {
    match c.change
    case Removed => None
    case Added => c.source
    case TypeChanged => c.source
    case Modified =>
      if was.Some? && c.source.Some?
      then Some(was.value.(hash := c.source.value.hash, linkTarget := c.source.value.linkTarget, mode := c.mode))
      else was
    case ModeChanged => if was.Some? then Some(was.value.(mode := c.mode)) else was
  }

  function Put(m: Scan, key: string, e: Option<Entry>): Scan {
    if e.Some? then m[key := e.value] else m - {key}
  }

  function ApplyAll(m: Scan, changes: seq<Change>): Scan
    decreases |changes|
  {
    if changes == [] then m
    else
      var c := changes[0];
      ApplyAll(Put(m, c.path, ApplyTo(Get(m, c.path), c)), changes[1..])
  }

  /** With distinct paths, each change acts alone on its own path. */
  lemma {:induction false} ApplyAllAt(m: Scan, changes: seq<Change>, key: string)
    requires forall i, j :: 0 <= i < j < |changes| ==> changes[i].path != changes[j].path
    ensures (forall c :: c in changes ==> c.path != key) ==> Get(ApplyAll(m, changes), key) == Get(m, key)
    ensures forall c :: c in changes && c.path == key ==> Get(ApplyAll(m, changes), key) == ApplyTo(Get(m, key), c)
    decreases |changes|
  {
    hide ApplyTo;
    if changes != [] {
      var c := changes[0];
      var next := Put(m, c.path, ApplyTo(Get(m, c.path), c));
      ApplyAllAt(next, changes[1..], key);
      forall d | d in changes[1..] ensures d.path != c.path && d in changes {
        var j :| 0 <= j < |changes[1..]| && changes[1..][j] == d;
        assert changes[j + 1] == d;
      }
      assert forall d :: d in changes <==> d == c || d in changes[1..];
    }
  }

  /** Applying the change of a key, or nothing, makes the key agree with the source. */
  lemma ApplyAtAgrees(source: Scan, baseline: Scan, key: string)
    ensures var c := ChangeAt(source, baseline, key);
            AgreeAt(if c.Some? then ApplyTo(Get(baseline, key), c.value) else Get(baseline, key), Get(source, key))
    ensures ChangeAt(source, baseline, key).None? <==> AgreeAt(Get(source, key), Get(baseline, key))
  {
  }

  /** The changes turn the baseline into the source, as far as a diff can see. */
  lemma CompareThenApply(source: Scan, baseline: Scan, changes: seq<Change>)
    requires Compared(source, baseline, changes)
    ensures var result := ApplyAll(baseline, changes);
            && result.Keys == source.Keys
            && forall k :: k in source ==>
                 && result[k].kind == source[k].kind && result[k].mode == source[k].mode
                 && (source[k].kind == EntryFile ==> result[k].hash == source[k].hash)
                 && (source[k].kind == EntrySymlink ==> result[k].linkTarget == source[k].linkTarget)
  {
    hide ApplyAll, ApplyTo, ChangeAt;
    var result := ApplyAll(baseline, changes);
    forall k ensures AgreeAt(Get(result, k), Get(source, k)) {
      ApplyAllAt(baseline, changes, k);
      ApplyAtAgrees(source, baseline, k);
      var c := ChangeAt(source, baseline, k);
      if c.Some? {
        ChangePath(source, baseline, k);
        assert c.value in changes;
      }
    }
    assert forall k :: AgreeAt(Get(result, k), Get(source, k)) ==> (k in result <==> k in source);
  }

  lemma ChangePath(source: Scan, baseline: Scan, key: string)
    ensures ChangeAt(source, baseline, key).Some? ==> ChangeAt(source, baseline, key).value.path == key
  {
  }

  /** What each listed change says, in terms of the two trees alone. */
  lemma ChangeMeans(source: Scan, baseline: Scan, changes: seq<Change>, c: Change)
    requires Compared(source, baseline, changes) && c in changes
    ensures c.source == Get(source, c.path) && c.baseline == Get(baseline, c.path)
    ensures c.path in source || c.path in baseline
    ensures var e := if c.path in source then source[c.path] else baseline[c.path];
            c.kind == e.kind && c.mode == e.mode && c.size == e.size
    ensures c.change == Added <==> c.path !in baseline
    ensures c.change == Removed <==> c.path !in source
    ensures c.path in source && c.path in baseline ==>
              var a, b := source[c.path], baseline[c.path];
              var same := (a.kind == EntryFile ==> a.hash == b.hash) &&
                          (a.kind == EntrySymlink ==> a.linkTarget == b.linkTarget);
              && (c.change == TypeChanged <==> a.kind != b.kind)
              && (c.change == ModeChanged <==> a.kind == b.kind && same && a.mode != b.mode)
              && (c.change == Modified <==> a.kind == b.kind && !same)
  {
    assert ChangeAt(source, baseline, c.path) == Some(c);
  }

  /**
   A path is listed if and only if it is in one tree only, or its two entries differ in
   type or mode, in their hash as files, or in their target as links.
   */
  lemma ListedIff(source: Scan, baseline: Scan, changes: seq<Change>, key: string)
    requires Compared(source, baseline, changes)
    ensures (exists c :: c in changes && c.path == key) <==>
            if key in source && key in baseline
            then || source[key].kind != baseline[key].kind || source[key].mode != baseline[key].mode
                 || (source[key].kind == EntryFile && source[key].hash != baseline[key].hash)
                 || (source[key].kind == EntrySymlink && source[key].linkTarget != baseline[key].linkTarget)
            else key in source || key in baseline
  {
    ApplyAtAgrees(source, baseline, key);
    ChangePath(source, baseline, key);
    var c := ChangeAt(source, baseline, key);
    if c.Some? { assert c.value in changes; }
  }

  /** The list is empty exactly when the two trees already agree. */
  lemma CompareEmptyIff(source: Scan, baseline: Scan, changes: seq<Change>)
    requires Compared(source, baseline, changes)
    ensures changes == [] <==>
            && source.Keys == baseline.Keys
            && forall k :: k in source ==>
                 && source[k].kind == baseline[k].kind && source[k].mode == baseline[k].mode
                 && (source[k].kind == EntryFile ==> source[k].hash == baseline[k].hash)
                 && (source[k].kind == EntrySymlink ==> source[k].linkTarget == baseline[k].linkTarget)
  {
    hide ChangeAt;
    forall k
      ensures ChangeAt(source, baseline, k).None? <==> AgreeAt(Get(source, k), Get(baseline, k))
      ensures ChangeAt(source, baseline, k).Some? ==> ChangeAt(source, baseline, k).value in changes
    {
      ApplyAtAgrees(source, baseline, k);
      ChangePath(source, baseline, k);
    }
    if changes == [] {
      assert forall k :: AgreeAt(Get(source, k), Get(baseline, k)) ==> (k in source <==> k in baseline);
    } else {
      var k := changes[0].path;
      assert changes[0] in changes;
      assert !AgreeAt(Get(source, k), Get(baseline, k));
    }
  }
}
