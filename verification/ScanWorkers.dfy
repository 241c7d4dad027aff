/**
 The goroutines of scanIncludedRoots and populateFileHashes
 (internal/pkg/overlaydiff/diff.go) as step systems. Every interleaving that meets
 no fatal error ends with the entry map of one sequential pass.
 */
module ScanWorkers {
  import opened Text
  import opened OverlayCompare
  import opened ScanIncludes

  /** What one worker finds below one root: entries, and the files still to be hashed. */
  datatype Local = Local(entries: Scan, jobs: seq<string>)

  /** `None` for a root that is missing, unreadable or not a directory. */
  type Scanner = string -> Option<Local>

  /** What the paths below a root start with, before their first own slash. */
  function Base(root: string): string {
    if root == "/" then "" else root
  }

  /** Roots that see no path twice: an antichain, and "/" only by itself, since the prefix test does not know it. */
  ghost predicate Disjoint(roots: seq<string>) {
    Antichain(roots) && ("/" in roots ==> |roots| == 1)
  }

  /** What `DedupeTopLevelIncludes` keeps is disjoint, if "/" is not given together with other roots. */
  lemma KeptDisjoint(kept: seq<string>, given: seq<string>)
    requires Antichain(kept) && (forall r :: r in kept ==> r in given)
    requires "/" in given ==> forall g :: g in given ==> g == "/"
    ensures Disjoint(kept)
  {
    assert |kept| > 1 ==> kept[0] != kept[1] && kept[0] in kept && kept[1] in kept;
  }

  /** A walk records only paths strictly below its root, and one job per file. */
  ghost predicate WalksBelow(scanner: Scanner, root: string) {
    scanner(root).Some? ==>
      && (forall k :: k in scanner(root).value.entries ==> Below(k, Base(root)))
      && (forall j :: j in scanner(root).value.jobs ==> j in scanner(root).value.entries)
      && Distinct(scanner(root).value.jobs)
  }

  // ----- A pool of workers over numbered tasks -------------------------------

  datatype Action = Take | Finish(task: nat)

  /** Tasks handed out so far, and those some worker still holds. */
  datatype Pool = Pool(next: nat, busy: set<nat>) {
    ghost predicate Done(i: int) { 0 <= i < next && i !in busy }
    ghost predicate Final(tasks: nat) { next == tasks && busy == {} }
    ghost predicate Valid(tasks: nat) { next <= tasks && forall i :: i in busy ==> i < next }

    /** An idle worker receives the next task; a busy one completes its own. */
    ghost predicate Enabled(tasks: nat, workers: nat, a: Action) {
      match a
      case Take => next < tasks && |busy| < workers
      case Finish(i) => i in busy
    }

    function Step(a: Action): Pool {
      match a
      case Take => Pool(next + 1, busy + {next})
      case Finish(i) => Pool(next, busy - {i})
    }

    /** What is still to happen. */
    function Measure(tasks: nat): int {
      2 * (tasks - next) + |busy|
    }
  }

  /** With a worker the pool is never stuck, and every step brings it closer to the end. */
  lemma PoolProgress(pool: Pool, tasks: nat, workers: nat)
    requires pool.Valid(tasks) && workers >= 1
    ensures pool.Final(tasks) || exists a :: pool.Enabled(tasks, workers, a)
    ensures forall a :: pool.Enabled(tasks, workers, a) ==>
              pool.Step(a).Valid(tasks) && 0 <= pool.Step(a).Measure(tasks) < pool.Measure(tasks)
  {
    if !pool.Final(tasks) {
      if pool.busy == {} {
        assert pool.Enabled(tasks, workers, Take);
      } else {
        var i :| i in pool.busy;
        assert pool.Enabled(tasks, workers, Finish(i));
      }
    }
    forall a | pool.Enabled(tasks, workers, a)
      ensures pool.Step(a).Valid(tasks) && 0 <= pool.Step(a).Measure(tasks) < pool.Measure(tasks)
    {
      if a.Take? { assert pool.next !in pool.busy; }
    }
  }

  // ----- Scanning ------------------------------------------------------------

  datatype ScanState = ScanState(pool: Pool, entries: Scan, jobs: seq<string>)

  function ScanStep(scanner: Scanner, roots: seq<string>, s: ScanState, a: Action): ScanState {
    var pool := s.pool.Step(a);
    if a.Finish? && a.task < |roots| && scanner(roots[a.task]).Some? then
      var found := scanner(roots[a.task]).value;
      ScanState(pool, s.entries + found.entries, s.jobs + found.jobs)
    else s.(pool := pool)
  }

  /** A run: every action enabled where it is taken. */
  ghost predicate ScanRun(scanner: Scanner, roots: seq<string>, workers: nat, actions: seq<Action>, s: ScanState,
                          t: ScanState)
    decreases |actions|
  {
    if actions == [] then s == t
    else s.pool.Enabled(|roots|, workers, actions[0]) &&
         ScanRun(scanner, roots, workers, actions[1..], ScanStep(scanner, roots, s, actions[0]), t)
  }

  ghost predicate FoundBy(scanner: Scanner, root: string, key: string) {
    scanner(root).Some? && key in scanner(root).value.entries
  }

  ghost predicate JobOf(scanner: Scanner, root: string, job: string) {
    scanner(root).Some? && job in scanner(root).value.jobs
  }

  /** The entries and jobs are exactly those of the roots that are done. */
  ghost predicate Gathered(scanner: Scanner, roots: seq<string>, done: int -> bool, entries: Scan, jobs: seq<string>) {
    && Distinct(jobs)
    && (forall k :: k in entries ==> exists i :: 0 <= i < |roots| && done(i) && FoundBy(scanner, roots[i], k))
    && (forall i, k :: 0 <= i < |roots| && done(i) && FoundBy(scanner, roots[i], k) ==>
          k in entries && entries[k] == scanner(roots[i]).value.entries[k])
    && (forall j :: j in jobs <==> exists i :: 0 <= i < |roots| && done(i) && JobOf(scanner, roots[i], j))
  }

  /** Roots that pass `DedupeTopLevelIncludes` never see the same path. */
  lemma OneFinder(scanner: Scanner, roots: seq<string>, i: nat, j: nat, k: string)
    requires Disjoint(roots) && i < |roots| && j < |roots|
    requires WalksBelow(scanner, roots[i]) && WalksBelow(scanner, roots[j])
    requires FoundBy(scanner, roots[i], k) && FoundBy(scanner, roots[j], k)
    ensures i == j
  {
    assert roots[i] in roots && roots[j] in roots;
    if roots[i] != "/" && roots[j] != "/" {
      BelowBoth(k, roots[i], roots[j]);
      hide Below;
    }
  }

  lemma GatherOne(scanner: Scanner, roots: seq<string>, done: int -> bool, entries: Scan, jobs: seq<string>, n: nat,
                  done': int -> bool)
    requires Disjoint(roots) && (forall r :: r in roots ==> WalksBelow(scanner, r)) && n < |roots|
    requires Gathered(scanner, roots, done, entries, jobs) && !done(n)
    requires forall i :: done'(i) <==> done(i) || i == n
    ensures scanner(roots[n]).None? ==> Gathered(scanner, roots, done', entries, jobs)
    ensures scanner(roots[n]).Some? ==>
              Gathered(scanner, roots, done', entries + scanner(roots[n]).value.entries,
                       jobs + scanner(roots[n]).value.jobs)
  {
    if scanner(roots[n]).Some? {
      var found := scanner(roots[n]).value;
      assert WalksBelow(scanner, roots[n]);
      forall i, k | 0 <= i < |roots| && done(i) && FoundBy(scanner, roots[i], k) ensures k !in found.entries {
        if k in found.entries {
          assert WalksBelow(scanner, roots[i]);
          OneFinder(scanner, roots, i, n, k);
        }
      }
      GatherJobs(scanner, roots, done, jobs, n);
      GatherEntries(scanner, roots, done, entries, n, done');
      hide WalksBelow;
    }
  }

  lemma GatherEntries(scanner: Scanner, roots: seq<string>, done: int -> bool, entries: Scan, n: nat,
                      done': int -> bool)
    requires n < |roots| && scanner(roots[n]).Some? && forall i :: done'(i) <==> done(i) || i == n
    requires forall k :: k in entries ==> exists i :: 0 <= i < |roots| && done(i) && FoundBy(scanner, roots[i], k)
    requires forall i, k :: 0 <= i < |roots| && done(i) && FoundBy(scanner, roots[i], k) ==>
               k in entries && entries[k] == scanner(roots[i]).value.entries[k] && k !in scanner(roots[n]).value.entries
    ensures var all := entries + scanner(roots[n]).value.entries;
            && (forall k :: k in all ==> exists i :: 0 <= i < |roots| && done'(i) && FoundBy(scanner, roots[i], k))
            && (forall i, k :: 0 <= i < |roots| && done'(i) && FoundBy(scanner, roots[i], k) ==>
                  k in all && all[k] == scanner(roots[i]).value.entries[k])
  {
    var found := scanner(roots[n]).value.entries;
    forall k | k in entries + found ensures exists i :: 0 <= i < |roots| && done'(i) && FoundBy(scanner, roots[i], k) {
      if k in found {
        assert done'(n) && FoundBy(scanner, roots[n], k);
      } else {
        var i :| 0 <= i < |roots| && done(i) && FoundBy(scanner, roots[i], k);
        assert done'(i);
      }
    }
  }

  lemma GatherJobs(scanner: Scanner, roots: seq<string>, done: int -> bool, jobs: seq<string>, n: nat)
    requires n < |roots| && scanner(roots[n]).Some? && Distinct(jobs)
    requires forall r :: r in roots ==> WalksBelow(scanner, r)
    requires forall j :: j in jobs <==> exists i :: 0 <= i < |roots| && done(i) && JobOf(scanner, roots[i], j)
    requires forall i, k :: 0 <= i < |roots| && done(i) && FoundBy(scanner, roots[i], k) ==>
               k !in scanner(roots[n]).value.entries
    ensures Distinct(jobs + scanner(roots[n]).value.jobs)
  {
    var found := scanner(roots[n]).value;
    assert WalksBelow(scanner, roots[n]);
    forall j | j in jobs ensures j !in found.jobs {
      var i :| 0 <= i < |roots| && done(i) && JobOf(scanner, roots[i], j);
      assert roots[i] in roots && WalksBelow(scanner, roots[i]);
      assert FoundBy(scanner, roots[i], j);
    }
    var all := jobs + found.jobs;
    forall a, b | 0 <= a < b < |all| ensures all[a] != all[b] {
      if a < |jobs| <= b {
        assert jobs[a] in jobs && found.jobs[b - |jobs|] in found.jobs;
      }
    }
  }

  ghost predicate ScanInv(scanner: Scanner, roots: seq<string>, s: ScanState) {
    s.pool.Valid(|roots|) && Gathered(scanner, roots, i => s.pool.Done(i), s.entries, s.jobs)
  }

  lemma GatheredSame(scanner: Scanner, roots: seq<string>, done: int -> bool, done': int -> bool, entries: Scan,
                     jobs: seq<string>)
    requires Gathered(scanner, roots, done, entries, jobs) && forall i :: 0 <= i < |roots| ==> done(i) == done'(i)
    ensures Gathered(scanner, roots, done', entries, jobs)
  {
  }

  lemma ScanStepInv(scanner: Scanner, roots: seq<string>, workers: nat, s: ScanState, a: Action)
    requires Disjoint(roots) && forall r :: r in roots ==> WalksBelow(scanner, r)
    requires ScanInv(scanner, roots, s) && s.pool.Enabled(|roots|, workers, a)
    ensures ScanInv(scanner, roots, ScanStep(scanner, roots, s, a))
  {
    var t := ScanStep(scanner, roots, s, a);
    hide Gathered, Disjoint, WalksBelow;
    if a.Finish? {
      GatherOne(scanner, roots, i => s.pool.Done(i), s.entries, s.jobs, a.task, i => t.pool.Done(i));
    } else {
      GatheredSame(scanner, roots, i => s.pool.Done(i), i => t.pool.Done(i), s.entries, s.jobs);
    }
  }

  lemma {:induction false} ScanRunInv(scanner: Scanner, roots: seq<string>, workers: nat, actions: seq<Action>,
                                      s: ScanState, t: ScanState)
    requires Disjoint(roots) && forall r :: r in roots ==> WalksBelow(scanner, r)
    requires ScanInv(scanner, roots, s) && ScanRun(scanner, roots, workers, actions, s, t)
    ensures ScanInv(scanner, roots, t)
    decreases |actions|
  {
    hide ScanInv, ScanStep, Disjoint, WalksBelow;
    if actions != [] {
      ScanStepInv(scanner, roots, workers, s, actions[0]);
      ScanRunInv(scanner, roots, workers, actions[1..], ScanStep(scanner, roots, s, actions[0]), t);
    }
  }

  // ----- The sequential pass -------------------------------------------------

  /** One goroutine visiting the first `n` roots in order. */
  function SequentialScan(scanner: Scanner, roots: seq<string>, n: nat): Local
    requires n <= |roots|
  {
    if n == 0 then Local(map[], [])
    else
      var before := SequentialScan(scanner, roots, n - 1);
      match scanner(roots[n - 1])
      case None => before
      case Some(found) => Local(before.entries + found.entries, before.jobs + found.jobs)
  }

  lemma {:induction false} SequentialGathers(scanner: Scanner, roots: seq<string>, n: nat)
    requires Disjoint(roots) && (forall r :: r in roots ==> WalksBelow(scanner, r)) && n <= |roots|
    ensures var all := SequentialScan(scanner, roots, n);
            Gathered(scanner, roots, i => 0 <= i < n, all.entries, all.jobs)
  {
    hide Disjoint, WalksBelow;
    if n > 0 {
      SequentialGathers(scanner, roots, n - 1);
      var before := SequentialScan(scanner, roots, n - 1);
      hide Gathered;
      GatherOne(scanner, roots, i => 0 <= i < n - 1, before.entries, before.jobs, n - 1, i => 0 <= i < n);
    }
  }

  /** What is gathered from all roots does not depend on the order. */
  lemma GatheredUnique(scanner: Scanner, roots: seq<string>, done: int -> bool, e1: Scan, j1: seq<string>, e2: Scan,
                       j2: seq<string>)
    requires Gathered(scanner, roots, done, e1, j1) && Gathered(scanner, roots, done, e2, j2)
    ensures e1 == e2 && forall j :: j in j1 <==> j in j2
  {
    hide FoundBy, JobOf, Distinct;
    forall k | k in e1 ensures k in e2 && e2[k] == e1[k] {
      var i :| 0 <= i < |roots| && done(i) && FoundBy(scanner, roots[i], k);
    }
    forall k | k in e2 ensures k in e1 {
      var i :| 0 <= i < |roots| && done(i) && FoundBy(scanner, roots[i], k);
    }
  }

  const IDLE: Pool := Pool(0, {})

  /** Every complete run of the scan workers finds what the sequential scan finds. */
  lemma ScanIsSequential(scanner: Scanner, roots: seq<string>, workers: nat, actions: seq<Action>, t: ScanState)
    requires Disjoint(roots) && forall r :: r in roots ==> WalksBelow(scanner, r)
    requires ScanRun(scanner, roots, workers, actions, ScanState(IDLE, map[], []), t) && t.pool.Final(|roots|)
    ensures var all := SequentialScan(scanner, roots, |roots|);
            && t.entries == all.entries
            && Distinct(t.jobs) && Distinct(all.jobs) && forall j :: j in t.jobs <==> j in all.jobs
  {
    hide Disjoint, WalksBelow, ScanRun, SequentialScan;
    var start := ScanState(IDLE, map[], []);
    assert ScanInv(scanner, roots, start);
    ScanRunInv(scanner, roots, workers, actions, start, t);
    SequentialGathers(scanner, roots, |roots|);
    var all := SequentialScan(scanner, roots, |roots|);
    GatheredSame(scanner, roots, i => t.pool.Done(i), i => 0 <= i < |roots|, t.entries, t.jobs);
    GatheredUnique(scanner, roots, i => 0 <= i < |roots|, t.entries, t.jobs, all.entries, all.jobs);
  }

  // ----- Hashing -------------------------------------------------------------

  /** The hash of a file, or `None` when it vanished or became unreadable. */
  type Hasher = string -> Option<string>

  const ZERO_ENTRY: Entry := Entry(EntryFile, 0, 0, 0, 0, 0, "", "")

  /** One job under the mutex: store the hash, or drop the entry. */
  function HashOne(hasher: Hasher, entries: Scan, path: string): Scan {
    match hasher(path)
    case None => entries - {path}
    case Some(h) => entries[path := (if path in entries then entries[path] else ZERO_ENTRY).(hash := h)]
  }

  datatype HashState = HashState(pool: Pool, entries: Scan)

  function HashStep(hasher: Hasher, jobs: seq<string>, s: HashState, a: Action): HashState {
    var pool := s.pool.Step(a);
    if a.Finish? && a.task < |jobs| then HashState(pool, HashOne(hasher, s.entries, jobs[a.task])) else s.(pool := pool)
  }

  ghost predicate HashRun(hasher: Hasher, jobs: seq<string>, workers: nat, actions: seq<Action>, s: HashState,
                          t: HashState)
    decreases |actions|
  {
    if actions == [] then s == t
    else s.pool.Enabled(|jobs|, workers, actions[0]) &&
         HashRun(hasher, jobs, workers, actions[1..], HashStep(hasher, jobs, s, actions[0]), t)
  }

  /** The entry at a path once its own job, if any, has run. */
  function HashedAt(hasher: Hasher, initial: Scan, path: string, ran: bool): Option<Entry> {
    if ran then Get(HashOne(hasher, initial, path), path) else Get(initial, path)
  }

  ghost predicate Hashed(hasher: Hasher, initial: Scan, ran: string -> bool, entries: Scan) {
    forall k :: Get(entries, k) == HashedAt(hasher, initial, k, ran(k))
  }

  lemma HashOneStep(hasher: Hasher, initial: Scan, ran: string -> bool, entries: Scan, path: string,
                    ran': string -> bool)
    requires Hashed(hasher, initial, ran, entries) && !ran(path) && forall k :: ran'(k) <==> ran(k) || k == path
    ensures Hashed(hasher, initial, ran', HashOne(hasher, entries, path))
  {
    assert Get(entries, path) == Get(initial, path);
    forall k ensures Get(HashOne(hasher, entries, path), k) == HashedAt(hasher, initial, k, ran'(k)) {
      assert Get(entries, k) == HashedAt(hasher, initial, k, ran(k));
    }
  }

  ghost predicate RanJob(jobs: seq<string>, pool: Pool, path: string) {
    exists i :: 0 <= i < |jobs| && pool.Done(i) && jobs[i] == path
  }

  ghost predicate HashInv(hasher: Hasher, jobs: seq<string>, initial: Scan, s: HashState) {
    s.pool.Valid(|jobs|) && Hashed(hasher, initial, k => RanJob(jobs, s.pool, k), s.entries)
  }

  lemma HashedSame(hasher: Hasher, initial: Scan, ran: string -> bool, ran': string -> bool, entries: Scan)
    requires Hashed(hasher, initial, ran, entries) && forall k :: ran(k) == ran'(k)
    ensures Hashed(hasher, initial, ran', entries)
  {
  }

  lemma HashStepInv(hasher: Hasher, jobs: seq<string>, workers: nat, initial: Scan, s: HashState, a: Action)
    requires Distinct(jobs) && HashInv(hasher, jobs, initial, s) && s.pool.Enabled(|jobs|, workers, a)
    ensures HashInv(hasher, jobs, initial, HashStep(hasher, jobs, s, a))
  {
    var t := HashStep(hasher, jobs, s, a);
    hide Hashed, HashOne;
    RanStep(jobs, s.pool, workers, a);
    if a.Finish? {
      HashOneStep(hasher, initial, k => RanJob(jobs, s.pool, k), s.entries, jobs[a.task], k => RanJob(jobs, t.pool, k));
    } else {
      HashedSame(hasher, initial, k => RanJob(jobs, s.pool, k), k => RanJob(jobs, t.pool, k), s.entries);
    }
  }

  lemma RanStep(jobs: seq<string>, pool: Pool, workers: nat, a: Action)
    requires Distinct(jobs) && pool.Valid(|jobs|) && pool.Enabled(|jobs|, workers, a)
    ensures a.Take? ==> forall k :: RanJob(jobs, pool.Step(a), k) <==> RanJob(jobs, pool, k)
    ensures a.Finish? ==>
              && a.task < |jobs| && !RanJob(jobs, pool, jobs[a.task])
              && forall k :: RanJob(jobs, pool.Step(a), k) <==> RanJob(jobs, pool, k) || k == jobs[a.task]
  {
    var next := pool.Step(a);
    assert forall i: int :: a.Take? ==> (next.Done(i) <==> pool.Done(i));
    assert forall i: int :: a.Finish? ==> (next.Done(i) <==> pool.Done(i) || i == a.task);
    if a.Finish? { assert next.Done(a.task); }
  }

  lemma {:induction false} HashRunInv(hasher: Hasher, jobs: seq<string>, workers: nat, initial: Scan,
                                      actions: seq<Action>, s: HashState, t: HashState)
    requires Distinct(jobs) && HashInv(hasher, jobs, initial, s) && HashRun(hasher, jobs, workers, actions, s, t)
    ensures HashInv(hasher, jobs, initial, t)
    decreases |actions|
  {
    hide HashInv, HashStep;
    if actions != [] {
      HashStepInv(hasher, jobs, workers, initial, s, actions[0]);
      HashRunInv(hasher, jobs, workers, initial, actions[1..], HashStep(hasher, jobs, s, actions[0]), t);
    }
  }

  /** One goroutine running the first `n` jobs in order. */
  function SequentialHash(hasher: Hasher, entries: Scan, jobs: seq<string>, n: nat): Scan
    requires n <= |jobs|
  {
    if n == 0 then entries else HashOne(hasher, SequentialHash(hasher, entries, jobs, n - 1), jobs[n - 1])
  }

  lemma {:induction false} SequentialHashes(hasher: Hasher, entries: Scan, jobs: seq<string>, n: nat)
    requires n <= |jobs| && Distinct(jobs)
    ensures Hashed(hasher, entries, k => k in jobs[..n], SequentialHash(hasher, entries, jobs, n))
  {
    if n > 0 {
      SequentialHashes(hasher, entries, jobs, n - 1);
      hide Hashed, HashOne;
      assert jobs[..n] == jobs[..n - 1] + [jobs[n - 1]];
      HashOneStep(hasher, entries, k => k in jobs[..n - 1], SequentialHash(hasher, entries, jobs, n - 1), jobs[n - 1],
                  k => k in jobs[..n]);
    }
  }

  lemma HashedUnique(hasher: Hasher, initial: Scan, ran: string -> bool, e1: Scan, e2: Scan)
    requires Hashed(hasher, initial, ran, e1) && Hashed(hasher, initial, ran, e2)
    ensures e1 == e2
  {
    forall k ensures k in e1 <==> k in e2
      ensures k in e1 ==> e1[k] == e2[k]
    {
      assert Get(e1, k) == Get(e2, k);
    }
  }

  /** The entry map of a scan done by one goroutine. */
  function SequentialResult(scanner: Scanner, hasher: Hasher, roots: seq<string>): Scan {
    var found := SequentialScan(scanner, roots, |roots|);
    SequentialHash(hasher, found.entries, found.jobs, |found.jobs|)
  }

  /**
   The parallel scan followed by the parallel hashing, in any interleaving of
   either pool, ends with the entry map of the sequential pass.
   */
  lemma ParallelIsSequential(scanner: Scanner, hasher: Hasher, roots: seq<string>,
                             scanWorkers: nat, scanActions: seq<Action>, scanned: ScanState,
                             hashWorkers: nat, hashActions: seq<Action>, hashed: HashState)
    requires Disjoint(roots) && forall r :: r in roots ==> WalksBelow(scanner, r)
    requires ScanRun(scanner, roots, scanWorkers, scanActions, ScanState(IDLE, map[], []), scanned)
    requires scanned.pool.Final(|roots|)
    requires HashRun(hasher, scanned.jobs, hashWorkers, hashActions, HashState(IDLE, scanned.entries), hashed)
    requires hashed.pool.Final(|scanned.jobs|)
    ensures hashed.entries == SequentialResult(scanner, hasher, roots)
  {
    hide Disjoint, WalksBelow, ScanRun, HashRun, SequentialScan, Hashed, HashedAt, SequentialHash;
    ScanIsSequential(scanner, roots, scanWorkers, scanActions, scanned);
    var found := SequentialScan(scanner, roots, |roots|);
    HashStart(hasher, scanned.jobs, scanned.entries);
    HashRunInv(hasher, scanned.jobs, hashWorkers, scanned.entries, hashActions, HashState(IDLE, scanned.entries),
               hashed);
    SequentialHashes(hasher, found.entries, found.jobs, |found.jobs|);
    assert found.jobs[..|found.jobs|] == found.jobs;
    FinalRan(scanned.jobs, hashed.pool);
    HashedSame(hasher, scanned.entries, k => RanJob(scanned.jobs, hashed.pool, k), k => k in found.jobs,
               hashed.entries);
    HashedSame(hasher, found.entries, k => k in found.jobs[..|found.jobs|], k => k in found.jobs,
               SequentialHash(hasher, found.entries, found.jobs, |found.jobs|));
    HashedUnique(hasher, found.entries, k => k in found.jobs, hashed.entries,
                 SequentialHash(hasher, found.entries, found.jobs, |found.jobs|));
  }

  lemma HashStart(hasher: Hasher, jobs: seq<string>, entries: Scan)
    ensures HashInv(hasher, jobs, entries, HashState(IDLE, entries))
  {
  }

  lemma FinalRan(jobs: seq<string>, pool: Pool)
    requires pool.Final(|jobs|)
    ensures forall k :: RanJob(jobs, pool, k) <==> k in jobs
  {
    forall k | k in jobs ensures RanJob(jobs, pool, k) {
      var i :| 0 <= i < |jobs| && jobs[i] == k;
      assert pool.Done(i);
    }
  }
}
