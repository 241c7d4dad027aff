/**
 The baseline hash cache of internal/pkg/overlaydiff/diff.go: when a recorded hash
 may stand for the content a file has now.
 */
module HashReuse {
  import opened Text
  import opened OverlayCompare

  /** `mtimeGranularity`, in nanoseconds. */
  const GRANULARITY: int := 1_000_000_000

  /** `mtimeIsTrustworthy`; `None` is the zero time. */
  predicate MtimeIsTrustworthy(baseline: Entry, capturedAt: Option<int>) {
    capturedAt.Some? && baseline.mtime <= capturedAt.value - GRANULARITY
  }

  predicate CanReuseFileHash(current: Entry, baseline: Entry, capturedAt: Option<int>) {
    && current.kind == EntryFile && baseline.kind == EntryFile
    && baseline.hash != ""
    && MtimeIsTrustworthy(baseline, capturedAt)
    && current.size == baseline.size && current.mode == baseline.mode && current.mtime == baseline.mtime
    && (current.inode != 0 && current.device != 0 && baseline.inode != 0 && baseline.device != 0 ==>
          current.inode == baseline.inode && current.device == baseline.device)
  }

  // ----- The life of one file ------------------------------------------------

  /** A write at clock `at` that leaves this content and modification time. */
  datatype Write = Write(at: int, mtime: int, content: string)

  /** Writes in clock order; a stored time lags the clock by less than the granularity. */
  ghost predicate History(writes: seq<Write>) {
    && (forall i, j :: 0 <= i < j < |writes| ==> writes[i].at <= writes[j].at)
    && (forall i :: 0 <= i < |writes| ==> writes[i].at - GRANULARITY < writes[i].mtime <= writes[i].at)
  }

  /**
   A baseline lstat at clock `lstat`, after the first `seen` writes; the baseline
   hash read after `hashed` writes; a later lstat after `now` writes.
   */
  datatype Scenario = Scenario(writes: seq<Write>, seen: nat, hashed: nat, now: nat, lstat: int,
                               baseline: Entry, current: Entry)

  function Content(sc: Scenario, k: nat): string
    requires 0 < k <= |sc.writes|
  {
    sc.writes[k - 1].content
  }

  /** The two entries are what the scans of such a file record. */
  ghost predicate Observed(hash: string -> string, sc: Scenario) {
    && History(sc.writes)
    && 0 < sc.seen <= sc.hashed <= sc.now <= |sc.writes|
    && sc.writes[sc.seen - 1].at <= sc.lstat
    && (sc.seen < |sc.writes| ==> sc.lstat <= sc.writes[sc.seen].at)
    && sc.baseline.mtime == sc.writes[sc.seen - 1].mtime
    && sc.baseline.size == |Content(sc, sc.seen)|
    && sc.baseline.hash == hash(Content(sc, sc.hashed))
    && sc.current.mtime == sc.writes[sc.now - 1].mtime
    && sc.current.size == |Content(sc, sc.now)|
  }

  /** The reused hash is the hash of what the file holds now. */
  ghost predicate Fresh(hash: string -> string, sc: Scenario)
    requires Observed(hash, sc)
  {
    sc.baseline.hash == hash(Content(sc, sc.now))
  }

  /** A write after the lstat leaves a time the stamp would not have trusted. */
  lemma LaterWriteShows(hash: string -> string, sc: Scenario)
    requires Observed(hash, sc) && sc.seen < sc.now
    ensures sc.current.mtime > sc.lstat - GRANULARITY
  {
    assert sc.writes[sc.seen].at <= sc.writes[sc.now - 1].at;
  }

  /** A stamp no later than the baseline lstat makes every reused hash fresh. */
  lemma ReuseIsFresh(hash: string -> string, sc: Scenario, capturedAt: Option<int>)
    requires Observed(hash, sc) && CanReuseFileHash(sc.current, sc.baseline, capturedAt)
    requires capturedAt.value <= sc.lstat
    ensures sc.seen == sc.now && Fresh(hash, sc)
  {
    if sc.seen < sc.now {
      LaterWriteShows(hash, sc);
    }
  }

  /** A file written just before and just after its lstat, with one stored time. */
  function Race(lstat: int, mtime: int, x: string, y: string, hashX: string): Scenario {
    var entry := Entry(EntryFile, 0, |x|, mtime, 1, 1, hashX, "");
    Scenario([Write(mtime, mtime, x), Write(lstat, mtime, y)], 1, 1, 2, lstat, entry, entry)
  }

  /**
   Reuse is right for every file scanned at `lstat` exactly when the captured-at
   stamp is no later than that lstat. A stamp taken after the scan is too late.
   */
  lemma ReuseSoundIff(hash: string -> string, lstat: int, stamp: int, x: string, y: string)
    requires |x| == |y| && hash(x) != hash(y) && hash(x) != ""
    ensures (forall sc | && Observed(hash, sc) && sc.lstat == lstat
                         && CanReuseFileHash(sc.current, sc.baseline, Some(stamp)) ::
               Fresh(hash, sc)) <==>
            stamp <= lstat
  {
    if stamp <= lstat {
      forall sc | Observed(hash, sc) && sc.lstat == lstat && CanReuseFileHash(sc.current, sc.baseline, Some(stamp))
        ensures Fresh(hash, sc)
      {
        ReuseIsFresh(hash, sc, Some(stamp));
      }
    } else {
      var mtime := if stamp - GRANULARITY <= lstat then stamp - GRANULARITY else lstat;
      var sc := Race(lstat, mtime, x, y, hash(x));
      assert Observed(hash, sc) && CanReuseFileHash(sc.current, sc.baseline, Some(stamp));
      assert !Fresh(hash, sc);
    }
  }
}
