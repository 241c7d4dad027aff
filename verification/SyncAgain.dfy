/**
 A second run of Syncuser (internal/pkg/image/syncuser.go) on the table the first
 one wrote: what it finds, and whether it writes the same table again.
 */
module SyncAgain {
  import opened SyncTables
  import opened SyncSeam

  // ----- What a second run finds ---------------------------------------------

  /** A name that only the table has holds the id of a host name. */
  predicate Clash(host: seq<string>, table: seq<string>, a: string, b: string) {
    IdOf(host, a) == -1 && IdOf(table, a) != -1 && IdOf(host, b) == IdOf(table, a)
  }

  /** Some name that only the image has, and that keeps its id, holds an id of the host. */
  ghost predicate OldConflict(host: TextFile, image: TextFile) {
    exists a, b :: HasId(host, image, a) && Clash(host.lines, image.lines, a, b)
  }

  /** Some host id is given to a name at the seam that should not have it. */
  ghost predicate StrayConflict(host: TextFile, image: TextFile) {
    exists b :: IdOf(host.lines, b) != -1 && Strays(host, image, IdOf(host.lines, b))
  }

  /**
   On all tables, after a synchronisation: no name differs; something is left to
   synchronise if and only if a host name lost its id at the seam; and a conflict is
   there if and only if an old one is, or a stray id is one of the host's.
   */
  lemma SyncSettles(host: TextFile, image: TextFile)
    ensures var again := Correlate(host.lines, NewTable(host, Correlate(host.lines, image.lines), image).lines);
            && (forall n :: n in again ==> !again[n].Differ())
            && (NeedsSync(again) <==> exists n :: IdOf(host.lines, n) != -1 && !HasId(host, image, n))
            && (Conflict(again) <==> OldConflict(host, image) || StrayConflict(host, image))
  {
    hide IdOf, ParseLine, OnlyImageLines, NewTable, HasId, Strays;
    SettledNames(host, image);
    SettledConflicts(host, image);
  }

  lemma SettledNames(host: TextFile, image: TextFile)
    ensures var again := Correlate(host.lines, NewTable(host, Correlate(host.lines, image.lines), image).lines);
            && (forall n :: n in again ==> !again[n].Differ())
            && (NeedsSync(again) <==> exists n :: IdOf(host.lines, n) != -1 && !HasId(host, image, n))
  {
    hide IdOf, ParseLine, OnlyImageLines, NewTable, Names;
    var table := NewTable(host, Correlate(host.lines, image.lines), image).lines;
    var again := Correlate(host.lines, table);
    forall n | IdOf(host.lines, n) != -1
      ensures n in again && (IdOf(table, n) == IdOf(host.lines, n) || IdOf(table, n) == -1)
    {
      HostIdOrNone(host, image, n);
      IdOfNamed(host.lines, n);
    }
    if n :| n in again && again[n].OnlyHost() {
      assert IdOf(host.lines, n) != -1 && !HasId(host, image, n);
    }
    if n :| IdOf(host.lines, n) != -1 && !HasId(host, image, n) {
      assert n in again && again[n].OnlyHost();
    }
  }

  lemma SettledConflicts(host: TextFile, image: TextFile)
    ensures var again := Correlate(host.lines, NewTable(host, Correlate(host.lines, image.lines), image).lines);
            Conflict(again) <==> OldConflict(host, image) || StrayConflict(host, image)
  {
    hide IdOf, ParseLine, OnlyImageLines, NewTable, Names, Strays;
    var table := NewTable(host, Correlate(host.lines, image.lines), image).lines;
    var again := Correlate(host.lines, table);
    ConflictIn(host.lines, table);
    forall b | IdOf(host.lines, b) != -1
      ensures Strays(host, image, IdOf(host.lines, b)) <==>
              exists a :: !HasId(host, image, a) && IdOf(table, a) == IdOf(host.lines, b)
    {
      StraysIff(host, image, IdOf(host.lines, b));
    }
    forall a | IdOf(host.lines, a) != -1 && IdOf(table, a) != -1 ensures HasId(host, image, a) {
      HostIdOrNone(host, image, a);
    }
    if Conflict(again) {
      var a, b :| Clash(host.lines, table, a, b);
      if HasId(host, image, a) {
        assert Clash(host.lines, image.lines, a, b);
      } else {
        assert Strays(host, image, IdOf(host.lines, b));
      }
    }
    if OldConflict(host, image) {
      var a, b :| HasId(host, image, a) && Clash(host.lines, image.lines, a, b);
      assert Clash(host.lines, table, a, b);
    }
    if StrayConflict(host, image) {
      var b :| IdOf(host.lines, b) != -1 && Strays(host, image, IdOf(host.lines, b));
      var a :| !HasId(host, image, a) && IdOf(table, a) == IdOf(host.lines, b);
      assert Clash(host.lines, table, a, b);
    }
  }

  /** A conflict by the ids of the two tables. */
  lemma ConflictIn(host: seq<string>, table: seq<string>)
    ensures Conflict(Correlate(host, table)) <==> exists a, b :: Clash(host, table, a, b)
  {
    hide IdOf, ParseLine, Names;
    var db := Correlate(host, table);
    if a, b :| Clash(host, table, a, b) {
      IdOfNamed(table, a);
      IdOfNamed(host, b);
      assert db[a].OnlyImage() && db[b].hostId == db[a].imageId;
    }
    if a, b :| a in db && b in db && db[a].OnlyImage() && db[b].hostId == db[a].imageId {
      assert Clash(host, table, a, b);
    }
  }

  /** Where all ids are kept, nothing is left to synchronise, and a conflict is there if one was there before. */
  lemma SyncSettlesKept(host: TextFile, image: TextFile)
    requires IdsKept(host, image)
    ensures var db := Correlate(host.lines, image.lines);
            var again := Correlate(host.lines, NewTable(host, db, image).lines);
            !NeedsSync(again) && (Conflict(again) <==> Conflict(db))
  {
    hide IdOf, OnlyImageLines, NewTable, IdsKept, Strays, Correlate, Clash, HasId;
    NewTableIdsIff(host, image);
    SyncSettles(host, image);
    ConflictIn(host.lines, image.lines);
    forall b ensures !Strays(host, image, IdOf(host.lines, b)) {
      StraysIff(host, image, IdOf(host.lines, b));
    }
    assert forall a, b :: Clash(host.lines, image.lines, a, b) ==> HasId(host, image, a);
    assert !StrayConflict(host, image);
    assert OldConflict(host, image) <==> exists a, b :: Clash(host.lines, image.lines, a, b);
  }

  // ----- What a second run writes --------------------------------------------

  lemma SameOnlyImage(host: TextFile, image: TextFile, line: string)
    requires IdsKept(host, image)
    ensures var db := Correlate(host.lines, image.lines);
            var again := Correlate(host.lines, NewTable(host, db, image).lines);
            KeepsLine(db, line) <==> KeepsLine(again, line)
  {
    hide IdOf, ParseLine, OnlyImageLines, NewTable;
    var db := Correlate(host.lines, image.lines);
    var table := NewTable(host, db, image).lines;
    var n := FirstField(line);
    NewTableIds(host, image, n);
    if IdOf(image.lines, n) != -1 { IdOfNamed(image.lines, n); }
    if IdOf(table, n) != -1 { IdOfNamed(table, n); }
  }

  /** The table of a second run is made of the lines it selects from the first run's table. */
  function SelectedAgain(host: TextFile, image: TextFile): seq<string> {
    var once := NewTable(host, Correlate(host.lines, image.lines), image);
    Kept(host, once)
  }

  /**
   The condition for a second run to write the same table. Where nothing is glued: no
   host line starts with the name of an image-only entry. Such a line has no usable id,
   so the first run copies it and every later run appends it once more. Where a line is
   glued: the second run selects the lines the first one kept.
   */
  ghost predicate Repeats(host: TextFile, image: TextFile) {
    if Joins(host, Kept(host, image))
    then forall line :: line in host.lines ==> !KeepsLine(Correlate(host.lines, image.lines), line)
    else SelectedAgain(host, image) == Kept(host, image)
  }

  /** On all tables: a second run writes the same table if and only if that condition holds. */
  lemma SecondTable(host: TextFile, image: TextFile)
    ensures var once := NewTable(host, Correlate(host.lines, image.lines), image);
            NewTable(host, Correlate(host.lines, once.lines), once) == once <==> Repeats(host, image)
  {
    hide Correlate, KeepsLine, OnlyImageLines, IdOf;
    if !Joins(host, Kept(host, image)) {
      hide AppendLines;
      if AppendLines(host, SelectedAgain(host, image)) == AppendLines(host, Kept(host, image)) {
        AppendInjective(host, SelectedAgain(host, image), Kept(host, image));
      }
    } else if Kept(host, image) == [] {
      SecondTableNone(host, image);
    } else {
      SecondTableSome(host, image);
    }
  }

  /** Where the host's last line and the line glued to it are entries, a second run writes another table. */
  lemma GluedEntriesChange(host: TextFile, image: TextFile, before: seq<string>, last: string, first: string,
                           rest: seq<string>)
    requires Seam(host, Kept(host, image), before, last, first, rest) && IsEntry(last) && IsEntry(first)
    ensures !Repeats(host, image)
  {
    hide IdOf, ParseLine, FirstField, OnlyImageLines, Correlate, KeepsLine, IsEntry;
    var kept := Kept(host, image);
    var once := NewTable(host, Correlate(host.lines, image.lines), image);
    var again := Correlate(host.lines, once.lines);
    var glued := last + first;
    assert once.lines == (before + [glued]) + rest;
    SeamNames(host, image, before, last, first, rest);
    EntryNotIn(before, first);
    GluedNotKept(host, once.lines, before, last, first);
    OnlyImageLinesAppend(again, before + [glued], rest);
    OnlyImageLinesAppend(again, before, [glued]);
    OneSelected(again, glued);
    var x, y := OnlyImageLines(again, before), OnlyImageLines(again, rest);
    assert OnlyImageLines(again, once.lines) == x + y;
    SelectsFewer(again, rest);
    if x != [] {
      SelectedIn(again, before, x[0]);
      assert (x + y)[0] == x[0];
    }
  }

  lemma EntryNotIn(lines: seq<string>, line: string)
    requires IsEntry(line) && IdOf(lines, NameIn(line)) == -1
    ensures line !in lines
  {
    if line in lines {
      EntryIn(lines, line);
    }
  }

  lemma {:induction false} EntryIn(lines: seq<string>, line: string)
    requires IsEntry(line) && line in lines
    ensures IdOf(lines, NameIn(line)) != -1
  {
    hide ParseLine;
    var n := |lines| - 1;
    if lines[n] != line {
      assert line in lines[..n];
      EntryIn(lines[..n], line);
    }
  }

  /** The glued line starts with a name of the host, so no run keeps it. */
  lemma GluedNotKept(host: TextFile, table: seq<string>, before: seq<string>, last: string, first: string)
    requires host.lines == before + [last] && IsEntry(last) && IsEntry(first)
    ensures !KeepsLine(Correlate(host.lines, table), last + first)
  {
    hide IdOf, ParseLine, FirstField, Names;
    GluedEntry(last, first);
    EntryGives(last, NameIn(last));
    EntryIn(host.lines, last);
  }

  lemma OneSelected(db: Db, line: string)
    requires !KeepsLine(db, line)
    ensures OnlyImageLines(db, [line]) == []
  {
    hide KeepsLine;
    assert [line][..0] == [];
    assert OnlyImageLines(db, []) == [];
  }

  lemma {:induction false} SelectedIn(db: Db, lines: seq<string>, line: string)
    requires line in OnlyImageLines(db, lines)
    ensures line in lines
  {
    hide KeepsLine;
    var n := |lines| - 1;
    if line in OnlyImageLines(db, lines[..n]) {
      SelectedIn(db, lines[..n], line);
    }
  }

  /** Appending to an unterminated file tells the appended lines apart. */
  lemma AppendInjective(file: TextFile, a: seq<string>, b: seq<string>)
    requires file.lines != [] && !file.terminated && AppendLines(file, a) == AppendLines(file, b)
    ensures a == b
  {
    if a != [] && b != [] {
      var n := |file.lines| - 1;
      var x, y := AppendLines(file, a).lines, AppendLines(file, b).lines;
      assert x[n] == file.lines[n] + a[0] && y[n] == file.lines[n] + b[0];
      assert a[0] == x[n][|file.lines[n]|..] && b[0] == y[n][|file.lines[n]|..];
      assert a[1..] == x[n + 1..] && b[1..] == y[n + 1..];
      assert a == [a[0]] + a[1..] && b == [b[0]] + b[1..];
    }
  }

  /** Where ids are kept in spite of the gluing: the copied part and the glued line yield just the line glued on. */
  lemma SecondTableGlued(host: TextFile, image: TextFile)
    requires IdsKept(host, image) && !Joins(host, Kept(host, image))
    ensures var db := Correlate(host.lines, image.lines);
            var once := NewTable(host, db, image);
            var n := |host.lines| - 1;
            NewTable(host, Correlate(host.lines, once.lines), once) == once <==>
              OnlyImageLines(db, host.lines[..n] + [host.lines[n] + Kept(host, image)[0]]) == [Kept(host, image)[0]]
  {
    hide KeepsLine, Correlate, IdsKept;
    var db := Correlate(host.lines, image.lines);
    var once := NewTable(host, db, image);
    var again := Correlate(host.lines, once.lines);
    var kept, n := Kept(host, image), |host.lines| - 1;
    var copied, rest := host.lines[..n] + [host.lines[n] + kept[0]], kept[1..];
    forall line ensures KeepsLine(db, line) <==> KeepsLine(again, line) {
      SameOnlyImage(host, image, line);
    }
    GluedSelection(db, again, image.lines, copied);
    hide OnlyImageLines;
    assert once == TextFile(copied + rest, true);
    var second := OnlyImageLines(again, once.lines);
    var extra := OnlyImageLines(db, copied);
    assert second == extra + rest && kept == [kept[0]] + rest;
    if AppendLines(host, second) == AppendLines(host, kept) {
      AppendInjective(host, second, kept);
      assert extra == second[..|second| - |rest|] && [kept[0]] == kept[..|kept| - |rest|];
    }
  }

  /** What a second selection finds in the copied part and in the kept lines after the first. */
  lemma GluedSelection(db: Db, again: Db, lines: seq<string>, copied: seq<string>)
    requires (forall line :: KeepsLine(db, line) <==> KeepsLine(again, line)) && OnlyImageLines(db, lines) != []
    ensures var rest := OnlyImageLines(db, lines)[1..];
            OnlyImageLines(again, copied + rest) == OnlyImageLines(db, copied) + rest
  {
    hide KeepsLine, OnlyImageLines;
    var kept := OnlyImageLines(db, lines);
    OnlyImageLinesAppend(again, copied, kept[1..]);
    SameSelection(db, again, copied);
    OnlyImageLinesTwice(db, again, lines);
    assert kept == kept[..1] + kept[1..];
    OnlyImageLinesAppend(again, kept[..1], kept[1..]);
    SelectsFewer(again, kept[..1]);
    SelectsFewer(again, kept[1..]);
  }

  lemma {:induction false} SelectsFewer(db: Db, lines: seq<string>)
    ensures |OnlyImageLines(db, lines)| <= |lines|
    ensures |OnlyImageLines(db, lines)| == |lines| ==> OnlyImageLines(db, lines) == lines
  {
    if lines != [] {
      SelectsFewer(db, lines[..|lines| - 1]);
    }
  }

  lemma {:induction false} SameSelection(db: Db, again: Db, lines: seq<string>)
    requires forall line :: KeepsLine(db, line) <==> KeepsLine(again, line)
    ensures OnlyImageLines(again, lines) == OnlyImageLines(db, lines)
  {
    hide KeepsLine;
    if lines != [] {
      SameSelection(db, again, lines[..|lines| - 1]);
    }
  }

  /** Without a line to keep, no name is only in the image. */
  lemma NoneKept(host: TextFile, image: TextFile, line: string)
    requires Kept(host, image) == []
    ensures !KeepsLine(Correlate(host.lines, image.lines), line)
  {
    var db := Correlate(host.lines, image.lines);
    SelectsNone(db, image.lines);
    var n := FirstField(line);
    if KeepsLine(db, line) {
      IdOfNamed(image.lines, n);
    }
  }

  lemma SecondTableNone(host: TextFile, image: TextFile)
    requires Kept(host, image) == []
    ensures var db := Correlate(host.lines, image.lines);
            var once := NewTable(host, db, image);
            && NewTable(host, Correlate(host.lines, once.lines), once) == once
            && forall line :: !KeepsLine(db, line)
  {
    hide IdOf, ParseLine, KeepsLine, Correlate;
    var db := Correlate(host.lines, image.lines);
    forall line ensures !KeepsLine(db, line) && !KeepsLine(Correlate(host.lines, host.lines), line) {
      NoneKept(host, image, line);
      SameOnlyImage(host, image, line);
    }
    SelectsNone(Correlate(host.lines, host.lines), host.lines);
  }

  lemma SecondTableSome(host: TextFile, image: TextFile)
    requires Joins(host, Kept(host, image)) && Kept(host, image) != []
    ensures var db := Correlate(host.lines, image.lines);
            var once := NewTable(host, db, image);
            var twice := NewTable(host, Correlate(host.lines, once.lines), once);
            twice == once <==> forall line :: line in host.lines ==> !KeepsLine(db, line)
  {
    hide IdOf, ParseLine, KeepsLine, Correlate;
    var db := Correlate(host.lines, image.lines);
    var once := NewTable(host, db, image);
    var again := Correlate(host.lines, once.lines);
    var kept := OnlyImageLines(db, image.lines);
    forall line ensures KeepsLine(db, line) <==> KeepsLine(again, line) {
      SameOnlyImage(host, image, line);
    }
    AppendLinesExact(host, kept);
    OnlyImageLinesAppend(again, host.lines, kept);
    OnlyImageLinesTwice(db, again, image.lines);
    AppendLinesExact(host, OnlyImageLines(again, once.lines));
    SelectsNone(again, host.lines);
    var extra := OnlyImageLines(again, host.lines);
    var twice := NewTable(host, again, once);
    assert twice.lines == host.lines + (extra + kept);
    assert |twice.lines| == |once.lines| + |extra|;
    assert extra == [] ==> extra + kept == kept;
  }

  lemma {:induction false} SelectsNone(db: Db, lines: seq<string>)
    ensures OnlyImageLines(db, lines) == [] <==> forall line :: line in lines ==> !KeepsLine(db, line)
  {
    hide KeepsLine;
    if lines != [] {
      var n := |lines| - 1;
      SelectsNone(db, lines[..n]);
      assert forall line :: line in lines <==> line in lines[..n] || line == lines[n];
    }
  }
}
