/**
 The id tables of internal/pkg/image/syncuser.go as values: what a passwd or
 group file assigns, how host and image tables are correlated, and what the
 rewritten image table assigns.
 */
module SyncTables {
  import opened Text
  import opened Decimal

  /**
   A text file as `bufio.Scanner` reads it, and whether its last line ends in a newline.
   No file reads as an unterminated empty last line; the laws hold for that value too.
   */
  datatype TextFile = TextFile(lines: seq<string>, terminated: bool)

  /** The ids of one name on the host and in the image, -1 for none, and the files found. */
  datatype SyncInfo = SyncInfo(hostId: int, imageId: int, imageFiles: seq<string>) {
    predicate InHost() { hostId != -1 }
    predicate InImage() { imageId != -1 }
    predicate OnlyHost() { InHost() && !InImage() }
    predicate OnlyImage() { InImage() && !InHost() }
    predicate Match() { InImage() && InHost() && hostId == imageId }
    predicate Differ() { InImage() && InHost() && hostId != imageId }

    /** The id the name has in the synchronised image. */
    function Target(): int { if InHost() then hostId else imageId }
  }

  type Db = map<string, SyncInfo>

  // ----- Reading a table -----------------------------------------------------

  /** The name and id of a usable line; every other line is skipped. */
  function ParseLine(line: string): Option<(string, int)> {
    var fields := Split(line, ':');
    if |fields| != 7 && |fields| != 4 then None
    else if fields[0] == "" || HasPrefix(fields[0], "+") || HasPrefix(fields[0], "-") then None
    else if Atoi(fields[2]).None? then None
    else Some((fields[0], Atoi(fields[2]).value))
  }

  function FirstField(line: string): string {
    Split(line, ':')[0]
  }

  /** The first id other than -1 that the table gives to a name, or -1. */
  function IdOf(lines: seq<string>, name: string): int {
    if lines == [] then -1
    else
      var n := |lines| - 1;
      var before := IdOf(lines[..n], name);
      if before != -1 then before
      else
        var entry := ParseLine(lines[n]);
        if entry.Some? && entry.value.0 == name then entry.value.1 else -1
  }

  /** The names with at least one usable line. */
  function Names(lines: seq<string>): set<string> {
    set line | line in lines && ParseLine(line).Some? :: ParseLine(line).value.0
  }

  lemma {:induction false} IdOfAppend(a: seq<string>, b: seq<string>, name: string)
    ensures IdOf(a + b, name) == if IdOf(a, name) != -1 then IdOf(a, name) else IdOf(b, name)
  {
    hide ParseLine;
    if b == [] {
      assert a + b == a;
    } else {
      var n := |b| - 1;
      IdOfAppend(a, b[..n], name);
      assert (a + b)[..|a + b| - 1] == a + b[..n];
    }
  }

  lemma {:induction false} IdOfNamed(lines: seq<string>, name: string)
    requires IdOf(lines, name) != -1
    ensures name in Names(lines)
  {
    hide ParseLine;
    var n := |lines| - 1;
    assert lines[n] in lines;
    if IdOf(lines[..n], name) != -1 {
      IdOfNamed(lines[..n], name);
    }
  }

  function Blank(): SyncInfo { SyncInfo(-1, -1, []) }

  function Entry(db: Db, name: string): SyncInfo {
    if name in db then db[name] else Blank()
  }

  function FirstOf(id: int, other: int): int {
    if id != -1 then id else other
  }

  function Fill(info: SyncInfo, id: int, fromImage: bool): SyncInfo {
    if fromImage then info.(imageId := FirstOf(info.imageId, id)) else info.(hostId := FirstOf(info.hostId, id))
  }

  /** A database after reading one more table: earlier ids win. */
  function WithTable(db: Db, lines: seq<string>, fromImage: bool): Db {
    map n | n in db.Keys + Names(lines) :: Fill(Entry(db, n), IdOf(lines, n), fromImage)
  }

  /** The database of a host table and an image table. */
  function Correlate(host: seq<string>, image: seq<string>): (db: Db)
    ensures forall n :: n in db <==> n in Names(host) || n in Names(image)
    ensures forall n :: n in db ==> db[n] == SyncInfo(IdOf(host, n), IdOf(image, n), [])
  {
    map n | n in Names(host) + Names(image) :: SyncInfo(IdOf(host, n), IdOf(image, n), [])
  }

  lemma ReadBoth(host: seq<string>, image: seq<string>)
    ensures WithTable(WithTable(map[], host, false), image, true) == Correlate(host, image)
  {
    hide IdOf, ParseLine, Names;
    var first := WithTable(map[], host, false);
    forall n | n in Correlate(host, image)
      ensures Fill(Entry(first, n), IdOf(image, n), true) == Correlate(host, image)[n]
    {
      if n !in Names(host) && IdOf(host, n) != -1 { IdOfNamed(host, n); }
    }
  }

  // ----- Conflicts -----------------------------------------------------------

  /** An image-only name holds an id that the host gives to some name. */
  predicate Conflict(db: Db) {
    exists a, b :: a in db && b in db && db[a].OnlyImage() && db[b].hostId == db[a].imageId
  }

  predicate NeedsSync(db: Db) {
    exists n :: n in db && (db[n].OnlyHost() || db[n].Differ())
  }

  // ----- Rewriting the table -------------------------------------------------

  predicate KeepsLine(db: Db, line: string) {
    FirstField(line) in db && db[FirstField(line)].OnlyImage()
  }

  /** The lines of names that only the image has. */
  function OnlyImageLines(db: Db, lines: seq<string>): seq<string> {
    if lines == [] then []
    else
      var n := |lines| - 1;
      OnlyImageLines(db, lines[..n]) + (if KeepsLine(db, lines[n]) then [lines[n]] else [])
  }

  lemma {:induction false} OnlyImageLinesAppend(db: Db, a: seq<string>, b: seq<string>)
    ensures OnlyImageLines(db, a + b) == OnlyImageLines(db, a) + OnlyImageLines(db, b)
  {
    hide KeepsLine;
    if b == [] {
      assert a + b == a;
    } else {
      var n := |b| - 1;
      OnlyImageLinesAppend(db, a, b[..n]);
      assert (a + b)[..|a + b| - 1] == a + b[..n];
    }
  }

  /** Selecting again what was selected changes nothing. */
  lemma {:induction false} OnlyImageLinesTwice(db: Db, other: Db, lines: seq<string>)
    requires forall line :: KeepsLine(db, line) ==> KeepsLine(other, line)
    ensures OnlyImageLines(other, OnlyImageLines(db, lines)) == OnlyImageLines(db, lines)
  {
    hide KeepsLine;
    if lines != [] {
      var n := |lines| - 1;
      OnlyImageLinesTwice(db, other, lines[..n]);
      var one := if KeepsLine(db, lines[n]) then [lines[n]] else [];
      OnlyImageLinesAppend(other, OnlyImageLines(db, lines[..n]), one);
      assert OnlyImageLines(other, one[..0]) == [];
      assert OnlyImageLines(other, one) == one;
    }
  }

  lemma {:induction false} OnlyImageLinesId(db: Db, lines: seq<string>, name: string)
    requires name in db
    ensures IdOf(OnlyImageLines(db, lines), name) == if db[name].OnlyImage() then IdOf(lines, name) else -1
  {
    if lines != [] {
      var n := |lines| - 1;
      OnlyImageLinesId(db, lines[..n], name);
      var one := if KeepsLine(db, lines[n]) then [lines[n]] else [];
      IdOfAppend(OnlyImageLines(db, lines[..n]), one, name);
      assert one != [] ==> one[..0] == [];
    }
  }

  lemma {:induction false} OnlyImageLinesUnknown(db: Db, lines: seq<string>, name: string)
    requires name !in db
    ensures IdOf(OnlyImageLines(db, lines), name) == -1
  {
    if lines != [] {
      var n := |lines| - 1;
      OnlyImageLinesUnknown(db, lines[..n], name);
      var one := if KeepsLine(db, lines[n]) then [lines[n]] else [];
      IdOfAppend(OnlyImageLines(db, lines[..n]), one, name);
      assert one != [] ==> one[..0] == [];
    }
  }

  /** `util.AppendLines`: without a final newline the first new line joins the last old one. */
  function AppendLines(file: TextFile, lines: seq<string>): TextFile {
    if lines == [] then file
    else if file.lines == [] || file.terminated then TextFile(file.lines + lines, true)
    else
      var n := |file.lines| - 1;
      TextFile(file.lines[..n] + [file.lines[n] + lines[0]] + lines[1..], true)
  }

  /** The new image table: the host's file followed by the image-only lines. */
  function NewTable(host: TextFile, db: Db, image: TextFile): TextFile {
    AppendLines(host, OnlyImageLines(db, image.lines))
  }

  /** The text is the two parts, line by line, exactly when nothing is glued. */
  lemma AppendLinesExact(file: TextFile, lines: seq<string>)
    ensures AppendLines(file, lines).lines == file.lines + lines <==>
            lines == [] || file.lines == [] || file.terminated
  {
    if lines != [] && file.lines != [] && !file.terminated {
      assert |AppendLines(file, lines).lines| == |file.lines| + |lines| - 1;
    }
  }

  /** The image-only lines that are appended. */
  function Kept(host: TextFile, image: TextFile): seq<string> {
    OnlyImageLines(Correlate(host.lines, image.lines), image.lines)
  }

  // ----- Appending to a table ------------------------------------------------

  /** Nothing is glued: the file is empty or ends in a newline, or no line is appended to it. */
  predicate Joins(file: TextFile, kept: seq<string>) {
    file.lines == [] || file.terminated || kept == []
  }

  /** What the line glued from `last` and `first`, followed by `rest`, gives a name without an earlier id. */
  function Glued(last: string, first: string, rest: seq<string>, name: string): int {
    FirstOf(IdOf([last + first], name), IdOf(rest, name))
  }

  /** What the two lines would have given it apart. */
  function Apart(last: string, first: string, rest: seq<string>, name: string): int {
    FirstOf(IdOf([last], name), FirstOf(IdOf([first], name), IdOf(rest, name)))
  }

  /** Gluing the two lines at the seam leaves the id of a name as it was. */
  predicate SeamKeeps(file: TextFile, kept: seq<string>, name: string)
    requires !Joins(file, kept)
  {
    var n := |file.lines| - 1;
    || IdOf(file.lines[..n], name) != -1
    || Glued(file.lines[n], kept[0], kept[1..], name) == Apart(file.lines[n], kept[0], kept[1..], name)
  }

  /** Gluing the two lines changes no id of the names they start with. */
  predicate SeamHarmless(file: TextFile, kept: seq<string>)
    requires !Joins(file, kept)
  {
    var last, first := file.lines[|file.lines| - 1], kept[0];
    && SeamKeeps(file, kept, FirstField(last))
    && SeamKeeps(file, kept, FirstField(first))
    && SeamKeeps(file, kept, FirstField(last + first))
  }

  /** After appending, every name has the id the file gives it, else the id the lines give it. */
  predicate Appends(file: TextFile, kept: seq<string>, name: string) {
    IdOf(AppendLines(file, kept).lines, name) == FirstOf(IdOf(file.lines, name), IdOf(kept, name))
  }

  lemma IdOfOne(line: string, name: string)
    ensures var entry := ParseLine(line);
            IdOf([line], name) == if entry.Some? && entry.value.0 == name then entry.value.1 else -1
    ensures FirstField(line) != name ==> IdOf([line], name) == -1
  {
    assert [line][..0] == [];
  }

  lemma JoinedAppends(file: TextFile, kept: seq<string>, name: string)
    requires Joins(file, kept)
    ensures Appends(file, kept, name)
  {
    hide IdOf;
    AppendLinesExact(file, kept);
    IdOfAppend(file.lines, kept, name);
  }

  lemma GluedAppends(file: TextFile, kept: seq<string>, name: string)
    requires !Joins(file, kept)
    ensures Appends(file, kept, name) <==> SeamKeeps(file, kept, name)
    ensures IdOf(AppendLines(file, kept).lines, name) ==
            FirstOf(IdOf(file.lines[..|file.lines| - 1], name),
                    Glued(file.lines[|file.lines| - 1], kept[0], kept[1..], name))
  {
    hide IdOf;
    var n := |file.lines| - 1;
    var before, last, first, rest := file.lines[..n], file.lines[n], kept[0], kept[1..];
    IdOfAppend(before + [last + first], rest, name);
    IdOfAppend(before, [last + first], name);
    assert file.lines == before + [last] && kept == [first] + rest;
    IdOfAppend(before, [last], name);
    IdOfAppend([first], rest, name);
  }

  /** Only the names the seam's lines start with can be affected. */
  lemma SeamElsewhere(file: TextFile, kept: seq<string>, name: string)
    requires !Joins(file, kept) && SeamHarmless(file, kept)
    ensures SeamKeeps(file, kept, name)
  {
    hide SeamKeeps, FirstField;
    SeamOnly(file, kept, name);
  }

  /** Appending keeps all ids if and only if nothing is glued or the gluing does no harm. */
  lemma AppendsIff(file: TextFile, kept: seq<string>)
    ensures (forall name :: Appends(file, kept, name)) <==> Joins(file, kept) || SeamHarmless(file, kept)
  {
    hide Appends, SeamKeeps, FirstField;
    forall name
      ensures Joins(file, kept) ==> Appends(file, kept, name)
      ensures !Joins(file, kept) ==> (Appends(file, kept, name) <==> SeamKeeps(file, kept, name))
      ensures !Joins(file, kept) && SeamHarmless(file, kept) ==> SeamKeeps(file, kept, name)
    {
      if Joins(file, kept) {
        JoinedAppends(file, kept, name);
      } else {
        GluedAppends(file, kept, name);
        if SeamHarmless(file, kept) { SeamElsewhere(file, kept, name); }
      }
    }
  }

  // ----- The ids of the new table --------------------------------------------

  /** In the new table the name has the host's id if the host has one, else its old image id. */
  predicate HasId(host: TextFile, image: TextFile, name: string) {
    IdOf(NewTable(host, Correlate(host.lines, image.lines), image).lines, name) ==
    FirstOf(IdOf(host.lines, name), IdOf(image.lines, name))
  }

  /** The condition under which the rewritten table has the right ids. */
  predicate IdsKept(host: TextFile, image: TextFile) {
    var kept := Kept(host, image);
    Joins(host, kept) || SeamHarmless(host, kept)
  }

  /** Both parts of the new table give a name the host's id if it has one, else the image's. */
  lemma PartsGive(host: TextFile, image: TextFile, name: string)
    ensures FirstOf(IdOf(host.lines, name), IdOf(Kept(host, image), name)) ==
              FirstOf(IdOf(host.lines, name), IdOf(image.lines, name))
  {
    hide IdOf, ParseLine, OnlyImageLines;
    var db := Correlate(host.lines, image.lines);
    if name in db {
      OnlyImageLinesId(db, image.lines, name);
    } else {
      OnlyImageLinesUnknown(db, image.lines, name);
      if IdOf(image.lines, name) != -1 { IdOfNamed(image.lines, name); }
    }
  }

  /**
   In the new table every name has the host's id if the host has one and its old
   image id otherwise, if and only if nothing is glued or the gluing does no harm.
   */
  lemma NewTableIdsIff(host: TextFile, image: TextFile)
    ensures (forall name :: HasId(host, image, name)) <==> IdsKept(host, image)
  {
    hide IdOf, OnlyImageLines, Correlate, AppendLines, SeamHarmless;
    AppendsIff(host, Kept(host, image));
    forall name ensures HasId(host, image, name) <==> Appends(host, Kept(host, image), name) {
      PartsGive(host, image, name);
    }
  }

  /** One name, on all tables: it has the right id if and only if nothing is glued or the gluing leaves it its id. */
  lemma HasIdIff(host: TextFile, image: TextFile, name: string)
    ensures var kept := Kept(host, image);
            HasId(host, image, name) <==> Joins(host, kept) || SeamKeeps(host, kept, name)
  {
    hide IdOf, OnlyImageLines, Correlate, AppendLines, SeamKeeps;
    var kept := Kept(host, image);
    PartsGive(host, image, name);
    if Joins(host, kept) {
      JoinedAppends(host, kept, name);
    } else {
      GluedAppends(host, kept, name);
    }
  }

  /** A name at the seam gets this id from the glued table, and should not. */
  predicate StrayAt(file: TextFile, kept: seq<string>, name: string, id: int)
    requires !Joins(file, kept)
  {
    !SeamKeeps(file, kept, name) && Glued(file.lines[|file.lines| - 1], kept[0], kept[1..], name) == id
  }

  /** One of the at most three names the seam's lines start with gets this id, and should not. */
  predicate Strays(host: TextFile, image: TextFile, id: int) {
    var kept := Kept(host, image);
    !Joins(host, kept) &&
    var last, first := host.lines[|host.lines| - 1], kept[0];
    || StrayAt(host, kept, FirstField(last), id)
    || StrayAt(host, kept, FirstField(first), id)
    || StrayAt(host, kept, FirstField(last + first), id)
  }

  /** The names without their right id are at the seam, so the ids they have are the stray ones. */
  lemma StraysIff(host: TextFile, image: TextFile, id: int)
    ensures Strays(host, image, id) <==>
            exists name :: !HasId(host, image, name) &&
                           IdOf(NewTable(host, Correlate(host.lines, image.lines), image).lines, name) == id
  {
    var kept := Kept(host, image);
    hide IdOf, Correlate, OnlyImageLines, HasId, SeamKeeps, FirstField, Glued;
    if Joins(host, kept) {
      forall name ensures HasId(host, image, name) {
        HasIdIff(host, image, name);
      }
    } else {
      forall name
        ensures HasId(host, image, name) <==> SeamKeeps(host, kept, name)
        ensures !SeamKeeps(host, kept, name) ==>
                  (StrayAt(host, kept, name, id) <==> IdOf(AppendLines(host, kept).lines, name) == id)
        ensures AtSeam(host, kept, name) || SeamKeeps(host, kept, name)
      {
        HasIdIff(host, image, name);
        StrayIs(host, kept, name, id);
        SeamOnly(host, kept, name);
      }
      hide AppendLines, StrayAt, Joins;
    }
  }

  predicate AtSeam(file: TextFile, kept: seq<string>, name: string)
    requires !Joins(file, kept)
  {
    var last, first := file.lines[|file.lines| - 1], kept[0];
    name == FirstField(last) || name == FirstField(first) || name == FirstField(last + first)
  }

  lemma SeamOnly(file: TextFile, kept: seq<string>, name: string)
    requires !Joins(file, kept)
    ensures AtSeam(file, kept, name) || SeamKeeps(file, kept, name)
  {
    var last, first := file.lines[|file.lines| - 1], kept[0];
    if !AtSeam(file, kept, name) {
      IdOfOne(last, name);
      IdOfOne(first, name);
      IdOfOne(last + first, name);
      hide IdOf, FirstField;
    }
  }

  lemma StrayIs(file: TextFile, kept: seq<string>, name: string, id: int)
    requires !Joins(file, kept)
    ensures !SeamKeeps(file, kept, name) ==>
              (StrayAt(file, kept, name, id) <==> IdOf(AppendLines(file, kept).lines, name) == id)
  {
    hide IdOf, Glued, Apart, AppendLines;
    GluedAppends(file, kept, name);
  }

  /** Every name: the host's id if it has one, else the image's. */
  lemma NewTableIds(host: TextFile, image: TextFile, name: string)
    requires IdsKept(host, image)
    ensures IdOf(NewTable(host, Correlate(host.lines, image.lines), image).lines, name) ==
            FirstOf(IdOf(host.lines, name), IdOf(image.lines, name))
  {
    hide IdOf, NewTable, Correlate, IdsKept;
    NewTableIdsIff(host, image);
    assert HasId(host, image, name);
  }
}
