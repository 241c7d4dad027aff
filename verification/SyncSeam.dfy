/**
 What a host table without a final newline does to the id tables of
 internal/pkg/image/syncuser.go: its last line and the first appended line are
 read as one.
 */
module SyncSeam {
  import opened Text
  import opened Decimal
  import opened SyncTables

  // ----- The seam of two well-formed entries ---------------------------------

  /** The fields of two lines glued to one. */
  function GlueFields(a: seq<string>, b: seq<string>): seq<string>
    requires a != [] && b != []
  {
    a[..|a| - 1] + [a[|a| - 1] + b[0]] + b[1..]
  }

  lemma GlueFieldsCons(head: string, a: seq<string>, b: seq<string>)
    requires a != [] && b != []
    ensures GlueFields([head] + a, b) == [head] + GlueFields(a, b)
  {
    assert ([head] + a)[..|a|] == [head] + a[..|a| - 1];
  }

  lemma CutAt(a: string, i: nat)
    requires i < |a| && a[i] == ':'
    ensures a == a[..i] + [':'] + a[i + 1..]
  {
  }

  lemma PlusLater(head: string, tail: string, b: string)
    ensures (head + [':'] + tail) + b == head + [':'] + (tail + b)
  {
  }

  /** Gluing two lines glues their last and first fields. */
  lemma {:induction false} SplitGlue(a: string, b: string)
    ensures Split(a + b, ':') == GlueFields(Split(a, ':'), Split(b, ':'))
    decreases |a|
  {
    hide Split, GlueFields;
    if ':' !in a {
      SplitNone(a, ':');
      GlueFirst(a, b);
    } else {
      var i := Index(a, ':');
      var head, tail := a[..i], a[i + 1..];
      CutAt(a, i);
      PlusLater(head, tail, b);
      SplitCons(head, tail, ':');
      SplitCons(head, tail + b, ':');
      SplitGlue(tail, b);
      GlueFieldsCons(head, Split(tail, ':'), Split(b, ':'));
    }
  }

  lemma GlueFieldsOne(a: string, head: string, rest: seq<string>)
    ensures GlueFields([a], [head] + rest) == [a + head] + rest
  {
  }

  lemma PlusEarlier(a: string, head: string, tail: string)
    ensures a + (head + [':'] + tail) == (a + head) + [':'] + tail
  {
  }

  lemma GlueFirst(a: string, b: string)
    requires ':' !in a
    ensures Split(a + b, ':') == GlueFields([a], Split(b, ':'))
  {
    hide Split, GlueFields;
    if ':' !in b {
      SplitNone(b, ':');
      SplitNone(a + b, ':');
      GlueFieldsOne(a, b, []);
      assert [b] + [] == [b] && [a + b] + [] == [a + b];
    } else {
      var i := Index(b, ':');
      var head, tail := b[..i], b[i + 1..];
      CutAt(b, i);
      PlusEarlier(a, head, tail);
      SplitCons(head, tail, ':');
      SplitCons(a + head, tail, ':');
      GlueFieldsOne(a, head, Split(tail, ':'));
    }
  }

  /** A line that gives an id. */
  predicate IsEntry(line: string) {
    ParseLine(line).Some? && ParseLine(line).value.1 != -1
  }

  function NameIn(line: string): string
    requires IsEntry(line)
  {
    ParseLine(line).value.0
  }

  function IdIn(line: string): int
    requires IsEntry(line)
  {
    ParseLine(line).value.1
  }

  /** Two lines of a group file, which have four fields each. */
  predicate ShortPair(last: string, first: string) {
    |Split(last, ':')| == 4 && |Split(first, ':')| == 4
  }

  /** Two group lines glue to a line that still gives the first id; all other entries glue to nothing. */
  lemma GluedEntry(last: string, first: string)
    requires IsEntry(last) && IsEntry(first)
    ensures ParseLine(last + first) == if ShortPair(last, first) then ParseLine(last) else None
    ensures FirstField(last + first) == FirstField(last)
  {
    hide Split, Atoi, HasPrefix;
    var a, b := Split(last, ':'), Split(first, ':');
    SplitGlue(last, first);
    var c := GlueFields(a, b);
    assert |c| == |a| + |b| - 1 && c[0] == a[0] && c[2] == a[2];
  }

  lemma EntryGives(line: string, name: string)
    requires IsEntry(line)
    ensures FirstField(line) == NameIn(line)
    ensures IdOf([line], name) == if name == NameIn(line) then IdIn(line) else -1
  {
    IdOfOne(line, name);
  }

  /** The lines around the place where an unterminated file meets the lines appended to it. */
  ghost predicate Seam(file: TextFile, kept: seq<string>, before: seq<string>, last: string, first: string,
                       rest: seq<string>) {
    !file.terminated && file.lines == before + [last] && kept == [first] + rest
  }

  lemma SeamKeepsIs(file: TextFile, kept: seq<string>, before: seq<string>, last: string, first: string,
                    rest: seq<string>, name: string)
    requires Seam(file, kept, before, last, first, rest)
    ensures !Joins(file, kept)
    ensures SeamKeeps(file, kept, name) <==>
              IdOf(before, name) != -1 || Glued(last, first, rest, name) == Apart(last, first, rest, name)
  {
    hide IdOf, Glued, Apart;
    assert file.lines[..|file.lines| - 1] == before && kept[1..] == rest;
  }

  lemma SeamHarmlessIs(file: TextFile, kept: seq<string>, before: seq<string>, last: string, first: string,
                       rest: seq<string>)
    requires Seam(file, kept, before, last, first, rest)
    ensures !Joins(file, kept)
    ensures SeamHarmless(file, kept) <==>
              && SeamKeeps(file, kept, FirstField(last)) && SeamKeeps(file, kept, FirstField(first))
              && SeamKeeps(file, kept, FirstField(last + first))
  {
    hide SeamKeeps, FirstField;
    assert file.lines[|file.lines| - 1] == last;
  }

  /**
   An unterminated host table whose last line is an entry, with an entry glued to it,
   keeps the ids if and only if a later kept line repeats the glued entry's id, and the
   host's last name has an earlier line or both lines have four fields.
   */
  lemma SeamOfEntries(host: TextFile, image: TextFile, before: seq<string>, last: string, first: string,
                      rest: seq<string>)
    requires Seam(host, Kept(host, image), before, last, first, rest) && IsEntry(last) && IsEntry(first)
    ensures IdsKept(host, image) <==>
              IdOf(rest, NameIn(first)) == IdIn(first) && (ShortPair(last, first) || IdOf(before, NameIn(last)) != -1)
  {
    hide IdOf, Kept, ParseLine, FirstField, ShortPair, Split, SeamKeeps, SeamHarmless, Joins, Seam;
    var kept := Kept(host, image);
    SeamNames(host, image, before, last, first, rest);
    GluedEntry(last, first);
    SeamKeepsIs(host, kept, before, last, first, rest, NameIn(last));
    SeamKeepsIs(host, kept, before, last, first, rest, NameIn(first));
    SeamHarmlessIs(host, kept, before, last, first, rest);
    SeamGives(last, first, NameIn(last));
    SeamGives(last, first, NameIn(first));
  }

  lemma SeamGives(last: string, first: string, name: string)
    requires IsEntry(last) && IsEntry(first)
    ensures FirstField(last) == NameIn(last) && FirstField(first) == NameIn(first)
    ensures IdOf([last], name) == if name == NameIn(last) then IdIn(last) else -1
    ensures IdOf([first], name) == if name == NameIn(first) then IdIn(first) else -1
    ensures IdOf([last + first], name) == if name == NameIn(last) && ShortPair(last, first) then IdIn(last) else -1
  {
    hide ParseLine, IdOf, FirstField, ShortPair;
    EntryGives(last, name);
    EntryGives(first, name);
    GluedEntry(last, first);
    IdOfOne(last + first, name);
  }

  /** The glued entry's name has no host id, and the host's last name is in no kept line. */
  lemma SeamNames(host: TextFile, image: TextFile, before: seq<string>, last: string, first: string, rest: seq<string>)
    requires Seam(host, Kept(host, image), before, last, first, rest) && IsEntry(last) && IsEntry(first)
    ensures IdOf(before, NameIn(first)) == -1 && NameIn(first) != NameIn(last) && IdOf(rest, NameIn(last)) == -1
  {
    hide IdOf, ParseLine, FirstField, OnlyImageLines, ShortPair, Names;
    var db := Correlate(host.lines, image.lines);
    var a, b := NameIn(last), NameIn(first);
    SeamGives(last, first, a);
    SeamGives(last, first, b);
    KeptKeeps(db, image.lines, first);
    IdOfAppend(before, [last], b);
    IdOfAppend(before, [last], a);
    IdOfNamed(host.lines, a);
    OnlyImageLinesId(db, image.lines, a);
    IdOfAppend([first], rest, a);
  }

  lemma {:induction false} KeptKeeps(db: Db, lines: seq<string>, line: string)
    requires line in OnlyImageLines(db, lines)
    ensures KeepsLine(db, line)
  {
    var n := |lines| - 1;
    if line in OnlyImageLines(db, lines[..n]) {
      KeptKeeps(db, lines[..n], line);
    }
  }

  /**
   Name by name: two glued entries cost the first appended name its id unless a later
   kept line repeats it, and the host's last name its id unless it has an earlier line or
   both lines have four fields; every other name has its id.
   */
  lemma SeamHasId(host: TextFile, image: TextFile, before: seq<string>, last: string, first: string, rest: seq<string>,
                  name: string)
    requires Seam(host, Kept(host, image), before, last, first, rest) && IsEntry(last) && IsEntry(first)
    ensures HasId(host, image, name) <==>
              && (name == NameIn(first) ==> IdOf(rest, name) == IdIn(first))
              && (name == NameIn(last) ==> ShortPair(last, first) || IdOf(before, name) != -1)
  {
    hide IdOf, Kept, ParseLine, FirstField, ShortPair, Split, SeamKeeps, Joins, Seam, HasId;
    var kept := Kept(host, image);
    SeamNames(host, image, before, last, first, rest);
    SeamKeepsIs(host, kept, before, last, first, rest, name);
    HasIdIff(host, image, name);
    SeamGives(last, first, name);
  }

  // ----- The host's names in the new table -----------------------------------

  /** Glued to an entry, a line changes its id to nothing or not at all. */
  lemma GluedOwn(last: string, first: string)
    requires IsEntry(last)
    ensures ParseLine(last + first).None? || ParseLine(last + first) == ParseLine(last)
  {
    hide Split, Atoi, HasPrefix;
    var a, b := Split(last, ':'), Split(first, ':');
    SplitGlue(last, first);
    var c := GlueFields(a, b);
    assert |c| == |a| + |b| - 1 && c[0] == a[0] && c[2] == a[2];
  }

  /** On all tables: a name with a host id has that id in the new table, or none. */
  lemma HostIdOrNone(host: TextFile, image: TextFile, name: string)
    requires IdOf(host.lines, name) != -1
    ensures var id := IdOf(NewTable(host, Correlate(host.lines, image.lines), image).lines, name);
            id == IdOf(host.lines, name) || id == -1
  {
    hide IdOf, ParseLine, OnlyImageLines, AppendLines, Names;
    var kept := Kept(host, image);
    if Joins(host, kept) {
      JoinedAppends(host, kept, name);
    } else {
      var n := |host.lines| - 1;
      var before, last, first, rest := host.lines[..n], host.lines[n], kept[0], kept[1..];
      GluedAppends(host, kept, name);
      assert host.lines == before + [last] && kept == [first] + rest;
      IdOfAppend(before, [last], name);
      IdOfOne(last, name);
      IdOfOne(last + first, name);
      if IdOf(before, name) == -1 { GluedOwn(last, first); }
      IdOfNamed(host.lines, name);
      NoHostNameKept(Correlate(host.lines, image.lines), image.lines, rest, name);
    }
  }

  /** No kept line gives an id to a name the host has. */
  lemma NoHostNameKept(db: Db, lines: seq<string>, rest: seq<string>, name: string)
    requires name in db && !db[name].OnlyImage() && OnlyImageLines(db, lines) != [] && rest ==
              OnlyImageLines(db, lines)[1..]
    ensures IdOf(rest, name) == -1
  {
    hide IdOf, ParseLine, OnlyImageLines, FirstField;
    var kept := OnlyImageLines(db, lines);
    assert forall line :: line in rest ==> line in kept;
    forall line | line in rest ensures FirstField(line) != name {
      KeptKeeps(db, lines, line);
    }
    IdOfAbsent(rest, name);
  }

  lemma {:induction false} IdOfAbsent(lines: seq<string>, name: string)
    requires forall line :: line in lines ==> FirstField(line) != name
    ensures IdOf(lines, name) == -1
  {
    if lines != [] {
      var n := |lines| - 1;
      IdOfAbsent(lines[..n], name);
      assert lines[n] in lines;
    }
  }
}
