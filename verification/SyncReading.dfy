/**
 What the id tables of internal/pkg/image/syncuser.go mean, from their text up: which
 lines give an id, which id a name has, which lines are kept, when a table is out of
 sync, and what appending does to the bytes of a file.
 */
module SyncReading {
  import opened Text
  import opened Decimal
  import opened SyncTables
  import opened SyncAgain

  // ----- One line ------------------------------------------------------------

  /** Every line is one list of fields separated by colons. */
  lemma FieldsAre(line: string, fields: seq<string>)
    ensures fields != [] && (forall f :: f in fields ==> ':' !in f) && line == Join(fields, ":") <==>
            Split(line, ':') == fields
  {
    JoinSplit(line, ':');
    if fields != [] && (forall f :: f in fields ==> ':' !in f) && line == Join(fields, ":") { SplitJoin(fields, ':'); }
  }

  /**
   A line gives an id to a name if and only if it has the four fields of a group line or
   the seven of a passwd line, the name comes first and is no compat-style reference, and
   the third field is a number of 64 bits.
   */
  lemma EntryIff(line: string, name: string, id: int)
    ensures ParseLine(line) == Some((name, id)) <==>
            exists fields: seq<string> ::
              && (|fields| == 4 || |fields| == 7)
              && line == Join(fields, ":") && (forall f :: f in fields ==> ':' !in f)
              && fields[0] == name && name != "" && name[0] != '+' && name[0] != '-'
              && Atoi(fields[2]) == Some(id)
  {
    var fields := Split(line, ':');
    FieldsAre(line, fields);
    forall other | other != [] && (forall f :: f in other ==> ':' !in f) && line == Join(other, ":")
      ensures other == fields
    {
      FieldsAre(line, other);
    }
    hide Atoi, Split, Join;
  }

  /** The seven fields of a passwd line and the four of a group line, as they are usually written. */
  lemma UsualLines(name: string, id: nat, a: string, b: string, c: string, d: string, e: string)
    requires name != "" && ':' !in name && name[0] != '+' && name[0] != '-' && id <= MAX_INT
    requires ':' !in a && ':' !in b && ':' !in c && ':' !in d && ':' !in e
    ensures ParseLine(Join([name, a, Itoa(id), b, c, d, e], ":")) == Some((name, id))
    ensures ParseLine(Join([name, a, Itoa(id), b], ":")) == Some((name, id))
  {
    ToNatOfItoa(id);
    var seven, four := [name, a, Itoa(id), b, c, d, e], [name, a, Itoa(id), b];
    hide Itoa, ToNat, Join;
    assert Atoi(Itoa(id)) == Some(id) && ':' !in Itoa(id);
    hide Atoi;
    assert forall f :: f in seven || f in four ==> ':' !in f;
    EntryIff(Join(seven, ":"), name, id);
    EntryIff(Join(four, ":"), name, id);
  }

  // ----- A table -------------------------------------------------------------

  /** A name has an id if and only if the first line that gives it an id other than -1 gives it this one. */
  lemma {:induction false} IdOfIff(lines: seq<string>, name: string, id: int)
    requires id != -1
    ensures IdOf(lines, name) == id <==>
            exists i :: && 0 <= i < |lines| && ParseLine(lines[i]) == Some((name, id))
                        && forall j, other :: 0 <= j < i && other != -1 ==> ParseLine(lines[j]) != Some((name, other))
  {
    hide ParseLine;
    if lines != [] {
      var n := |lines| - 1;
      var before := IdOf(lines[..n], name);
      if before != -1 {
        IdOfIff(lines[..n], name, before);
        var k :| && 0 <= k < n && ParseLine(lines[..n][k]) == Some((name, before))
                 && forall j, other :: 0 <= j < k && other != -1 ==> ParseLine(lines[..n][j]) != Some((name, other));
        assert ParseLine(lines[k]) == Some((name, before));
        forall j, other | 0 <= j < k && other != -1 ensures ParseLine(lines[j]) != Some((name, other)) {
          assert lines[..n][j] == lines[j];
        }
      } else {
        NoEntry(lines[..n], name);
        forall j, other | 0 <= j < n && other != -1 ensures ParseLine(lines[j]) != Some((name, other)) {
          assert lines[..n][j] == lines[j];
        }
      }
    }
  }

  lemma {:induction false} NoEntry(lines: seq<string>, name: string)
    requires IdOf(lines, name) == -1
    ensures forall j, other :: 0 <= j < |lines| && other != -1 ==> ParseLine(lines[j]) != Some((name, other))
  {
    hide ParseLine;
    if lines != [] { NoEntry(lines[..|lines| - 1], name); }
  }

  /** The kept lines are the image's lines of names with an id in the image and none on the host. */
  lemma KeptIff(host: TextFile, image: TextFile, line: string)
    ensures line in Kept(host, image) <==>
            && line in image.lines
            && IdOf(image.lines, FirstField(line)) != -1 && IdOf(host.lines, FirstField(line)) == -1
  {
    hide IdOf, ParseLine, FirstField;
    var db := Correlate(host.lines, image.lines);
    Selected(db, image.lines, line);
    var n := FirstField(line);
    if IdOf(image.lines, n) != -1 { IdOfNamed(image.lines, n); }
  }

  lemma {:induction false} Selected(db: Db, lines: seq<string>, line: string)
    ensures line in OnlyImageLines(db, lines) <==> line in lines && KeepsLine(db, line)
  {
    hide KeepsLine;
    if lines != [] {
      var n := |lines| - 1;
      Selected(db, lines[..n], line);
      assert forall l :: l in lines <==> l in lines[..n] || l == lines[n];
    }
  }

  /** They are kept in their order, at their places, and as often as they occur. */
  lemma KeptPlaces(host: TextFile, image: TextFile) returns (places: seq<nat>)
    ensures |places| == |Kept(host, image)|
    ensures forall i, j :: 0 <= i < j < |places| ==> places[i] < places[j]
    ensures forall i :: 0 <= i < |places| ==>
              places[i] < |image.lines| && Kept(host, image)[i] == image.lines[places[i]]
    ensures forall k: nat :: k in places <==>
              && k < |image.lines| && IdOf(image.lines, FirstField(image.lines[k])) != -1
              && IdOf(host.lines, FirstField(image.lines[k])) == -1
  {
    var db := Correlate(host.lines, image.lines);
    places := SelectedPlaces(db, image.lines, |image.lines|);
    forall k: nat | k < |image.lines|
      ensures KeepsLine(db, image.lines[k]) <==>
              && IdOf(image.lines, FirstField(image.lines[k])) != -1
              && IdOf(host.lines, FirstField(image.lines[k])) == -1
    {
      KeepsIff(host.lines, image.lines, image.lines[k]);
    }
    assert image.lines[..|image.lines|] == image.lines;
    hide IdOf, FirstField, OnlyImageLines, KeepsLine, Correlate;
  }

  lemma KeepsIff(host: seq<string>, image: seq<string>, line: string)
    ensures KeepsLine(Correlate(host, image), line) <==>
            IdOf(image, FirstField(line)) != -1 && IdOf(host, FirstField(line)) == -1
  {
    hide IdOf, ParseLine, FirstField, Names;
    var n := FirstField(line);
    if IdOf(image, n) != -1 { IdOfNamed(image, n); }
  }

  lemma {:induction false} SelectedPlaces(db: Db, lines: seq<string>, n: nat) returns (places: seq<nat>)
    requires n <= |lines|
    ensures ArePlaces(db, lines, n, OnlyImageLines(db, lines[..n]), places)
  {
    if n == 0 {
      places := [];
    } else {
      hide KeepsLine, ArePlaces;
      places := SelectedPlaces(db, lines, n - 1);
      assert lines[..n][..n - 1] == lines[..n - 1] && lines[..n][n - 1] == lines[n - 1];
      var before := OnlyImageLines(db, lines[..n - 1]);
      PlacesSnoc(db, lines, n - 1, before, places);
      if KeepsLine(db, lines[n - 1]) { places := places + [n - 1]; }
      assert before + [] == before;
    }
  }

  ghost predicate ArePlaces(db: Db, lines: seq<string>, n: nat, kept: seq<string>, places: seq<nat>) {
    && |places| == |kept| && n <= |lines|
    && (forall i, j :: 0 <= i < j < |places| ==> places[i] < places[j])
    && (forall k: nat :: k in places <==> k < n && KeepsLine(db, lines[k]))
    && (forall i :: 0 <= i < |places| ==> places[i] < n && kept[i] == lines[places[i]])
  }

  lemma PlacesSnoc(db: Db, lines: seq<string>, n: nat, kept: seq<string>, places: seq<nat>)
    requires n < |lines| && ArePlaces(db, lines, n, kept, places)
    ensures if KeepsLine(db, lines[n]) then ArePlaces(db, lines, n + 1, kept + [lines[n]], places + [n])
            else ArePlaces(db, lines, n + 1, kept, places)
  {
    hide KeepsLine;
    forall k: nat ensures k in places + [n] <==> k in places || k == n { }
  }

  /** A table is out of sync if and only if some name has an id on the host and not the same one in the image. */
  lemma NeedsSyncIff(host: seq<string>, image: seq<string>)
    ensures NeedsSync(Correlate(host, image)) <==> exists n :: IdOf(host, n) != -1 && IdOf(image, n) != IdOf(host, n)
  {
    hide IdOf, ParseLine, Names;
    var db := Correlate(host, image);
    if n :| IdOf(host, n) != -1 && IdOf(image, n) != IdOf(host, n) {
      IdOfNamed(host, n);
      assert n in db && (db[n].OnlyHost() || db[n].Differ());
    }
    if n :| n in db && (db[n].OnlyHost() || db[n].Differ()) {
      assert IdOf(host, n) != -1 && IdOf(image, n) != IdOf(host, n);
    }
  }

  /** They conflict if and only if a name without a host id has an image id that the host gives to some name. */
  lemma ConflictIff(host: seq<string>, image: seq<string>)
    ensures Conflict(Correlate(host, image)) <==>
            exists a, b :: IdOf(host, a) == -1 && IdOf(image, a) != -1 && IdOf(host, b) == IdOf(image, a)
  {
    ConflictIn(host, image);
    if a, b :| IdOf(host, a) == -1 && IdOf(image, a) != -1 && IdOf(host, b) == IdOf(image, a) {
      assert Clash(host, image, a, b);
      assert Conflict(Correlate(host, image));
      assert exists a, b :: IdOf(host, a) == -1 && IdOf(image, a) != -1 && IdOf(host, b) == IdOf(image, a);
    }
  }

  // ----- The bytes of a file -------------------------------------------------

  /** What is written for a list of lines. */
  function Printed(lines: seq<string>): string {
    FlatMap((line: string) => line + "\n", lines)
  }

  lemma PrintedAppend(a: seq<string>, b: seq<string>)
    ensures Printed(a + b) == Printed(a) + Printed(b)
  {
    var f := (line: string) => line + "\n";
    FlatMapAppend(f, a, b);
    FlatMapSame(f, (line: string) => line + "\n", a + b);
    FlatMapSame(f, (line: string) => line + "\n", a);
    FlatMapSame(f, (line: string) => line + "\n", b);
  }

  lemma PrintedOne(line: string)
    ensures Printed([line]) == line + "\n"
  {
    FlatMapOne((l: string) => l + "\n", line);
  }

  /** The bytes of a file, in which only the last line may lack its newline. */
  function Bytes(file: TextFile): string {
    if file.lines == [] then ""
    else
      var n := |file.lines| - 1;
      Printed(file.lines[..n]) + file.lines[n] + (if file.terminated then "\n" else "")
  }

  lemma TerminatedBytes(lines: seq<string>)
    ensures Bytes(TextFile(lines, true)) == Printed(lines)
  {
    if lines != [] {
      var n := |lines| - 1;
      assert lines == lines[..n] + [lines[n]];
      PrintedAppend(lines[..n], [lines[n]]);
      PrintedOne(lines[n]);
    }
  }

  /** On the bytes, appending is appending: every line with its newline, and nothing before it is touched. */
  lemma AppendedBytes(file: TextFile, lines: seq<string>)
    ensures Bytes(AppendLines(file, lines)) == Bytes(file) + Printed(lines)
  {
    if lines == [] {
      assert Printed(lines) == "";
    } else if file.lines == [] || file.terminated {
      TerminatedBytes(file.lines + lines);
      TerminatedBytes(file.lines);
      PrintedAppend(file.lines, lines);
    } else {
      hide Printed;
      var n := |file.lines| - 1;
      var before, last, first, rest := file.lines[..n], file.lines[n], lines[0], lines[1..];
      TerminatedBytes(before + [last + first] + rest);
      PrintedAppend(before + [last + first], rest);
      PrintedAppend(before, [last + first]);
      PrintedOne(last + first);
      assert lines == [first] + rest;
      PrintedAppend([first], rest);
      PrintedOne(first);
    }
  }
}
