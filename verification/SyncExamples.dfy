/**
 Where Syncuser (internal/pkg/image/syncuser.go) falls short: tables on which each
 of the conditions proved in `SyncTables`, `SyncAgain` and `SyncOwners` is not met.
 */
module SyncExamples {
  import opened Text
  import opened Decimal
  import opened SyncTables
  import opened SyncSeam
  import opened SyncAgain
  import opened SyncOwners

  // ----- Tables of group lines -----------------------------------------------

  /** A name that a table can hold. */
  predicate TableName(name: string) {
    name != "" && ':' !in name && name[0] != '+' && name[0] != '-'
  }

  function Line(name: string, id: nat): string {
    name + ":" + ("x" + ":" + (Itoa(id) + ":" + ""))
  }

  lemma LineFields(name: string, middle: string)
    requires ':' !in name && ':' !in middle
    ensures Split(name + ":" + ("x" + ":" + (middle + ":" + "")), ':') == [name, "x", middle, ""]
  {
    hide Split;
    SplitCons(name, "x" + ":" + (middle + ":" + ""), ':');
    SplitCons("x", middle + ":" + "", ':');
    SplitCons(middle, "", ':');
    SplitNone("", ':');
  }

  lemma AtoiOfItoa(id: nat)
    requires id <= MAX_INT
    ensures Atoi(Itoa(id)) == Some(id) && ':' !in Itoa(id)
  {
    ToNatOfItoa(id);
    hide Itoa, ToNat;
  }

  lemma LineGives(name: string, id: nat)
    requires TableName(name) && id <= MAX_INT
    ensures ParseLine(Line(name, id)) == Some((name, id)) && FirstField(Line(name, id)) == name
  {
    AtoiOfItoa(id);
    LineFields(name, Itoa(id));
    hide Split, Atoi, Itoa;
  }

  lemma OneLineIds(name: string, id: nat, other: string)
    requires TableName(name) && id <= MAX_INT
    ensures IdOf([Line(name, id)], other) == if other == name then id else -1
    ensures Names([Line(name, id)]) == {name}
  {
    LineGives(name, id);
    IdOfOne(Line(name, id), other);
    hide ParseLine, Line, IdOf;
    assert forall l :: l in [Line(name, id)] <==> l == Line(name, id);
  }

  lemma TwoLineIds(a: string, i: nat, b: string, j: nat, other: string)
    requires TableName(a) && TableName(b) && a != b && i <= MAX_INT && j <= MAX_INT
    ensures IdOf([Line(a, i), Line(b, j)], other) == if other == a then i else if other == b then j else -1
    ensures Names([Line(a, i), Line(b, j)]) == {a, b}
  {
    OneLineIds(a, i, other);
    OneLineIds(b, j, other);
    IdOfAppend([Line(a, i)], [Line(b, j)], other);
    LineGives(a, i);
    LineGives(b, j);
    hide ParseLine, Line, IdOf;
    assert [Line(a, i)] + [Line(b, j)] == [Line(a, i), Line(b, j)];
    assert forall l :: l in [Line(a, i), Line(b, j)] <==> l == Line(a, i) || l == Line(b, j);
  }

  // ----- Tables on which the laws fail ---------------------------------------

  /** The only entry of an unterminated host table and the only entry of the image: the image's name loses its id. */
  lemma GluedNameLost(a: string, i: nat, b: string, j: nat)
    requires TableName(a) && TableName(b) && a != b && i <= MAX_INT && j <= MAX_INT
    ensures var host, image := TextFile([Line(a, i)], false), TextFile([Line(b, j)], true);
            && IdOf(image.lines, b) == j && IdOf(host.lines, b) == -1
            && IdOf(NewTable(host, Correlate(host.lines, image.lines), image).lines, b) == -1
            && !IdsKept(host, image)
  {
    hide ParseLine, Line, IdOf, Split, TableName, OnlyImageLines, ShortPair, FirstField, IdsKept;
    var host, image := TextFile([Line(a, i)], false), TextFile([Line(b, j)], true);
    OneLineIds(a, i, b);
    OneLineIds(b, j, b);
    LineGives(a, i);
    LineGives(b, j);
    GluedEntry(Line(a, i), Line(b, j));
    IdOfOne(Line(a, i) + Line(b, j), b);
    var db := Correlate(host.lines, image.lines);
    OnlyImageLinesOne(db, Line(b, j));
    assert NewTable(host, db, image).lines == [Line(a, i) + Line(b, j)];
    NewTableIdsIff(host, image);
    assert !HasId(host, image, b);
  }

  lemma OnlyImageLinesOne(db: Db, line: string)
    ensures OnlyImageLines(db, [line]) == if KeepsLine(db, line) then [line] else []
  {
    hide KeepsLine;
    assert [line][..0] == [];
    assert OnlyImageLines(db, []) == [];
  }

  /** A host line for `name` without a usable id. */
  function Unusable(name: string): string {
    name + ":" + ("x" + ":" + ("" + ":" + ""))
  }

  lemma UnusableLine(name: string)
    requires TableName(name)
    ensures ParseLine(Unusable(name)).None? && FirstField(Unusable(name)) == name
  {
    LineFields(name, "");
    hide Split;
  }

  /** Such a line for an image-only name is appended once more by every run. */
  lemma TableGrows(name: string, id: nat)
    requires TableName(name) && id <= MAX_INT
    ensures var host, image := TextFile([Unusable(name)], true), TextFile([Line(name, id)], true);
            var once := NewTable(host, Correlate(host.lines, image.lines), image);
            NewTable(host, Correlate(host.lines, once.lines), once) != once
  {
    hide ParseLine, Line, Unusable, IdOf, TableName, OnlyImageLines, FirstField, NewTable;
    var host, image := TextFile([Unusable(name)], true), TextFile([Line(name, id)], true);
    UnusableLine(name);
    OneLineIds(name, id, name);
    IdOfOne(Unusable(name), name);
    var db := Correlate(host.lines, image.lines);
    assert Unusable(name) in host.lines && KeepsLine(db, Unusable(name));
    SecondTable(host, image);
  }

  /** Two image names with one id and different host ids: some iteration order gives the file of one to the other. */
  lemma SharedIdMoves(a: string, i: nat, b: string, j: nat, shared: nat)
    requires TableName(a) && TableName(b) && a != b && Storable(i) && Storable(j) && Storable(shared)
    requires i != j && i != shared && j != shared
    ensures var host := TextFile([Line(a, i), Line(b, j)], true);
            var image := TextFile([Line(a, shared), Line(b, shared)], true);
            var db := Correlate(host.lines, image.lines);
            Owns(image.lines, a, shared) &&
            exists syncIds :: Choice(db, syncIds) &&
              !Owns(NewTable(host, db, image).lines, a, Renumber(db, syncIds, Inode(Regular, shared, 0), false).uid)
  {
    hide ParseLine, Line, IdOf, TableName, OnlyImageLines, FirstField, NewTable, Renumber;
    var host, image := TextFile([Line(a, i), Line(b, j)], true), TextFile([Line(a, shared), Line(b, shared)], true);
    forall n ensures IdOf(host.lines, n) == if n == a then i else if n == b then j else -1
      ensures IdOf(image.lines, n) == if n == a || n == b then shared else -1
    {
      TwoLineIds(a, i, b, j, n);
      TwoLineIds(a, shared, b, shared, n);
    }
    var db := Correlate(host.lines, image.lines);
    TwoLineIds(a, i, b, j, a);
    SharedIdKeptIff(host, image, a, Inode(Regular, shared, 0), false);
    assert db[b].Differ() && db[b].imageId == db[a].imageId && db[b].hostId != db[a].Target();
  }

  /**
   A name whose id changes loses its devices, pipes and sockets, and all its files if
   the new id does not fit 32 bits.
   */
  lemma OwnerLost(name: string, before: nat, after: nat, kind: FileKind, syncIds: map<int, string>)
    requires TableName(name) && before <= MAX_INT && after <= MAX_INT && before != after
    requires kind == Special || after >= ID_SPACE - 1
    requires Choice(Correlate([Line(name, after)], [Line(name, before)]), syncIds)
    ensures var host, image := TextFile([Line(name, after)], true), TextFile([Line(name, before)], true);
            var db := Correlate(host.lines, image.lines);
            && Owns(image.lines, name, before)
            && !Owns(NewTable(host, db, image).lines, name, Renumber(db, syncIds, Inode(kind, before, 0), false).uid)
  {
    hide ParseLine, Line, IdOf, TableName, OnlyImageLines, FirstField, NewTable, Renumber;
    var host, image := TextFile([Line(name, after)], true), TextFile([Line(name, before)], true);
    forall n ensures IdOf(image.lines, n) == if n == name then before else -1 {
      OneLineIds(name, before, n);
    }
    OneLineIds(name, after, name);
    OwnerKept(host, image, syncIds, name, Inode(kind, before, 0), false);
  }
}
