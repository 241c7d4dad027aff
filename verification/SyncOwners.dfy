/**
 The meaning of Syncuser (internal/pkg/image/syncuser.go): which name owns a file
 before and after the ids of a whole image are renumbered at once.
 */
module SyncOwners {
  import opened SyncTables
  import opened SyncSeam
  import opened SyncAgain

  // ----- Files and their ids -------------------------------------------------

  /** Regular files and directories are chowned; devices, pipes and sockets are not. */
  datatype FileKind = Regular | Directory | Special

  datatype Inode = Inode(kind: FileKind, uid: int, gid: int)

  const ID_SPACE: int := 0x1_0000_0000

  function IdBy(node: Inode, byGid: bool): int {
    if byGid then node.gid else node.uid
  }

  function WithId(node: Inode, byGid: bool, id: int): Inode {
    if byGid then node.(gid := id) else node.(uid := id)
  }

  /** `chown` on Linux: ids are 32 bits wide, and all ones leaves the id alone. */
  function Chowned(request: int, current: int): int {
    var id := request % ID_SPACE;
    if id == ID_SPACE - 1 then current else id
  }

  function Rechown(node: Inode, byGid: bool, hostId: int): Inode {
    if node.kind == Special then node else WithId(node, byGid, Chowned(hostId, IdBy(node, byGid)))
  }

  /** The `syncIDs` map: one differing name for every image id such a name holds. */
  ghost predicate Choice(db: Db, syncIds: map<int, string>) {
    && (forall id :: id in syncIds ==>
          syncIds[id] in db && db[syncIds[id]].Differ() && db[syncIds[id]].imageId == id)
    && (forall n :: n in db && db[n].Differ() ==> db[n].imageId in syncIds)
  }

  /** What the two phases do to one file. */
  function Renumber(db: Db, syncIds: map<int, string>, node: Inode, byGid: bool): Inode
    requires forall id :: id in syncIds ==> syncIds[id] in db
  {
    var id := IdBy(node, byGid);
    if id in syncIds then Rechown(node, byGid, db[syncIds[id]].hostId) else node
  }

  // ----- Ownership by name ---------------------------------------------------

  /** The table gives this id to this name. */
  predicate Owns(lines: seq<string>, name: string, id: int) {
    id != -1 && IdOf(lines, name) == id
  }

  ghost predicate UniqueIds(lines: seq<string>) {
    forall a, b, id :: Owns(lines, a, id) && Owns(lines, b, id) ==> a == b
  }

  /** An id that `chown` can store. */
  predicate Storable(id: int) {
    0 <= id < ID_SPACE - 1
  }

  lemma ChownedStores(request: int, current: int)
    requires request != current
    ensures Chowned(request, current) == request <==> Storable(request)
  {
  }

  /**
   On all tables with unique image ids: a name that owns a file still owns it after the
   sync, whatever ids are swapped, if and only if it has its id in the new table and the
   file could be given that id.
   */
  lemma OwnerKept(host: TextFile, image: TextFile, syncIds: map<int, string>, name: string, node: Inode, byGid: bool)
    requires Choice(Correlate(host.lines, image.lines), syncIds)
    requires UniqueIds(image.lines) && Owns(image.lines, name, IdBy(node, byGid))
    ensures var db := Correlate(host.lines, image.lines);
            && name in db
            && (Owns(NewTable(host, db, image).lines, name, IdBy(Renumber(db, syncIds, node, byGid), byGid)) <==>
                  && HasId(host, image, name)
                  && (!db[name].Differ() || (node.kind != Special && Storable(db[name].hostId))))
  {
    hide IdOf, NewTable, Correlate;
    var db := Correlate(host.lines, image.lines);
    var id := IdBy(node, byGid);
    IdOfNamed(image.lines, name);
    if IdOf(host.lines, name) != -1 { HostIdOrNone(host, image, name); }
    if id in syncIds {
      var other := syncIds[id];
      assert Owns(image.lines, other, id);
      assert other == name;
      ChownedStores(db[name].hostId, id);
    } else {
      assert !db[name].Differ();
    }
  }

  lemma NoClash(host: seq<string>, image: seq<string>, a: string, b: string)
    requires !Conflict(Correlate(host, image)) && IdOf(host, a) == -1 && IdOf(image, a) != -1
    ensures IdOf(host, b) != IdOf(image, a)
  {
    hide IdOf, ParseLine, Names;
    var db := Correlate(host, image);
    IdOfNamed(image, a);
    if IdOf(host, b) != -1 {
      IdOfNamed(host, b);
      assert db[a].OnlyImage() && b in db;
    }
  }

  /** Names that have their right ids in the new table share none. */
  lemma UniqueAmong(host: TextFile, image: TextFile, a: string, b: string, id: int)
    requires UniqueIds(host.lines) && UniqueIds(image.lines) && !Conflict(Correlate(host.lines, image.lines))
    requires HasId(host, image, a) && HasId(host, image, b)
    requires var table := NewTable(host, Correlate(host.lines, image.lines), image).lines;
             Owns(table, a, id) && Owns(table, b, id)
    ensures a == b
  {
    hide IdOf, NewTable, Correlate, Conflict;
    if !Owns(host.lines, a, id) && !Owns(host.lines, b, id) {
      assert Owns(image.lines, a, id) && Owns(image.lines, b, id);
    } else if !Owns(host.lines, b, id) {
      NoClash(host.lines, image.lines, b, a);
    } else if !Owns(host.lines, a, id) {
      NoClash(host.lines, image.lines, a, b);
    }
  }

  /** The new table gives no id to two names, where all ids are kept. */
  lemma NewTableUnique(host: TextFile, image: TextFile)
    requires IdsKept(host, image) && UniqueIds(host.lines) && UniqueIds(image.lines)
    requires !Conflict(Correlate(host.lines, image.lines))
    ensures UniqueIds(NewTable(host, Correlate(host.lines, image.lines), image).lines)
  {
    hide IdOf, NewTable, Correlate, IdsKept, HasId, Conflict;
    var table := NewTable(host, Correlate(host.lines, image.lines), image).lines;
    NewTableIdsIff(host, image);
    forall a, b, id | Owns(table, a, id) && Owns(table, b, id) ensures a == b {
      UniqueAmong(host, image, a, b, id);
    }
  }

  /**
   The law of Syncuser, on all tables with unique ids and no conflict: a file that can be
   chowned is owned afterwards by the name that owned it and by no other, if and only if
   that name has its id in the new table and no stray name has the same id there.
   */
  lemma NameSurvives(host: TextFile, image: TextFile, syncIds: map<int, string>, name: string, node: Inode, byGid: bool)
    requires Choice(Correlate(host.lines, image.lines), syncIds)
    requires UniqueIds(host.lines) && UniqueIds(image.lines) && !Conflict(Correlate(host.lines, image.lines))
    requires forall n :: IdOf(host.lines, n) == -1 || Storable(IdOf(host.lines, n))
    requires node.kind != Special && Owns(image.lines, name, IdBy(node, byGid))
    ensures var db := Correlate(host.lines, image.lines);
            var id := IdBy(Renumber(db, syncIds, node, byGid), byGid);
            && name in db
            && ((forall n :: Owns(NewTable(host, db, image).lines, n, id) <==> n == name) <==>
                  HasId(host, image, name) && !Strays(host, image, db[name].Target()))
  {
    hide NewTable, Renumber, Correlate, Strays, Conflict, UniqueIds;
    var db := Correlate(host.lines, image.lines);
    var table := NewTable(host, db, image).lines;
    var id := IdBy(Renumber(db, syncIds, node, byGid), byGid);
    OwnerKept(host, image, syncIds, name, node, byGid);
    StraysIff(host, image, db[name].Target());
    hide IdOf;
    assert Owns(table, name, id) <==> HasId(host, image, name);
    if HasId(host, image, name) {
      assert id == db[name].Target();
      forall n | Owns(table, n, id) && HasId(host, image, n) ensures n == name {
        UniqueAmong(host, image, n, name, id);
      }
      hide HasId;
      if Strays(host, image, id) {
        var m :| !HasId(host, image, m) && IdOf(table, m) == id;
        assert Owns(table, m, id) && m != name;
      } else {
        forall n | Owns(table, n, id) ensures n == name {
          assert HasId(host, image, n);
        }
      }
    }
  }

  /**
   On all tables: a file whose id had no name keeps that id, and its names afterwards are
   the host's, if and only if these have their ids in the new table and no stray name has.
   */
  lemma OrphanKeepsId(host: TextFile, image: TextFile, syncIds: map<int, string>, node: Inode, byGid: bool)
    requires Choice(Correlate(host.lines, image.lines), syncIds)
    requires IdBy(node, byGid) != -1 && forall n :: !Owns(image.lines, n, IdBy(node, byGid))
    ensures var db := Correlate(host.lines, image.lines);
            var table, id := NewTable(host, db, image).lines, IdBy(node, byGid);
            && Renumber(db, syncIds, node, byGid) == node
            && ((forall n :: Owns(table, n, id) <==> Owns(host.lines, n, id)) <==>
                  !Strays(host, image, id) && forall n :: Owns(host.lines, n, id) ==> HasId(host, image, n))
  {
    hide IdOf, NewTable, Correlate, Strays;
    var db := Correlate(host.lines, image.lines);
    var table, id := NewTable(host, db, image).lines, IdBy(node, byGid);
    assert id in syncIds ==> Owns(image.lines, syncIds[id], id);
    StraysIff(host, image, id);
    forall n
      ensures HasId(host, image, n) ==> (Owns(table, n, id) <==> Owns(host.lines, n, id))
      ensures Owns(table, n, id) && Owns(host.lines, n, id) ==> HasId(host, image, n)
    {
      assert !Owns(image.lines, n, id);
    }
    hide HasId;
    if m :| !HasId(host, image, m) && IdOf(table, m) == id {
      assert Owns(table, m, id) && !Owns(host.lines, m, id);
    }
  }

  /** On all tables: a second run finds no id to change, so it moves no file. */
  lemma SecondRunMovesNothing(host: TextFile, image: TextFile, syncIds: map<int, string>, node: Inode, byGid: bool)
    requires var once := NewTable(host, Correlate(host.lines, image.lines), image);
             Choice(Correlate(host.lines, once.lines), syncIds)
    ensures var once := NewTable(host, Correlate(host.lines, image.lines), image);
            Renumber(Correlate(host.lines, once.lines), syncIds, node, byGid) == node
  {
    hide NewTable, Correlate, HasId, IdOf, OldConflict, StrayConflict;
    SyncSettles(host, image);
  }

  ghost function DifferIds(db: Db): set<int> {
    set n | n in db && db[n].Differ() :: db[n].imageId
  }

  ghost function NameFor(db: Db, id: int): string
    requires id in DifferIds(db)
  {
    var n :| n in db && db[n].Differ() && db[n].imageId == id; n
  }

  /** A choice that picks `m` for its image id. */
  ghost function ChoiceOf(db: Db, m: string): (r: map<int, string>)
    requires m in db && db[m].Differ()
    ensures Choice(db, r) && db[m].imageId in r && r[db[m].imageId] == m
  {
    map id | id in DifferIds(db) :: if db[m].imageId == id then m else NameFor(db, id)
  }

  lemma RenumberedId(db: Db, syncIds: map<int, string>, node: Inode, byGid: bool)
    requires Choice(db, syncIds) && node.kind != Special && IdBy(node, byGid) in syncIds
    requires Storable(db[syncIds[IdBy(node, byGid)]].hostId)
    ensures IdBy(Renumber(db, syncIds, node, byGid), byGid) == db[syncIds[IdBy(node, byGid)]].hostId
  {
    ChownedStores(db[syncIds[IdBy(node, byGid)]].hostId, IdBy(node, byGid));
  }

  /** Some choice exists. */
  ghost function AnyChoice(db: Db): (r: map<int, string>)
    ensures Choice(db, r)
  {
    map id | id in DifferIds(db) :: NameFor(db, id)
  }

  /** All differing names with this image id go to this host id, and there is one, or the id stays. */
  ghost predicate AllGoTo(db: Db, id: int, target: int) {
    && (forall m :: m in db && db[m].Differ() && db[m].imageId == id ==> db[m].hostId == target)
    && (id in DifferIds(db) || target == id)
  }

  /**
   Without unique image ids, on all tables: a name keeps its file under every map
   iteration order if and only if all differing names that share its image id go to the
   id the name has in the new table. That is its own target if it has its right id there.
   */
  lemma SharedIdKeptIff(host: TextFile, image: TextFile, name: string, node: Inode, byGid: bool)
    requires node.kind != Special && Owns(image.lines, name, IdBy(node, byGid))
    requires forall n :: IdOf(host.lines, n) == -1 || Storable(IdOf(host.lines, n))
    ensures var db := Correlate(host.lines, image.lines);
            var table := NewTable(host, db, image).lines;
            && name in db
            && ((forall syncIds :: Choice(db, syncIds) ==>
                   Owns(table, name, IdBy(Renumber(db, syncIds, node, byGid), byGid))) <==>
                IdOf(table, name) != -1 && AllGoTo(db, IdBy(node, byGid), IdOf(table, name)))
            && (HasId(host, image, name) ==> IdOf(table, name) == db[name].Target())
  {
    hide IdOf, NewTable, Renumber, Storable;
    var db := Correlate(host.lines, image.lines);
    var table := NewTable(host, db, image).lines;
    var id, target := IdBy(node, byGid), IdOf(table, name);
    IdOfNamed(image.lines, name);
    hide Correlate;
    forall syncIds | Choice(db, syncIds)
      ensures Owns(table, name, IdBy(Renumber(db, syncIds, node, byGid), byGid)) <==>
              target != -1 && target == if id in syncIds then db[syncIds[id]].hostId else id
    {
      if id in syncIds {
        RenumberedId(db, syncIds, node, byGid);
      } else {
        Untouched(db, syncIds, node, byGid);
      }
    }
    forall m | m in db && db[m].Differ() && db[m].imageId == id
      ensures Choice(db, ChoiceOf(db, m)) && ChoiceOf(db, m)[id] == m
    {
    }
    assert Choice(db, AnyChoice(db));
  }

  lemma Untouched(db: Db, syncIds: map<int, string>, node: Inode, byGid: bool)
    requires Choice(db, syncIds) && IdBy(node, byGid) !in syncIds
    ensures Renumber(db, syncIds, node, byGid) == node
  {
  }
}
