/**
 The imperative Syncuser of internal/pkg/image/syncuser.go: a database object and
 an image object updated in place, tied to the values of `SyncTables` and `SyncOwners`.
 */
module Syncuser {
  import opened Text
  import opened Decimal
  import opened SyncTables
  import opened SyncReading
  import opened SyncAgain
  import opened SyncOwners

  const PASSWD_PATH := "/etc/passwd"
  const GROUP_PATH := "/etc/group"

  /** A file of the host: its text and the ids that CopyFile transfers. */
  datatype HostFile = HostFile(text: TextFile, uid: int, gid: int)

  /** The tables read below Sysconfdir, and the ones copied from /etc. */
  datatype Host = Host(passwd: TextFile, group: TextFile, etcPasswd: HostFile, etcGroup: HostFile)

  datatype Outcome = Collision | Synced | Checked(needsSync: bool)

  class Image {
    var files: map<string, Inode>
    var passwd: TextFile
    var group: TextFile

    constructor (files: map<string, Inode>, passwd: TextFile, group: TextFile)
      ensures this.files == files && this.passwd == passwd && this.group == group
    {
      this.files, this.passwd, this.group := files, passwd, group;
    }
  }

  /** Only the file lists differ. */
  ghost predicate SameIds(a: Db, b: Db) {
    && a.Keys == b.Keys
    && forall n :: n in a ==> a[n].hostId == b[n].hostId && a[n].imageId == b[n].imageId
  }

  /** The lists hold, for every name, the visited files whose id was chosen for it. */
  ghost predicate Recorded(db: Db, syncIds: map<int, string>, files: map<string, Inode>, visited: set<string>,
                           byGid: bool) {
    && visited <= files.Keys
    && forall n, p :: n in db ==>
         (p in db[n].imageFiles <==>
            p in visited && IdBy(files[p], byGid) in syncIds && syncIds[IdBy(files[p], byGid)] == n)
  }

  /** Every file after both phases of one id kind. */
  ghost function Renumbered(db: Db, syncIds: map<int, string>, files: map<string, Inode>, byGid: bool): map<string,
                            Inode>
    requires Choice(db, syncIds)
  {
    map p | p in files :: Renumber(db, syncIds, files[p], byGid)
  }

  lemma NamesSnoc(lines: seq<string>, line: string)
    ensures Names(lines + [line]) ==
            Names(lines) + (if ParseLine(line).Some? then {ParseLine(line).value.0} else {})
  {
    hide ParseLine;
    assert forall l :: l in lines + [line] <==> l in lines || l == line;
  }

  lemma IdOfSnoc(lines: seq<string>, line: string, name: string)
    ensures IdOf(lines + [line], name) ==
            FirstOf(IdOf(lines, name),
                    if ParseLine(line).Some? && ParseLine(line).value.0 == name then ParseLine(line).value.1 else -1)
  {
    hide ParseLine;
    assert (lines + [line])[..|lines|] == lines;
  }

  lemma ReadLineStep(db: Db, lines: seq<string>, line: string, fromImage: bool)
    ensures var was, now := WithTable(db, lines, fromImage), WithTable(db, lines + [line], fromImage);
            match ParseLine(line)
            case None => now == was
            case Some((name, id)) => now == was[name := Fill(Entry(was, name), id, fromImage)]
  {
    hide ParseLine, IdOf, Names;
    NamesSnoc(lines, line);
    forall n
      ensures IdOf(lines, n) != -1 ==> n in Names(lines)
      ensures IdOf(lines + [line], n) ==
              FirstOf(IdOf(lines, n),
                      if ParseLine(line).Some? && ParseLine(line).value.0 == n then ParseLine(line).value.1 else -1)
    {
      IdOfSnoc(lines, line, n);
      if IdOf(lines, n) != -1 { IdOfNamed(lines, n); }
    }
  }

  class SyncDb {
    var db: Db

    constructor ()
      ensures db == map[]
    {
      db := map[];
    }

    /** `read`: the first id of a name wins; a repeated or differing id is ignored. */
    method Read(file: TextFile, fromImage: bool)
      modifies this
      ensures db == WithTable(old(db), file.lines, fromImage)
    {
      hide *;
      ReadNone(db, file.lines, fromImage);
      for i := 0 to |file.lines|
        invariant db == WithTable(old(db), file.lines[..i], fromImage)
      {
        assert file.lines[..i + 1] == file.lines[..i] + [file.lines[i]];
        ReadLineStep(old(db), file.lines[..i], file.lines[i], fromImage);
        ReadLine(file.lines[i], fromImage);
      }
      assert file.lines[..|file.lines|] == file.lines;
    }

    method ReadLine(line: string, fromImage: bool)
      modifies this
      ensures match ParseLine(line)
              case None => db == old(db)
              case Some((name, id)) => db == old(db)[name := Fill(Entry(old(db), name), id, fromImage)]
    {
      var fields := Split(line, ':');
      if |fields| != 7 && |fields| != 4 {
        return;
      }
      var name := fields[0];
      if name == "" || HasPrefix(name, "+") || HasPrefix(name, "-") {
        return;
      }
      var parsed := Atoi(fields[2]);
      if parsed.None? {
        return;
      }
      var id := parsed.value;
      hide Split, Atoi, HasPrefix;
      var entry := if name in db then db[name] else Blank();
      if fromImage {
        if entry.imageId == -1 {
          entry := entry.(imageId := id);
        } else if entry.imageId != id {
          assert db == db[name := db[name]];
          return;
        }
      } else {
        if entry.hostId == -1 {
          entry := entry.(hostId := id);
        } else if entry.hostId != id {
          assert db == db[name := db[name]];
          return;
        }
      }
      db := db[name := entry];
    }

    /** `checkConflicts`. */
    method CheckConflicts() returns (ok: bool)
      ensures !ok <==>
              exists a, b :: a in db && b in db && db[a].hostId == -1 && db[a].imageId != -1 &&
                             db[b].hostId == db[a].imageId
    {
      var names := db.Keys;
      ghost var seen: set<string> := {};
      while names != {}
        invariant seen + names == db.Keys
        invariant forall a, b :: a in seen && b in db && db[a].OnlyImage() ==> db[b].hostId != db[a].imageId
        decreases |names|
      {
        var nameInImage :| nameInImage in names;
        names, seen := names - {nameInImage}, seen + {nameInImage};
        var imageIds := db[nameInImage];
        if !imageIds.InImage() || imageIds.InHost() {
          continue;
        }
        if nameInHost :| nameInHost in db && db[nameInHost].hostId == imageIds.imageId {
          return false;
        }
      }
      return true;
    }

    /** The map from image id to one differing name; which one depends on iteration order. */
    method SyncIds() returns (syncIds: map<int, string>)
      ensures Choice(db, syncIds)
    {
      syncIds := map[];
      var names := db.Keys;
      while names != {}
        invariant names <= db.Keys
        invariant forall id :: id in syncIds ==>
                    syncIds[id] in db && db[syncIds[id]].Differ() && db[syncIds[id]].imageId == id
        invariant forall n :: n in db.Keys - names && db[n].Differ() ==> db[n].imageId in syncIds
        decreases |names|
      {
        var name :| name in names;
        names := names - {name};
        var info := db[name];
        if info.InHost() && info.InImage() && !info.Match() {
          syncIds := syncIds[info.imageId := name];
        }
      }
    }

    /** `findFiles`: every file of the tree is recorded under the name chosen for its id. */
    method FindFiles(image: Image, byGid: bool) returns (syncIds: map<int, string>)
      requires forall n :: n in db ==> db[n].imageFiles == []
      modifies this
      ensures SameIds(db, old(db)) && Choice(db, syncIds)
      ensures Recorded(db, syncIds, image.files, image.files.Keys, byGid)
    {
      hide *;
      syncIds := SyncIds();
      var files := image.files;
      var todo := files.Keys;
      ghost var visited: set<string> := {};
      RecordedNone(db, syncIds, files, byGid);
      while todo != {}
        invariant image.files == files && visited + todo == files.Keys
        invariant SameIds(db, old(db)) && Recorded(db, syncIds, files, visited, byGid)
        invariant visited !! todo
        decreases |todo|
      {
        var filePath :| filePath in todo;
        RecordStep(db, syncIds, files, visited, byGid, filePath);
        SameIdsStep(db, old(db), syncIds, filePath, IdBy(files[filePath], byGid));
        todo, visited := todo - {filePath}, visited + {filePath};
        var id := IdBy(files[filePath], byGid);
        ChosenInDb(old(db), db, syncIds, id);
        if id in syncIds {
          var info := db[syncIds[id]];
          db := db[syncIds[id] := info.(imageFiles := info.imageFiles + [filePath])];
        }
      }
      ChoiceSame(old(db), db, syncIds);
    }

    /** `chownFiles` of the database: every list goes to the host id of its name. */
    method ChownFiles(image: Image, byGid: bool, ghost syncIds: map<int, string>)
      requires Choice(db, syncIds) && Recorded(db, syncIds, image.files, image.files.Keys, byGid)
      modifies image`files
      ensures image.files == Renumbered(db, syncIds, old(image.files), byGid)
    {
      hide *;
      ghost var before := image.files;
      var names := db.Keys;
      PartlyBounds(db, syncIds, before, byGid);
      while names != {}
        invariant names <= db.Keys
        invariant PartlyChowned(db, syncIds, before, image.files, byGid, names)
        decreases |names|
      {
        var name :| name in names;
        PartlyKeys(db, syncIds, before, image.files, byGid, names);
        ListInTree(db, syncIds, before, byGid, name);
        ghost var sofar := image.files;
        ChownList(db[name], image, byGid);
        PartlyStep(db, syncIds, before, sofar, byGid, names, name);
        names := names - {name};
      }
    }

    /** `getOnlyimageLines`. */
    method GetOnlyImageLines(file: TextFile) returns (lines: seq<string>)
      ensures lines == OnlyImageLines(db, file.lines)
    {
      lines := [];
      for i := 0 to |file.lines|
        invariant lines == OnlyImageLines(db, file.lines[..i])
      {
        var line := file.lines[i];
        assert file.lines[..i + 1][..i] == file.lines[..i];
        var fields := Split(line, ':');
        if fields[0] in db {
          if db[fields[0]].OnlyImage() {
            lines := lines + [line];
          }
        }
      }
      assert file.lines[..|file.lines|] == file.lines;
    }

    /** `update` of the image's passwd file. */
    method UpdatePasswd(image: Image, source: HostFile)
      modifies image`passwd, image`files
      ensures image.passwd == NewTable(source.text, db, old(image.passwd))
      ensures image.files == old(image.files)[PASSWD_PATH := Inode(Regular, source.uid, source.gid)]
    {
      var lines := GetOnlyImageLines(image.passwd);
      image.passwd := source.text;
      image.files := image.files[PASSWD_PATH := Inode(Regular, source.uid, source.gid)];
      image.passwd := AppendLines(image.passwd, lines);
    }

    /** `update` of the image's group file. */
    method UpdateGroup(image: Image, source: HostFile)
      modifies image`group, image`files
      ensures image.group == NewTable(source.text, db, old(image.group))
      ensures image.files == old(image.files)[GROUP_PATH := Inode(Regular, source.uid, source.gid)]
    {
      var lines := GetOnlyImageLines(image.group);
      image.group := source.text;
      image.files := image.files[GROUP_PATH := Inode(Regular, source.uid, source.gid)];
      image.group := AppendLines(image.group, lines);
    }

    method NeedsSync() returns (r: bool)
      ensures r <==> exists n :: n in db && db[n].hostId != -1 && db[n].imageId != db[n].hostId
    {
      var names := db.Keys;
      while names != {}
        invariant names <= db.Keys
        invariant forall n :: n in db.Keys - names ==> !db[n].OnlyHost() && !db[n].Differ()
        decreases |names|
      {
        var name :| name in names;
        names := names - {name};
        if db[name].OnlyHost() || db[name].Differ() {
          return true;
        }
      }
      return false;
    }
  }

  lemma ReadNone(db: Db, lines: seq<string>, fromImage: bool)
    ensures WithTable(db, lines[..0], fromImage) == db
  {
    assert lines[..0] == [];
  }

  lemma RecordedNone(db: Db, syncIds: map<int, string>, files: map<string, Inode>, byGid: bool)
    requires forall n :: n in db ==> db[n].imageFiles == []
    ensures Recorded(db, syncIds, files, {}, byGid) && SameIds(db, db)
  {
  }

  lemma RecordStep(db: Db, syncIds: map<int, string>, files: map<string, Inode>, visited: set<string>, byGid: bool,
                   p: string)
    requires Recorded(db, syncIds, files, visited, byGid) && p in files && p !in visited
    ensures var id := IdBy(files[p], byGid);
            var now := if id in syncIds && syncIds[id] in db
                       then db[syncIds[id] := db[syncIds[id]].(imageFiles := db[syncIds[id]].imageFiles + [p])] else db;
            Recorded(now, syncIds, files, visited + {p}, byGid)
  {
    hide IdBy;
  }

  lemma SameIdsStep(db: Db, was: Db, syncIds: map<int, string>, p: string, id: int)
    requires SameIds(db, was)
    ensures id in syncIds && syncIds[id] in db ==>
              SameIds(db[syncIds[id] := db[syncIds[id]].(imageFiles := db[syncIds[id]].imageFiles + [p])], was)
  {
  }

  lemma ChosenInDb(was: Db, db: Db, syncIds: map<int, string>, id: int)
    requires Choice(was, syncIds) && SameIds(db, was)
    ensures id in syncIds ==> syncIds[id] in db
  {
  }

  lemma ChoiceSame(a: Db, b: Db, syncIds: map<int, string>)
    requires Choice(a, syncIds) && SameIds(b, a)
    ensures Choice(b, syncIds)
  {
  }

  /** `syncInfo.chownFiles`: apply the host id to every listed file. */
  method ChownList(info: SyncInfo, image: Image, byGid: bool)
    requires forall p :: p in info.imageFiles ==> p in image.files
    modifies image`files
    ensures image.files.Keys == old(image.files).Keys
    ensures forall p :: p in image.files ==>
              image.files[p] == if p in info.imageFiles then Rechown(old(image.files)[p], byGid, info.hostId)
                                else old(image.files)[p]
  {
    hide *;
    ghost var before := image.files;
    for i := 0 to |info.imageFiles|
      invariant image.files.Keys == before.Keys
      invariant forall p :: p in image.files ==>
                  image.files[p] ==
                        if p in info.imageFiles[..i] then Rechown(before[p], byGid, info.hostId) else before[p]
    {
      var file := info.imageFiles[i];
      assert info.imageFiles[..i + 1] == info.imageFiles[..i] + [file];
      RechownTwice(before[file], byGid, info.hostId);
      var node := image.files[file];
      image.files := image.files[file := Chown(node, byGid, info.hostId)];
      ChownIs(node, byGid, info.hostId);
    }
    assert info.imageFiles[..|info.imageFiles|] == info.imageFiles;
  }

  /** `os.Stat` decides whether `os.Chown` is called at all. */
  function Chown(node: Inode, byGid: bool, hostId: int): Inode {
    if node.kind == Directory || node.kind == Regular then
      var newUid := if byGid then -1 else hostId;
      var newGid := if byGid then hostId else -1;
      Inode(node.kind, Chowned(newUid, node.uid), Chowned(newGid, node.gid))
    else node
  }

  /** Passing -1 for the other id leaves it alone. */
  lemma ChownIs(node: Inode, byGid: bool, hostId: int)
    ensures Chown(node, byGid, hostId) == Rechown(node, byGid, hostId)
  {
    assert -1 % ID_SPACE == ID_SPACE - 1;
  }

  lemma RechownTwice(node: Inode, byGid: bool, hostId: int)
    ensures Rechown(Rechown(node, byGid, hostId), byGid, hostId) == Rechown(node, byGid, hostId)
  {
  }

  /** Files whose chosen name is still in `names` are as before, the others renumbered. */
  ghost predicate PartlyChowned(db: Db, syncIds: map<int, string>, before: map<string, Inode>,
                                now: map<string, Inode>, byGid: bool, names: set<string>)
    requires Choice(db, syncIds)
  {
    && now.Keys == before.Keys
    && forall p :: p in before ==>
         var id := IdBy(before[p], byGid);
         now[p] == if id in syncIds && syncIds[id] !in names then Renumber(db, syncIds, before[p], byGid) else before[p]
  }

  lemma PartlyBounds(db: Db, syncIds: map<int, string>, before: map<string, Inode>, byGid: bool)
    requires Choice(db, syncIds)
    ensures PartlyChowned(db, syncIds, before, before, byGid, db.Keys)
    ensures forall now :: PartlyChowned(db, syncIds, before, now, byGid, {}) ==>
                          now == Renumbered(db, syncIds, before, byGid)
  {
    hide Rechown;
  }

  lemma PartlyKeys(db: Db, syncIds: map<int, string>, before: map<string, Inode>,
                   now: map<string, Inode>, byGid: bool, names: set<string>)
    requires Choice(db, syncIds) && PartlyChowned(db, syncIds, before, now, byGid, names)
    ensures now.Keys == before.Keys
  {
  }

  lemma ListInTree(db: Db, syncIds: map<int, string>, files: map<string, Inode>, byGid: bool, name: string)
    requires Recorded(db, syncIds, files, files.Keys, byGid) && name in db
    ensures forall p :: p in db[name].imageFiles ==> p in files
  {
  }

  lemma PartlyStep(db: Db, syncIds: map<int, string>, before: map<string, Inode>,
                   sofar: map<string, Inode>, byGid: bool, names: set<string>, name: string)
    requires Choice(db, syncIds) && Recorded(db, syncIds, before, before.Keys, byGid)
    requires PartlyChowned(db, syncIds, before, sofar, byGid, names) && name in names && name in db
    ensures forall now: map<string, Inode> ::
              now.Keys == sofar.Keys &&
              (forall p :: p in now ==>
                 now[p] == if p in db[name].imageFiles then Rechown(sofar[p], byGid, db[name].hostId) else sofar[p]) ==>
              PartlyChowned(db, syncIds, before, now, byGid, names - {name})
  {
    hide IdBy, Rechown;
  }

  // ----- Syncuser ------------------------------------------------------------

  /** An image as a value. */
  datatype Content = Content(files: map<string, Inode>, passwd: TextFile, group: TextFile)

  function Users(host: Host, image: Content): Db {
    Correlate(host.passwd.lines, image.passwd.lines)
  }

  function Groups(host: Host, image: Content): Db {
    Correlate(host.group.lines, image.group.lines)
  }

  /** What a writing Syncuser leaves of an image; the choices come from the map iterations. */
  ghost predicate Written(host: Host, before: Content, after: Content, userIds: map<int, string>, groupIds: map<int,
                          string>) {
    var users, groups := Users(host, before), Groups(host, before);
    && !Conflict(users) && !Conflict(groups)
    && Choice(users, userIds) && Choice(groups, groupIds)
    && after.passwd == NewTable(host.etcPasswd.text, users, before.passwd)
    && after.group == NewTable(host.etcGroup.text, groups, before.group)
    && after.files == Renumbered(groups, groupIds, Renumbered(users, userIds, before.files, false), true)
                        [PASSWD_PATH := Inode(Regular, host.etcPasswd.uid, host.etcPasswd.gid)]
                        [GROUP_PATH := Inode(Regular, host.etcGroup.uid, host.etcGroup.gid)]
  }

  lemma WrittenIntro(host: Host, before: Content, after: Content, userIds: map<int, string>, groupIds: map<int, string>)
    requires var users := Correlate(host.passwd.lines, before.passwd.lines);
             var groups := Correlate(host.group.lines, before.group.lines);
             && !Conflict(users) && !Conflict(groups)
             && Choice(users, userIds) && Choice(groups, groupIds)
             && after.passwd == NewTable(host.etcPasswd.text, users, before.passwd)
             && after.group == NewTable(host.etcGroup.text, groups, before.group)
             && after.files == Renumbered(groups, groupIds, Renumbered(users, userIds, before.files, false), true)
                                 [PASSWD_PATH := Inode(Regular, host.etcPasswd.uid, host.etcPasswd.gid)]
                                 [GROUP_PATH := Inode(Regular, host.etcGroup.uid, host.etcGroup.gid)]
    ensures Written(host, before, after, userIds, groupIds)
  {
  }

  method Run(host: Host, image: Image, write: bool)
    returns (outcome: Outcome, ghost userIds: map<int, string>, ghost groupIds: map<int, string>)
    modifies image
    ensures outcome == Collision <==>
              || (exists a, b :: && IdOf(host.passwd.lines, a) == -1 && IdOf(old(image.passwd).lines, a) != -1
                                 && IdOf(host.passwd.lines, b) == IdOf(old(image.passwd).lines, a))
              || (exists a, b :: && IdOf(host.group.lines, a) == -1 && IdOf(old(image.group).lines, a) != -1
                                 && IdOf(host.group.lines, b) == IdOf(old(image.group).lines, a))
    ensures outcome == Synced <==> write && outcome != Collision
    ensures outcome.Checked? ==>
              (outcome.needsSync <==>
                 || (exists n :: IdOf(host.passwd.lines, n) != -1 &&
                                 IdOf(old(image.passwd).lines, n) != IdOf(host.passwd.lines, n))
                 || (exists n :: IdOf(host.group.lines, n) != -1 &&
                                 IdOf(old(image.group).lines, n) != IdOf(host.group.lines, n)))
    ensures outcome != Synced ==>
              image.files == old(image.files) && image.passwd == old(image.passwd) && image.group == old(image.group)
    ensures outcome == Synced ==>
              Written(host, old(Content(image.files, image.passwd, image.group)),
                      Content(image.files, image.passwd, image.group), userIds, groupIds)
  {
    hide *;
    ghost var users := Correlate(host.passwd.lines, image.passwd.lines);
    ghost var groups := Correlate(host.group.lines, image.group.lines);
    userIds, groupIds := map[], map[];
    ConflictIff(host.passwd.lines, image.passwd.lines);
    ConflictIff(host.group.lines, image.group.lines);
    NeedsSyncIff(host.passwd.lines, image.passwd.lines);
    NeedsSyncIff(host.group.lines, image.group.lines);

    var passwdSync := new SyncDb();
    passwdSync.Read(host.passwd, false);
    passwdSync.Read(image.passwd, true);
    ReadBoth(host.passwd.lines, image.passwd.lines);
    Conflicts(passwdSync.db);
    var ok := passwdSync.CheckConflicts();
    if !ok {
      return Collision, userIds, groupIds;
    }
    var groupSync := new SyncDb();
    groupSync.Read(host.group, false);
    groupSync.Read(image.group, true);
    ReadBoth(host.group.lines, image.group.lines);
    Conflicts(groupSync.db);
    ok := groupSync.CheckConflicts();
    if !ok {
      return Collision, userIds, groupIds;
    }
    userIds := passwdSync.FindFiles(image, false);
    groupIds := groupSync.FindFiles(image, true);
    SameDb(users, passwdSync.db, userIds);
    SameDb(groups, groupSync.db, groupIds);
    if write {
      ghost var before := Content(image.files, image.passwd, image.group);
      passwdSync.ChownFiles(image, false, userIds);
      StillRecorded(users, userIds, groupSync.db, groupIds, before.files);
      groupSync.ChownFiles(image, true, groupIds);
      passwdSync.UpdatePasswd(image, host.etcPasswd);
      groupSync.UpdateGroup(image, host.etcGroup);
      outcome := Synced;
      WrittenIntro(host, before, Content(image.files, image.passwd, image.group), userIds, groupIds);
    } else {
      Needs(passwdSync.db);
      Needs(groupSync.db);
      var needsUsers := passwdSync.NeedsSync();
      var needsGroups := groupSync.NeedsSync();
      outcome := Checked(needsUsers || needsGroups);
    }
  }

  lemma Conflicts(db: Db)
    ensures Conflict(db) <==>
            exists a, b :: && a in db && b in db && db[a].hostId == -1 && db[a].imageId != -1
                           && db[b].hostId == db[a].imageId
  {
    if a, b :| a in db && b in db && db[a].hostId == -1 && db[a].imageId != -1 && db[b].hostId == db[a].imageId {
      assert db[a].OnlyImage();
    }
  }

  lemma Needs(db: Db)
    ensures SyncTables.NeedsSync(db) <==> exists n :: n in db && db[n].hostId != -1 && db[n].imageId != db[n].hostId
  {
    if n :| n in db && db[n].hostId != -1 && db[n].imageId != db[n].hostId {
      assert db[n].OnlyHost() || db[n].Differ();
    }
  }

  /** The file lists play no part in what is renumbered or kept. */
  lemma SameDb(a: Db, b: Db, syncIds: map<int, string>)
    requires SameIds(b, a) && Choice(b, syncIds)
    ensures Choice(a, syncIds)
    ensures forall files, byGid :: Renumbered(b, syncIds, files, byGid) == Renumbered(a, syncIds, files, byGid)
    ensures forall host, image :: NewTable(host, b, image) == NewTable(host, a, image)
    ensures Conflict(a) <==> Conflict(b)
    ensures SyncTables.NeedsSync(a) <==> SyncTables.NeedsSync(b)
  {
    forall lines: seq<string> ensures OnlyImageLines(b, lines) == OnlyImageLines(a, lines) {
      SameLines(a, b, lines);
    }
  }

  lemma {:induction false} SameLines(a: Db, b: Db, lines: seq<string>)
    requires SameIds(b, a)
    ensures OnlyImageLines(b, lines) == OnlyImageLines(a, lines)
  {
    if lines != [] {
      SameLines(a, b, lines[..|lines| - 1]);
    }
  }

  /** Chowning users leaves every gid, and so the group lists, as they were found. */
  lemma StillRecorded(users: Db, userIds: map<int, string>, groups: Db, groupIds: map<int, string>,
                      files: map<string, Inode>)
    requires Choice(users, userIds) && Recorded(groups, groupIds, files, files.Keys, true)
    ensures Recorded(groups, groupIds, Renumbered(users, userIds, files, false), files.Keys, true)
    ensures Renumbered(users, userIds, files, false).Keys == files.Keys
  {
  }

  // ----- What a written image means ------------------------------------------

  /** The table the host's ids are read from, for users or for groups. */
  function HostTable(host: Host, byGid: bool): TextFile {
    if byGid then host.group else host.passwd
  }

  /** The table that is copied into the image. */
  function CopiedTable(host: Host, byGid: bool): TextFile {
    if byGid then host.etcGroup.text else host.etcPasswd.text
  }

  function TableOf(image: Content, byGid: bool): TextFile {
    if byGid then image.group else image.passwd
  }

  /** The table is copied from the file it was read from. */
  predicate Stable(host: Host, byGid: bool) {
    HostTable(host, byGid) == CopiedTable(host, byGid)
  }

  /** Where the law of Syncuser applies: no id is given to two names, and host ids fit `chown`. */
  ghost predicate Lawful(host: TextFile, image: TextFile) {
    && UniqueIds(host.lines) && UniqueIds(image.lines)
    && forall n :: IdOf(host.lines, n) == -1 || Storable(IdOf(host.lines, n))
  }

  /** The two phases do not meet: each id of a file is the one its own phase gave it. */
  lemma PhasesApart(users: Db, userIds: map<int, string>, groups: Db, groupIds: map<int, string>, node: Inode)
    requires Choice(users, userIds) && Choice(groups, groupIds)
    ensures var final := Renumber(groups, groupIds, Renumber(users, userIds, node, false), true);
            && final.uid == Renumber(users, userIds, node, false).uid
            && final.gid == Renumber(groups, groupIds, node, true).gid
            && final.kind == node.kind
  {
  }

  lemma FileAfter(host: Host, before: Content, after: Content, userIds: map<int, string>, groupIds: map<int, string>,
                  p: string)
    requires Written(host, before, after, userIds, groupIds) && p in before.files && p != PASSWD_PATH && p != GROUP_PATH
    ensures p in after.files
    ensures after.files[p] ==
              Renumber(Groups(host, before), groupIds,
                       Renumber(Users(host, before), userIds, before.files[p], false), true)
  {
    hide Renumber, NewTable, Conflict;
  }

  /**
   Each id of a file of a written tree. If the file is no special file and its uid belongs
   to a name with another id on the host, it is now the host id of such a name, in 32 bits
   and unless all of them are ones; and the gid in the same way. Otherwise nothing changes.
   */
  lemma FileIds(host: Host, before: Content, after: Content, userIds: map<int, string>, groupIds: map<int, string>,
                p: string)
    requires Written(host, before, after, userIds, groupIds)
    requires p in before.files && p != "/etc/passwd" && p != "/etc/group"
    ensures p in after.files && after.files[p].kind == before.files[p].kind
    ensures var h, t, was, now := host.passwd.lines, before.passwd.lines, before.files[p].uid, after.files[p].uid;
            if before.files[p].kind != Special && was != -1 &&
               exists n :: IdOf(t, n) == was && IdOf(h, n) != -1 && IdOf(h, n) != was
            then exists n :: && IdOf(t, n) == was && IdOf(h, n) != -1 && IdOf(h, n) != was
                             && now == if IdOf(h, n) % 0x1_0000_0000 == 0xFFFF_FFFF then was
                                       else IdOf(h, n) % 0x1_0000_0000
            else now == was
    ensures var h, t, was, now := host.group.lines, before.group.lines, before.files[p].gid, after.files[p].gid;
            if before.files[p].kind != Special && was != -1 &&
               exists n :: IdOf(t, n) == was && IdOf(h, n) != -1 && IdOf(h, n) != was
            then exists n :: && IdOf(t, n) == was && IdOf(h, n) != -1 && IdOf(h, n) != was
                             && now == if IdOf(h, n) % 0x1_0000_0000 == 0xFFFF_FFFF then was
                                       else IdOf(h, n) % 0x1_0000_0000
            else now == was
  {
    WrittenChoices(host, before, after, userIds, groupIds);
    assert forall id :: id in userIds ==> userIds[id] in Users(host, before);
    assert forall id :: id in groupIds ==> groupIds[id] in Groups(host, before);
    assert p != PASSWD_PATH && p != GROUP_PATH;
    hide *;
    FileAfter(host, before, after, userIds, groupIds, p);
    var node := before.files[p];
    PhasesApart(Users(host, before), userIds, Groups(host, before), groupIds, node);
    RenumberIs(host.passwd.lines, before.passwd.lines, userIds, node, false);
    RenumberIs(host.group.lines, before.group.lines, groupIds, node, true);
    ById(node);
    ById(Renumber(Users(host, before), userIds, node, false));
    ById(Renumber(Groups(host, before), groupIds, node, true));
  }

  lemma WrittenChoices(host: Host, before: Content, after: Content, userIds: map<int, string>,
                       groupIds: map<int, string>)
    requires Written(host, before, after, userIds, groupIds)
    ensures Users(host, before) == Correlate(host.passwd.lines, before.passwd.lines)
    ensures Groups(host, before) == Correlate(host.group.lines, before.group.lines)
    ensures Choice(Users(host, before), userIds) && Choice(Groups(host, before), groupIds)
  {
    hide Renumber, NewTable, Conflict, Choice, Correlate;
  }

  lemma ById(node: Inode)
    ensures IdBy(node, false) == node.uid && IdBy(node, true) == node.gid
  {
  }

  lemma RenumberIs(h: seq<string>, t: seq<string>, syncIds: map<int, string>, node: Inode, byGid: bool)
    requires Choice(Correlate(h, t), syncIds)
    ensures var was, now := IdBy(node, byGid), IdBy(Renumber(Correlate(h, t), syncIds, node, byGid), byGid);
            if node.kind != Special && was != -1 &&
               exists n :: IdOf(t, n) == was && IdOf(h, n) != -1 && IdOf(h, n) != was
            then exists n :: && IdOf(t, n) == was && IdOf(h, n) != -1 && IdOf(h, n) != was
                             && now == if IdOf(h, n) % 0x1_0000_0000 == 0xFFFF_FFFF then was
                                       else IdOf(h, n) % 0x1_0000_0000
            else now == was
  {
    var db, was := Correlate(h, t), IdBy(node, byGid);
    hide IdOf, Correlate, Names;
    if was in syncIds {
      var n := syncIds[was];
      assert n in db && IdOf(t, n) == was && IdOf(h, n) != -1 && IdOf(h, n) != was && was != -1;
    } else if was != -1 {
      assert forall n :: n in db && db[n].Differ() ==> db[n].imageId != was;
      forall n | IdOf(t, n) == was ensures n in db {
        IdOfNamed(t, n);
      }
    }
  }

  /** No file comes or goes but the two tables, which take the owners of the host's files. */
  lemma TreeShape(host: Host, before: Content, after: Content, userIds: map<int, string>, groupIds: map<int, string>)
    requires Written(host, before, after, userIds, groupIds)
    ensures forall p :: p in after.files <==> p in before.files || p == "/etc/passwd" || p == "/etc/group"
    ensures after.files["/etc/passwd"] == Inode(Regular, host.etcPasswd.uid, host.etcPasswd.gid)
    ensures after.files["/etc/group"] == Inode(Regular, host.etcGroup.uid, host.etcGroup.gid)
    ensures Bytes(after.passwd) == Bytes(host.etcPasswd.text) + Printed(Kept(host.passwd, before.passwd))
    ensures Bytes(after.group) == Bytes(host.etcGroup.text) + Printed(Kept(host.group, before.group))
  {
    hide Renumber, Conflict, Choice, AppendLines, Bytes, Printed, OnlyImageLines, Correlate;
    AppendedBytes(host.etcPasswd.text, OnlyImageLines(Users(host, before), before.passwd.lines));
    AppendedBytes(host.etcGroup.text, OnlyImageLines(Groups(host, before), before.group.lines));
  }

  /** A file of the written tree, seen by one kind of id. */
  lemma FileAfterBy(host: Host, before: Content, after: Content, userIds: map<int, string>, groupIds: map<int, string>,
                    p: string, byGid: bool)
    requires Written(host, before, after, userIds, groupIds) && p in before.files && p != PASSWD_PATH && p != GROUP_PATH
    requires Stable(host, byGid)
    ensures p in after.files && after.files[p].kind == before.files[p].kind
    ensures var h, t := HostTable(host, byGid), TableOf(before, byGid);
            var db, syncIds := Correlate(h.lines, t.lines), if byGid then groupIds else userIds;
            && Choice(db, syncIds) && !Conflict(db)
            && TableOf(after, byGid) == NewTable(h, db, t)
            && IdBy(after.files[p], byGid) == IdBy(Renumber(db, syncIds, before.files[p], byGid), byGid)
  {
    hide Renumber, Renumbered, NewTable, Conflict, Correlate, Choice;
    FileAfter(host, before, after, userIds, groupIds, p);
    PhasesApart(Users(host, before), userIds, Groups(host, before), groupIds, before.files[p]);
  }

  /**
   A writing Syncuser keeps who owns what. For users and for groups alike, every
   regular file and directory of the tree, the two rewritten tables apart, whose id
   had a name in the old table is owned in the new table by that name alone, if and only
   if the name has its id there and no stray name has the same one. Both always hold
   where nothing is glued.
   */
  lemma TreeKeepsNames(host: Host, before: Content, after: Content, userIds: map<int, string>, groupIds: map<int,
                       string>,
                       p: string, byGid: bool, name: string)
    requires Written(host, before, after, userIds, groupIds)
    requires Stable(host, byGid) && Lawful(HostTable(host, byGid), TableOf(before, byGid))
    requires p in before.files && p != PASSWD_PATH && p != GROUP_PATH && before.files[p].kind != Special
    requires Owns(TableOf(before, byGid).lines, name, IdBy(before.files[p], byGid))
    ensures p in after.files
    ensures var h, t := HostTable(host, byGid), TableOf(before, byGid);
            && ((forall n :: Owns(TableOf(after, byGid).lines, n, IdBy(after.files[p], byGid)) <==> n == name) <==>
                  HasId(h, t, name) && !Strays(h, t, Entry(Correlate(h.lines, t.lines), name).Target()))
            && (Joins(h, Kept(h, t)) ==>
                  forall n :: Owns(TableOf(after, byGid).lines, n, IdBy(after.files[p], byGid)) <==> n == name)
  {
    hide Written, Renumber, NewTable, Conflict, Correlate, Choice, UniqueIds, Owns, IdOf, HasId, Strays, HostTable,
         TableOf;
    var h, t := HostTable(host, byGid), TableOf(before, byGid);
    FileAfterBy(host, before, after, userIds, groupIds, p, byGid);
    NameSurvives(h, t, if byGid then groupIds else userIds, name, before.files[p], byGid);
    HasIdIff(h, t, name);
    if Joins(h, Kept(h, t)) { NoStrays(h, t, Entry(Correlate(h.lines, t.lines), name).Target()); }
  }

  lemma NoStrays(host: TextFile, image: TextFile, id: int)
    requires Joins(host, Kept(host, image))
    ensures !Strays(host, image, id)
  {
    hide Kept;
  }

  /**
   A name keeps a file of the tree if and only if it has its id in the new table, and
   that id need not change or could be stored in the file.
   */
  lemma TreeOwnerKept(host: Host, before: Content, after: Content, userIds: map<int, string>, groupIds: map<int,
                      string>,
                      p: string, byGid: bool, name: string)
    requires Written(host, before, after, userIds, groupIds)
    requires Stable(host, byGid) && UniqueIds(TableOf(before, byGid).lines)
    requires p in before.files && p != PASSWD_PATH && p != GROUP_PATH
    requires Owns(TableOf(before, byGid).lines, name, IdBy(before.files[p], byGid))
    ensures p in after.files
    ensures var h, t := HostTable(host, byGid), TableOf(before, byGid);
            var info := Entry(Correlate(h.lines, t.lines), name);
            Owns(TableOf(after, byGid).lines, name, IdBy(after.files[p], byGid)) <==>
              && HasId(h, t, name)
              && (!info.Differ() || (before.files[p].kind != Special && Storable(info.hostId)))
  {
    hide Written, Renumber, NewTable, Conflict, Correlate, Choice, UniqueIds, Owns, IdOf, HasId, HostTable, TableOf,
         Storable;
    var h, t := HostTable(host, byGid), TableOf(before, byGid);
    FileAfterBy(host, before, after, userIds, groupIds, p, byGid);
    OwnerKept(h, t, if byGid then groupIds else userIds, name, before.files[p], byGid);
  }

  /**
   A file of the tree whose id had no name keeps that id, and its names afterwards are the
   host's, if and only if these have their ids in the new table and no stray name has.
   */
  lemma TreeKeepsOrphans(host: Host, before: Content, after: Content, userIds: map<int, string>, groupIds: map<int,
                         string>,
                         p: string, byGid: bool)
    requires Written(host, before, after, userIds, groupIds) && Stable(host, byGid)
    requires p in before.files && p != PASSWD_PATH && p != GROUP_PATH && IdBy(before.files[p], byGid) != -1
    requires forall n :: !Owns(TableOf(before, byGid).lines, n, IdBy(before.files[p], byGid))
    ensures p in after.files && IdBy(after.files[p], byGid) == IdBy(before.files[p], byGid)
    ensures var h, t, id := HostTable(host, byGid), TableOf(before, byGid), IdBy(after.files[p], byGid);
            (forall n :: Owns(TableOf(after, byGid).lines, n, id) <==> Owns(h.lines, n, id)) <==>
              !Strays(h, t, id) && forall n :: Owns(h.lines, n, id) ==> HasId(h, t, n)
  {
    hide Written, Renumber, NewTable, Conflict, Correlate, Choice, Owns, IdOf, HasId, Strays, HostTable, TableOf, IdBy;
    var h, t := HostTable(host, byGid), TableOf(before, byGid);
    FileAfterBy(host, before, after, userIds, groupIds, p, byGid);
    OrphanKeepsId(h, t, if byGid then groupIds else userIds, before.files[p], byGid);
  }

  lemma NothingMoves(db: Db, syncIds: map<int, string>, files: map<string, Inode>, byGid: bool)
    requires Choice(db, syncIds) && forall p :: p in files ==> Renumber(db, syncIds, files[p], byGid) == files[p]
    ensures Renumbered(db, syncIds, files, byGid) == files
  {
    hide Renumber;
  }

  /**
   On all tables: a second writing run moves no file, and it leaves tables and files
   exactly as the first one did if and only if both tables repeat.
   */
  lemma SecondRunChangesNothing(host: Host, before: Content, once: Content, twice: Content, userIds: map<int, string>,
                                groupIds: map<int, string>, userIds2: map<int, string>, groupIds2: map<int, string>)
    requires Stable(host, false) && Stable(host, true)
    requires Written(host, before, once, userIds, groupIds) && Written(host, once, twice, userIds2, groupIds2)
    ensures twice.files == once.files
    ensures twice == once <==> Repeats(host.passwd, before.passwd) && Repeats(host.group, before.group)
  {
    hide NewTable, Renumber, Renumbered, KeepsLine, Correlate, Conflict, Repeats;
    SecondTable(host.passwd, before.passwd);
    SecondTable(host.group, before.group);
    var users, groups := Users(host, once), Groups(host, once);
    forall p | p in once.files ensures Renumber(users, userIds2, once.files[p], false) == once.files[p] {
      SecondRunMovesNothing(host.passwd, before.passwd, userIds2, once.files[p], false);
    }
    NothingMoves(users, userIds2, once.files, false);
    forall p | p in once.files ensures Renumber(groups, groupIds2, once.files[p], true) == once.files[p] {
      SecondRunMovesNothing(host.group, before.group, groupIds2, once.files[p], true);
    }
    NothingMoves(groups, groupIds2, once.files, true);
    assert twice.files == once.files;
  }
}
