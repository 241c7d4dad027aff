# Warewulf in Dafny

A model of the parts of Warewulf whose correctness is hard to see, with proofs. Warewulf provisions cluster nodes from
images, overlays and a node database; what is modelled here is the logic in between the command line and the disk.

| module | what it is about |
|---|---|
| `SyncTables`, `SyncReading`, `SyncSeam`, `SyncAgain`, `SyncOwners`, `Syncuser`, `SyncExamples` | user and group id synchronisation between host and image: every file keeps its owner's *name* while all ids are renumbered at once |
| `HostlistExpand`, `Hostlist`, `HostlistMeaning`, `HostlistCompress`, `CompressForm`, `Decimal` | the node pattern language: rounds of bracket expansion equal a cross product, which nodes a pattern names, Expand undoes Compress, and Compress prints maximal runs |
| `ArtifactPaths`, `ArchiveNames`, `ArtifactImport`, `ArchiveTree` | extraction of overlay archives: which archives are accepted, the tree they leave, and that no extracted symlink leads out of `rootfs`, through any number of hops |
| `Profiles`, `ProfileOrder`, `Groups` | profile resolution over a possibly cyclic graph with negation, its order, and group membership on top of it |
| `OverlayCompare`, `HashReuse`, `ScanIncludes`, `ScanWorkers`, `ScanWalk`, `ScanShows` | overlay diff: tree comparison, the hash cache, pruned walks and the parallel scan, which together equal one sequential scan that hashes everything |
| `BatchPool`, `BuildAllOverlays`, `Sums` | two goroutine pools as step systems: safety in every reachable state, and progress |
| `Discovery`, `DiscoveryTerms` | node discovery as a state machine over requests |
| `Fields`, `FieldNames` | field paths: a printer and a parser that undo each other, and what the parser makes of any text |
| `Update` | the selective update behind `wwctl ... set`: exact, unique, idempotent |
| `Text` | strings, sorting and list helpers |

State that the source changes in place is a class (`Syncuser.Image`, `Syncuser.SyncDb`, `ArtifactImport.Staging`,
`Profiles.Visited`, `ScanWalk.Gather`, `BatchPool.Batch`, `Discovery.NodeDb`), loops are methods with invariants, and each
method is tied to a function or predicate about which the laws are proved. Map iteration order is an arbitrary choice
everywhere, so the laws hold for every order. Goroutines are step systems: a run is any sequence of enabled steps.
`SyncReading`, `HostlistMeaning`, `CompressForm`, `ArchiveNames`, `ArchiveTree`, `ScanShows`, `DiscoveryTerms` and
`FieldNames` say what these functions mean in terms of the inputs alone: texts, lists, records and trees.

Where the code does less than one might expect, the exact condition is proved:

- `SyncAgain.SecondTable`, `Syncuser.SecondRunChangesNothing`: a host line without a usable id, for a name that only the
  image has, is appended once more by every run (`SyncExamples.TableGrows`).
- `SyncOwners.OwnerKept`: devices, pipes and sockets are recorded but never given the new id, and an id outside 32 bits is
  not stored as it stands in the table (`SyncExamples.OwnerLost`). `SyncOwners.SharedIdKeptIff`: the files of two image
  names with one id may follow either name (`SyncExamples.SharedIdMoves`).
- `SyncTables.NewTableIdsIff`, `SyncSeam.SeamHasId`: a host table without a final newline glues its last line to the first
  appended one, which usually costs an image-only name its id (`SyncExamples.GluedNameLost`) and makes the second run write
  another table (`SyncAgain.GluedEntriesChange`). The ownership laws are stated name by name, so that they say what happens
  to every other name.
- `HashReuse.ReuseSoundIff`: a snapshot stamp taken after the scan, as internal/app/wwclient/overlaydiff/capture/start.go:57-62
  does, is too late for files changed between their lstat and the stamp.
- `Discovery.KeepsIff`, `Discovery.DiscoveryStep`: a waiting node that already carries another node's address takes it over
  when it is discovered, if it comes later in node order (`Discovery.CarriedAddressMoves`). An address given in upper case
  would be stored and never found again, because the index is in lower case and lookups take the address as given; the
  server does not do this, since it lower-cases every address first (internal/pkg/warewulfd/parser.go:79-83).
- FindDiscoverableNode's comment speaks of an interface *without* a hardware address, its code of one *with*
  (internal/pkg/node/constructors.go:176-200); the model follows the code, where that loop is never reached because a
  merged node with devices always has a primary one.
- `Fields.ListsUnlessMissing`: listing fields panics on a nil entry in a map of structs that have pointer fields, as disks,
  partitions and file systems do (internal/pkg/node/datastructure.go:104-134).
- `BuildAllOverlays.NoWorkersNoBuild`, `BatchPool.StartsIff`: without workers, success is reported for nothing built; with
  a limit of zero, Run blocks on its first job.
- `HostlistCompress.UndoneExactlyWithoutGroups`: names starting with "@" are read back as groups.

## Model

| member | source | states |
|---|---|---|
| `Syncuser.TreeKeepsNames` | internal/pkg/image/syncuser.go:63-85 | After a writing Syncuser, for uids and for gids each on their own, whatever ids were swapped or permuted: every regular file and directory of the tree (the two rewritten tables apart) whose id had a name in the old table is owned in the new table by exactly that name; always where nothing is glued, and else if and only if the name has its id in the new table and no stray name at the seam has the same one |
| `Syncuser.TreeOwnerKept` | internal/pkg/image/syncuser.go:63-85 | On all tables with unique image ids: a name keeps a file of the tree if and only if it has its id in the new table, and that id need not change, or the file is one chown is called for and the id fits 32 bits |
| `Syncuser.TreeKeepsOrphans` | internal/pkg/image/syncuser.go:63-85 | On all tables: a file of the tree whose uid (or gid) had no name keeps that id; its names afterwards are the host's if and only if these have their ids in the new table and no stray name has |
| `Syncuser.SecondRunChangesNothing` | internal/pkg/image/syncuser.go:34-96 | On all tables: a second writing run moves no file, and leaves the whole image as it was if and only if both tables repeat: no host line carries the name of an image-only entry or, where a line is glued, the second run selects the lines the first one kept |
| `Syncuser.Run` | internal/pkg/image/syncuser.go:34-96 | Collision exactly when, for users or for groups, a name without a host id has an image id that the host gives to some name, checked before anything is touched; without `write` the image is untouched and the answer is whether some name has a host id and not the same one in the image; with it the image becomes the written one: both renumberings, users before groups, and both new tables |
| `Syncuser.TreeShape` | internal/pkg/image/syncuser.go:321-337 | A written image has no other files than before and the two tables; these take the owners of the host's files, and their bytes are those of the host's files followed by the kept lines, each with its newline |
| `Syncuser.FileIds` | internal/pkg/image/syncuser.go:228-277 | Every other file of a written image: its uid becomes the host id, in 32 bits, of a name that has the file's uid in the image and another id on the host, if there is one and the file is no special file, and stays otherwise; the gid in the same way; its type stays |
| `Syncuser.SyncDb.Read` | internal/pkg/image/syncuser.go:158-211 | The database after reading a table: per name the first id other than -1 wins, unusable lines are skipped, the other table's ids are kept |
| `Syncuser.SyncDb.ReadLine` | internal/pkg/image/syncuser.go:165-208 | One line: malformed, nameless, compat-style and non-numeric lines change nothing; an id is filled in only where there was none |
| `Syncuser.SyncDb.CheckConflicts` | internal/pkg/image/syncuser.go:107-121 | Fails exactly when an image-only name holds an id the host gives to some name, read off the two ids of each name |
| `Syncuser.SyncDb.SyncIds` | internal/pkg/image/syncuser.go:230-236 | For every iteration order: each image id of a differing name is mapped to one such name, and no other id is mapped |
| `Syncuser.SyncDb.FindFiles` | internal/pkg/image/syncuser.go:228-257 | Ids are unchanged, and each name's list holds exactly the tree's files whose id was mapped to it |
| `Syncuser.SyncDb.ChownFiles` | internal/pkg/image/syncuser.go:270-277 | All lists together renumber every file at once: no file is moved twice, so swapped ids do not run into each other |
| `Syncuser.ChownList` | internal/pkg/image/syncuser.go:406-427 | Listed regular files and directories get the host id, everything else stays |
| `Syncuser.ChownIs` | internal/pkg/image/syncuser.go:406-427 | Passing -1 for the other id changes just the one kind of id, and special files not at all |
| `Syncuser.StillRecorded` | internal/pkg/image/syncuser.go:63-79 | Renumbering users leaves the lists found for groups right, so the group phase may use lists recorded before it |
| `Syncuser.SyncDb.GetOnlyImageLines` | internal/pkg/image/syncuser.go:291-314 | The lines, in order, whose first field is a name only the image has |
| `Syncuser.SyncDb.UpdatePasswd` | internal/pkg/image/syncuser.go:321-337 | The image table becomes the host file followed by the image-only lines, with the host file's owner; nothing else changes |
| `Syncuser.SyncDb.UpdateGroup` | internal/pkg/image/syncuser.go:321-337 | The same for the group table |
| `Syncuser.SyncDb.NeedsSync` | internal/pkg/image/syncuser.go:341-353 | True exactly when some name has a host id and another image id or none |
| `Syncuser.PhasesApart` | internal/pkg/image/syncuser.go:73-79 | Each id of a file is the one its own phase gave it: the user phase decides the uid, the group phase the gid |
| `SyncOwners.OwnerKept` | internal/pkg/image/syncuser.go:228-277 | On all tables with unique image ids: a name keeps its file if and only if it has its id in the new table, and that id need not change, or the file is one chown is called for and the host id fits 32 bits |
| `SyncOwners.NameSurvives` | internal/pkg/image/syncuser.go:228-277 | With unique ids on both sides and no conflict: the name owning a file before is the one and only name owning it after, if and only if it has its id in the new table and no stray name at the seam has the same one |
| `SyncOwners.NewTableUnique` | internal/pkg/image/syncuser.go:107-121 | Without a conflict, unique ids on both sides give unique ids in a new table that kept all ids: what checkConflicts is for |
| `SyncOwners.OrphanKeepsId` | internal/pkg/image/syncuser.go:238-256 | On all tables: a file whose id had no name keeps its id; its names afterwards are the host's if and only if these have their ids in the new table and no stray name has |
| `SyncOwners.SharedIdKeptIff` | internal/pkg/image/syncuser.go:230-236 | Without unique image ids, on all tables: a name keeps its file under every map iteration order if and only if all differing names sharing its image id go to the id the name has in the new table |
| `SyncOwners.SecondRunMovesNothing` | internal/pkg/image/syncuser.go:228-277 | On all tables: against the table a first run wrote, no file is renumbered |
| `SyncTables.ReadBoth` | internal/pkg/image/syncuser.go:158-221 | Reading host then image gives exactly the correlation of the two tables, name by name |
| `SyncReading.NeedsSyncIff` | internal/pkg/image/syncuser.go:341-353 | For all pairs of tables: out of sync if and only if some name has an id on the host and not the same one in the image |
| `SyncReading.ConflictIff` | internal/pkg/image/syncuser.go:107-121 | For all pairs of tables: in conflict if and only if a name without a host id has an image id that the host gives to some name |
| `SyncReading.EntryIff` | internal/pkg/image/syncuser.go:165-185 | A line gives an id to a name if and only if it joins the four fields of a group line or the seven of a passwd line with colons, the name comes first and is no compat-style reference, and the third field is a 64-bit number |
| `SyncReading.UsualLines` | internal/pkg/image/syncuser.go:165-185 | A seven-field passwd line and a four-field group line with a decimal id give that id to their first field |
| `SyncReading.IdOfIff` | internal/pkg/image/syncuser.go:158-211 | A name has an id if and only if the first line that gives it an id other than -1 gives it this one |
| `SyncReading.KeptIff` | internal/pkg/image/syncuser.go:291-314 | The kept lines are exactly the image's lines of names with an id in the image and none on the host |
| `SyncReading.KeptPlaces` | internal/pkg/image/syncuser.go:291-314 | They are kept in their order, as often as they occur |
| `SyncReading.AppendedBytes` | internal/pkg/util/util.go:337-356 | On the bytes of a file, appending lines is appending each with its newline, whether or not the file ended in one |
| `Decimal.AtoiIff` | internal/pkg/image/syncuser.go:176-185 | What Atoi accepts: digits with an optional sign whose value fits 64 bits, and nothing else |
| `SyncTables.NewTableIdsIff` | internal/pkg/image/syncuser.go:291-337 | For every pair of tables: all names have the host's id if the host has one, and otherwise their old image id, if and only if nothing is glued at the seam or the glued line changes no id of the at most three names the seam's lines start with |
| `SyncTables.NewTableIds` | internal/pkg/image/syncuser.go:291-337 | Under that condition: in the new table a name has the host's id if the host has one, and otherwise its old image id |
| `SyncTables.HasIdIff` | internal/pkg/image/syncuser.go:291-337 | One name, on all tables: it has its right id if and only if nothing is glued or the glued line leaves it its id |
| `SyncTables.StraysIff` | internal/pkg/image/syncuser.go:291-337 | The ids that names get at the seam and should not have: read off the at most three names the seam's lines start with, they are those of all names without their right id |
| `SyncSeam.HostIdOrNone` | internal/pkg/image/syncuser.go:291-337 | On all tables: a name with a host id has that id in the new table, or none |
| `SyncAgain.SyncSettles` | internal/pkg/image/syncuser.go:341-353 | On all tables, after a sync: no name differs; something is left to sync if and only if a host name lost its id at the seam; a conflict is there if and only if an old one is, or a stray id is one of the host's |
| `SyncAgain.SyncSettlesKept` | internal/pkg/image/syncuser.go:341-353 | Where all ids are kept: nothing needs syncing, and a conflict is there if and only if one was there before |
| `SyncAgain.SecondTable` | internal/pkg/image/syncuser.go:291-337 | On all tables: writing the table a second time gives the same file if and only if no host line carries the name of an image-only entry or, where a line is glued, the second run selects the lines the first one kept |
| `SyncAgain.SecondTableGlued` | internal/pkg/image/syncuser.go:291-337 | Where ids are kept in spite of a glued line: the second table is the same if and only if the copied part and the glued line yield just the line glued on |
| `SyncAgain.GluedEntriesChange` | internal/pkg/image/syncuser.go:291-337 | Where the host's last line and the line glued to it are entries, the second run always writes another table |
| `SyncTables.AppendLinesExact` | internal/pkg/util/util.go:337-356 | Appending keeps both parts line by line if and only if nothing is appended, the file is empty, or it ends in a newline |
| `SyncTables.AppendsIff` | internal/pkg/util/util.go:337-356 | Read as a table, the file keeps all ids under appending if and only if nothing is glued or the glued line changes no id of the names at the seam |
| `SyncSeam.SeamOfEntries` | internal/pkg/util/util.go:337-356 | Two well-formed entries glued: the ids survive if and only if a later kept line repeats the glued entry's id, and the host's last name has an earlier line or both lines have four fields |
| `SyncSeam.SeamHasId` | internal/pkg/util/util.go:337-356 | Two well-formed entries glued, name by name: only the glued name can lose its id, unless a later kept line repeats it, and the host's last name, unless it has an earlier line or both lines have four fields |
| `SyncSeam.GluedEntry` | internal/pkg/image/syncuser.go:165-185 | Two glued group lines are read as the first of them, any other two glued entries as nothing |
| `SyncExamples.GluedNameLost` | internal/pkg/util/util.go:337-356 | Failing input: a one-line host table without newline and a one-line image table; the image's name has no id in the new table |
| `SyncExamples.TableGrows` | internal/pkg/image/syncuser.go:291-337 | Failing input: a host line without usable id for an image-only name; the second run writes another table |
| `SyncExamples.SharedIdMoves` | internal/pkg/image/syncuser.go:230-236 | Failing input: two image names with one id and different host ids; some iteration order gives the file of one to the other |
| `SyncExamples.OwnerLost` | internal/pkg/image/syncuser.go:406-427 | Failing input: a device, pipe or socket of a name whose id changes, or a new id outside 32 bits; the name loses the file |
| `HostlistCompress.ExpandUndoesCompress` | internal/pkg/hostlist/hostlist.go:164-243 | Expanding the compressed text of any non-empty list of ordinary names gives back exactly the set of names, each once |
| `HostlistCompress.CompressKeepsMeaning` | internal/pkg/hostlist/hostlist.go:45-92 | With any group resolver, group references included: the compressed text expands to the same set as the list itself |
| `HostlistCompress.UndoneExactlyWithoutGroups` | internal/pkg/hostlist/hostlist.go:21-26 | With the default resolver, Expand undoes Compress if and only if no name starts with "@" |
| `HostlistCompress.CompressedRounds` | internal/pkg/hostlist/hostlist.go:45-62 | Before group lookup, the compressed text expands to exactly the given names |
| `HostlistCompress.PartCross` | internal/pkg/hostlist/hostlist.go:210-241 | Each printed part stands for exactly the names sharing its prefix and digit width |
| `HostlistCompress.RunsItems` | internal/pkg/hostlist/hostlist.go:222-239 | The printed runs name exactly the numbers they were made from, padded to the width |
| `HostlistCompress.SplitJoined` | internal/pkg/hostlist/hostlist.go:141-162 | Top-level splitting undoes joining printed parts with commas, although the parts contain commas in brackets |
| `HostlistCompress.KeyInjective` | internal/pkg/hostlist/hostlist.go:183-188 | Two names share a map key only if both are plain and equal, or share prefix and width, NUL bytes in names included |
| `HostlistCompress.NameRebuilt` | internal/pkg/hostlist/hostlist.go:180-204 | A numbered name is its prefix followed by its number padded to its width |
| `HostlistCompress.GroupedSorted` | internal/pkg/hostlist/hostlist.go:206-208 | Keys are collected in order of first index, so the stable sort moves nothing |
| `HostlistCompress.ScanDigits` | internal/pkg/hostlist/hostlist.go:179-182 | Finds the start of the longest trailing digit run |
| `HostlistCompress.Collect` | internal/pkg/hostlist/hostlist.go:176-205 | One group per prefix and width, with the numbers of its names in order, keys in order of first appearance |
| `HostlistCompress.CollectOne` | internal/pkg/hostlist/hostlist.go:178-205 | One more name joins its own group, or opens a new one |
| `HostlistCompress.FormatRuns` | internal/pkg/hostlist/hostlist.go:222-239 | The start/prev loop with its flush closure prints maximal runs of consecutive numbers |
| `HostlistCompress.FormatGroup` | internal/pkg/hostlist/hostlist.go:211-240 | The text of one group: the plain name, one padded number, or bracketed runs |
| `HostlistCompress.Format` | internal/pkg/hostlist/hostlist.go:210-241 | All groups printed in key order |
| `HostlistCompress.Compress` | internal/pkg/hostlist/hostlist.go:168-243 | The whole function: the joined parts, for every input list |
| `CompressForm.RunsMaximal` | internal/pkg/hostlist/hostlist.go:222-239 | Any list of numbers is printed as its maximal runs: together they are the list, and no run is continued by the next |
| `CompressForm.NumberedPart` | internal/pkg/hostlist/hostlist.go:210-241 | Two listed names with one stem and digit width are printed in one bracket group, which holds exactly the numbers of all such names, as often as they are listed, increasing, in maximal runs |
| `CompressForm.AloneAsIs` | internal/pkg/hostlist/hostlist.go:211-219 | A name that shares stem and digit width with no other listed name is printed as it is |
| `CompressForm.SamePartIff` | internal/pkg/hostlist/hostlist.go:176-205 | Two listed names are in one printed part if and only if they are equal or share stem and digit width |
| `CompressForm.PartsInOrder` | internal/pkg/hostlist/hostlist.go:206-208 | The parts come in the order in which the list first has a name of theirs |
| `HostlistExpand.RoundsAreCross` | internal/pkg/hostlist/hostlist.go:53-60 | For every input: the loop's result is the cross product of the first groups of every token, as many as there are rounds before the first invalid group of any token (the global abort), or all of them |
| `HostlistExpand.Stops` | internal/pkg/hostlist/hostlist.go:53-60 | For every input: that number is the round at which the expansion stops, by the earliest abort or because nothing is left |
| `HostlistExpand.WellFormedRounds` | internal/pkg/hostlist/hostlist.go:53-60 | Without an invalid group the rounds give the full left-to-right cross product, in order |
| `HostlistExpand.FullyExpandedIff` | internal/pkg/hostlist/hostlist.go:95-138 | Nothing expandable is left if and only if no token had an invalid reachable group |
| `HostlistExpand.RoundShrinks` | internal/pkg/hostlist/hostlist.go:54-60 | Each counted round lowers the largest "[" count over tokens that can still be expanded: Expand terminates on all tokens |
| `HostlistExpand.RoundStops` | internal/pkg/hostlist/hostlist.go:114-123 | A round aborts if and only if some token's next group is invalid |
| `HostlistExpand.RoundThenCross` | internal/pkg/hostlist/hostlist.go:95-138 | One round followed by k groups of cross product is k + 1 groups |
| `Hostlist.SplitTopLevel` | internal/pkg/hostlist/hostlist.go:141-162 | Splits at exactly the commas at bracket depth zero |
| `Hostlist.AppendRange` | internal/pkg/hostlist/hostlist.go:123-128 | The counting loop appends the padded numbers of a range in order |
| `Hostlist.ExpandRange` | internal/pkg/hostlist/hostlist.go:110-130 | A piece fails exactly when it is not digits or digits-digits; pieces with more dashes add nothing |
| `Hostlist.ExpandGroup` | internal/pkg/hostlist/hostlist.go:107-130 | A bracket group fails exactly when a piece does, and otherwise adds its names in order |
| `Hostlist.ExpandToken` | internal/pkg/hostlist/hostlist.go:99-135 | A token is kept, expanded at its first group, or aborts the round |
| `Hostlist.ExpandOnce` | internal/pkg/hostlist/hostlist.go:95-138 | A count of zero exactly when nothing is expandable or a group is invalid; otherwise the round's tokens |
| `Hostlist.ResolveGroups` | internal/pkg/hostlist/hostlist.go:68-92 | No name twice, and a name is given if and only if it is a token without a leading "@", or some token is "@" before a non-empty group name whose members include it; the order is that of first appearance |
| `Hostlist.ResolvedIff` | internal/pkg/hostlist/hostlist.go:68-92 | For every resolver and token list: the same condition on the names that come out of group lookup |
| `Hostlist.AddAll` | internal/pkg/hostlist/hostlist.go:71-77 | The `add` closure keeps the set of seen names and the list in step |
| `Hostlist.Expand` | internal/pkg/hostlist/hostlist.go:45-63 | The whole function: rounds to the end, then group lookup without repetition |
| `HostlistMeaning.ExpandIff` | internal/pkg/hostlist/hostlist.go:45-92 | Where no token has an invalid group, for every resolver: a node is named if and only if the tokens stand for its name, or for a reference to a group that has it; none twice |
| `HostlistMeaning.ExpandOrder` | internal/pkg/hostlist/hostlist.go:45-92 | The names come in the order in which what the tokens stand for, with the members of a group in its place, names them first |
| `HostlistMeaning.TokensInOrder` | internal/pkg/hostlist/hostlist.go:45-52 | The tokens are the parts of the given texts in order |
| `HostlistMeaning.ResolvedInOrder` | internal/pkg/hostlist/hostlist.go:79-90 | Group lookup keeps places: a name stays, a reference gives way to its members in their order, a bare "@" to nothing |
| `HostlistMeaning.ExpandPlainIff` | internal/pkg/hostlist/hostlist.go:68-92 | A list without brackets and commas names exactly its plain names and the members of its "@" groups |
| `HostlistMeaning.CrossOf` | internal/pkg/hostlist/hostlist.go:99-135 | A token with a valid group stands for every item of the group with everything the rest stands for, the first group varying slowest: the item and the rest at every position |
| `HostlistMeaning.DashedItems` | internal/pkg/hostlist/hostlist.go:115-131 | A range stands for the numbers from one end to the other, in order, as wide as its first end is written |
| `HostlistMeaning.DashedInvalid` | internal/pkg/hostlist/hostlist.go:117-121 | A piece with one dash is invalid if and only if one of its ends is not digits |
| `HostlistMeaning.PlainPiece` | internal/pkg/hostlist/hostlist.go:110-116 | A piece without a dash stands for itself if it is digits, and is invalid otherwise |
| `HostlistMeaning.ManyDashes` | internal/pkg/hostlist/hostlist.go:110-131 | A piece with two or more dashes stands for nothing and is never invalid |
| `HostlistMeaning.ContentCons` | internal/pkg/hostlist/hostlist.go:107-131 | Pieces are put together in order, and one invalid piece makes the group invalid |
| `HostlistMeaning.FirstBadOf` | internal/pkg/hostlist/hostlist.go:53-60 | The round in which a token aborts the expansion, group by group: an empty group hides what follows it |
| `HostlistMeaning.BadGroupStopsAll` | internal/pkg/hostlist/hostlist.go:53-60 | One token with an invalid first group leaves the whole list as it is |
| `HostlistMeaning.CutOutside` | internal/pkg/hostlist/hostlist.go:141-162 | A list is cut at a comma that no bracket opened before it and not yet closed surrounds |
| `HostlistMeaning.NoCutInside` | internal/pkg/hostlist/hostlist.go:141-162 | A text whose commas are all inside brackets is one part |
| `Decimal.PadOfToNat` | internal/pkg/hostlist/hostlist.go:219-219 | Printing the value of a digit string at its own width gives the string back |
| `Decimal.PadIff` | internal/pkg/hostlist/hostlist.go:219-219 | Padded printing gives exactly the digits of the number, as many as the width, with zeros in front only up to it |
| `Decimal.ToNatSnoc` | internal/pkg/hostlist/hostlist.go:246-249 | The value of digits, read from the left |
| `Decimal.ToNatOfPad` | internal/pkg/hostlist/hostlist.go:246-249 | Reading a padded number gives the number |
| `ArtifactImport.LinksStayInRootfs` | internal/app/wwctl/overlay/imprt/main.go:175-213 | For every archive extracted without error: following any extracted symlink through any number of hops, ".." included, never leaves the staging root and never ends outside rootfs |
| `ArtifactImport.LookupsStayInRootfs` | internal/app/wwctl/overlay/imprt/main.go:175-213 | Looking up any path below rootfs without ".." stays inside rootfs, whatever links it meets |
| `ArtifactImport.StepContained` | internal/app/wwctl/overlay/imprt/main.go:278-308 | The invariant behind it: what is left of a lookup, read lexically, ends inside rootfs; every kernel step keeps that |
| `ArtifactImport.LateUpsEscape` | internal/app/wwctl/overlay/imprt/main.go:285-300 | Why ".." may only lead: after an archive extracted without error, a target that passes every other test and is inside rootfs when read lexically leaves the staging root, because a component before its ".." is an extracted symlink |
| `ArtifactImport.ArchiveSound` | internal/app/wwctl/overlay/imprt/main.go:137-171 | Any extracted archive leaves a sound tree: parents are real directories, names are in the layout, links passed validation, and nothing that existed was removed or replaced |
| `ArchiveTree.SoundMeans` | internal/app/wwctl/overlay/imprt/main.go:137-206 | Soundness and growth path by path: names only, in the layout, below real directories, links valid; and nothing removed or changed |
| `ArtifactImport.Staging.ExtractArtifactEntry` | internal/app/wwctl/overlay/imprt/main.go:175-213 | The outcome for every entry type and state of the tree, the new tree on success, and soundness and growth also on failure |
| `ArtifactImport.Staging.ExtractDir` | internal/app/wwctl/overlay/imprt/main.go:185-189 | A directory entry creates the missing directories on its path |
| `ArtifactImport.Staging.ExtractBelow` | internal/app/wwctl/overlay/imprt/main.go:189-206 | A file or link entry is created below real directories and never replaces anything: on success the path is new and holds the node |
| `ArtifactImport.Staging.EnsureImportDir` | internal/app/wwctl/overlay/imprt/main.go:229-258 | Succeeds exactly when no component exists as a link or file; then exactly the missing directories were added, and otherwise only those before the obstacle |
| `ArtifactImport.Staging.ExtractArtifactArchive` | internal/app/wwctl/overlay/imprt/main.go:137-171 | Succeeds exactly when every entry does in turn; the tree stays sound and only grows in any case |
| `ArchiveTree.ExtractedAllAt` | internal/app/wwctl/overlay/imprt/main.go:137-171 | The tree of an archive extracted without error, path by path: what was there is unchanged, every entry holds its own content, link target or directory, every other path is a directory above some entry, and all of these are there |
| `ArchiveTree.ExtractsIff` | internal/app/wwctl/overlay/imprt/main.go:137-206 | An archive is extracted without error if and only if every entry would be accepted by itself and no file or link has another entry at its path or below it |
| `ArchiveTree.AcceptedIff` | internal/app/wwctl/overlay/imprt/main.go:175-213 | One entry is accepted if and only if its name is in the layout, its type is a directory, file or valid link, what exists above it are directories, and nothing is where it goes, a directory for a directory apart |
| `ArchiveTree.OrderFree` | internal/app/wwctl/overlay/imprt/main.go:137-171 | The entries may come in any order: all orders are accepted or none, with the same tree |
| `ArtifactPaths.CleanEntryName` | internal/app/wwctl/overlay/imprt/main.go:215-227 | An accepted name is a non-empty path of plain names: never ".", absolute, blank or climbing |
| `ArtifactPaths.ValidateArchiveSymlink` | internal/app/wwctl/overlay/imprt/main.go:278-308 | The seenName loop and the lexical test accept exactly relative, non-blank targets whose ".." only lead and which end inside rootfs |
| `ArtifactPaths.CleanShape` | internal/app/wwctl/overlay/imprt/main.go:222-225 | A cleaned path is all names or starts with "..", so the prefix tests are enough |
| `ArchiveNames.CleanIsLookup` | internal/app/wwctl/overlay/imprt/main.go:222-225 | A path cleans to another if and only if looking it up arrives there when every name is a directory |
| `ArchiveNames.EntryNameIff` | internal/app/wwctl/overlay/imprt/main.go:215-227 | An entry name is accepted for a path if and only if it is not blank or absolute and such a lookup from the staging root arrives at that path, below the root |
| `ArchiveNames.SafeLinkIff` | internal/app/wwctl/overlay/imprt/main.go:278-308 | A link target is accepted if and only if it is not blank or absolute, has no ".." behind a name, and such a lookup from the link's directory arrives at or below rootfs |
| `ArchiveNames.SpaceIff` | internal/app/wwctl/overlay/imprt/main.go:215-218 | Names of nothing but white space count as empty: white space is the UTF-8 form of exactly the White_Space code points |
| `Profiles.ResolvedProfiles` | internal/pkg/node/mergo.go:27-34 | On any graph, cycles included: a profile is resolved if and only if it is reachable, not a negation, and "~p" occurs in neither the node's list nor any reachable profile's; each once |
| `Profiles.ResolvedOrder` | internal/pkg/node/mergo.go:27-67 | In the resolved list nested profiles precede the profiles naming them, except on a cycle |
| `ProfileOrder.ResolvedIsUnfolded` | internal/pkg/node/mergo.go:27-67 | On any graph, cycles included: the walk with its shared visited map gives what expanding every mention in full gives, cut only at profiles being expanded, then cleaned, each profile at its first place |
| `ProfileOrder.EarlierFirst` | internal/pkg/node/mergo.go:51-67 | The order, at any depth: a profile named at some place of the nested lists precedes every resolved profile that is reachable neither from it nor from an entry to its left in one of the lists on the way down |
| `ProfileOrder.EntriesInOrder` | internal/pkg/node/mergo.go:51-67 | An entry of the node's list precedes every profile reachable from no entry up to it |
| `ProfileOrder.NestedInOrder` | internal/pkg/node/mergo.go:51-67 | The same for the entries of the list a profile nests |
| `ProfileOrder.WithoutNesting` | internal/pkg/node/mergo.go:27-34 | Without nesting: the plain entries the list does not negate, each once, in order of first appearance |
| `ProfileOrder.ReachableIff` | internal/pkg/node/mergo.go:51-67 | Reachable means at the end of a chain of plain names that starts in the list, each nested by the one before |
| `ProfileOrder.CleanedAt` | internal/pkg/node/methods.go:404-418 | cleanList keeps exactly the plain tokens the list does not negate, at their places and as often as they occur |
| `Profiles.WalkListsReachable` | internal/pkg/node/mergo.go:51-67 | The plain output lists each reachable profile exactly once, on any graph |
| `Profiles.NestedFirst` | internal/pkg/node/mergo.go:51-67 | A profile comes after every profile it names unless that one leads back to it |
| `Profiles.DfsNegations` | internal/pkg/node/mergo.go:51-67 | A negated token is in the output if and only if the list or a newly visited profile holds it |
| `Profiles.GetProfilesProfiles` | internal/pkg/node/mergo.go:51-67 | The recursion with its shared visited map, on any graph: output and visited map are those of the walk, and it terminates |
| `Profiles.NegList` | internal/pkg/node/methods.go:384-391 | The names behind the negated tokens |
| `Profiles.Clean` | internal/pkg/node/methods.go:404-418 | Keeps, in order, exactly the tokens that are not negated by any token of the list and are no negation |
| `Profiles.CleanedMembers` | internal/pkg/node/methods.go:404-418 | A token survives if and only if it is plain and its negation occurs nowhere in the list |
| `Profiles.GetNodeProfiles` | internal/pkg/node/mergo.go:27-34 | The walk from an empty visited map followed by the cleaning: the list that the laws on members and order are about |
| `Groups.GroupMembers` | internal/pkg/node/groups.go:19-64 | Strictly sorted, and a node is in it if and only if: for "all", neither it nor a resolved profile opts out; otherwise the group is declared by it or an existing resolved profile and negated by none of them |
| `Groups.MemberIff` | internal/pkg/node/groups.go:19-64 | Membership by the group lists of the node and of the existing profiles it resolves to |
| `Groups.ResolvedIff` | internal/pkg/node/mergo.go:27-67 | A profile is resolved for a node if and only if it ends a chain of plain names from the node's list down the nested lists of the configuration, and neither the node's list nor that of any profile ending such a chain negates it |
| `Groups.MergedGroupsMembers` | internal/pkg/node/mergo.go:137-184 | A group is in the merged list if and only if it is declared, not a negation, and its negation is declared nowhere among the node and its existing resolved profiles |
| `Groups.MergedGroupsOrder` | internal/pkg/node/mergo.go:137-184 | The groups of an earlier resolved profile come before those of a later one, and the node's own come last |
| `Groups.MergeGroups` | internal/pkg/node/mergo.go:147-182 | The fold over profiles, missing ones skipped, the node's own list last, then cleaning |
| `Groups.HasLiteralGroup` | internal/pkg/node/groups.go:69-86 | True exactly when the node or an existing resolved profile holds the token verbatim |
| `Groups.Unmasked` | internal/pkg/node/groups.go:20-30 | The nodes without "~all", still strictly sorted |
| `Groups.CollectMembers` | internal/pkg/node/groups.go:32-41 | Each member once |
| `ScanWalk.CachedParallelScan` | internal/pkg/overlaydiff/diff.go:159-244 | A scan that reuses baseline hashes under a stamp no later than each file's baseline lstat, under every interleaving of scan workers and hash workers, ends with the entry map of one sequential scan that hashes every file |
| `ScanShows.ScanShowsObjects` | internal/pkg/overlaydiff/diff.go:159-336 | The sequential result by object, for all disjoint roots: a path has an entry if and only if names lead from a root to an object there, no exclude matches it, and the entry is that object, a file with the hash of its content; a file that can no longer be hashed is missing |
| `ScanWalk.StampedIsFresh` | internal/pkg/overlaydiff/diff.go:461-493 | For a whole tree: such a stamp makes every reused hash the hash of the current content |
| `ScanWalk.WalkIsFilter` | internal/pkg/overlaydiff/diff.go:246-336 | The walk, which skips whole directories, records a path with an entry if and only if names lead to an object there, no exclude matches the full path, and the entry is that object: a readable link with its own mode and target, a directory with its mode, a file with its size, time, inode, device and mode, and the baseline's hash exactly under the reuse conditions, else none; the files left to the workers are exactly those without a hash |
| `ScanWalk.WalkAllAt` | internal/pkg/overlaydiff/diff.go:246-336 | At every path below the directory: the entry, and whether a hash job was queued |
| `ScanWalk.WalkAllKey` | internal/pkg/overlaydiff/diff.go:258-267 | Every recorded path is a sequence of names below the walk's root |
| `ScanWalk.ExcludesBelow` | internal/pkg/overlaydiff/diff.go:495-528 | What lies in an excluded directory is excluded, for prefixes and for "cache" segments: skipping the directory loses nothing |
| `ScanShows.ExcludedIff` | internal/pkg/overlaydiff/diff.go:495-528 | A path is excluded if and only if one of its names is "cache" or ".cache", or it is an exclude or continues one after a slash |
| `ScanShows.ExcludesNames` | internal/pkg/overlaydiff/diff.go:495-528 | An exclude made of names excludes exactly the paths that begin with these names, "cache" names apart |
| `ScanShows.AtChild` | internal/pkg/overlaydiff/diff.go:246-267 | The first name leads to the child of that name, further names into it only if it is a directory |
| `ScanShows.AtNoChild` | internal/pkg/overlaydiff/diff.go:246-267 | Names that no child begins lead nowhere |
| `ScanWalk.WalkerWalksBelow` | internal/pkg/overlaydiff/diff.go:246-336 | The walk gives the worker pools what they rely on: paths strictly below the root, one job per path, every job recorded |
| `ScanWalk.JobsDistinct` | internal/pkg/overlaydiff/diff.go:321-325 | No path is queued for hashing twice |
| `ScanWalk.StampMakesFresh` | internal/pkg/overlaydiff/diff.go:86-95 | For one file of a scan: a stamp no later than its baseline lstat makes the reused hash the hash of the current content |
| `ScanWalk.Gather.Visit` | internal/pkg/overlaydiff/diff.go:247-330 | The callback and the walk below one object add exactly what the specification walk adds |
| `ScanWalk.Gather.ScanTreeInto` | internal/pkg/overlaydiff/diff.go:246-336 | The walk over a directory, its own entry not recorded |
| `ScanWorkers.ParallelIsSequential` | internal/pkg/overlaydiff/diff.go:159-244 | For any scanner that stays below its root: every interleaving of both pools ends with the sequential result |
| `ScanWorkers.ScanIsSequential` | internal/pkg/overlaydiff/diff.go:177-231 | Every complete run of the scan workers finds the sequential entries, and the same jobs, each once |
| `ScanWorkers.HashStepInv` | internal/pkg/overlaydiff/diff.go:402-424 | After any step the map is the initial one with exactly the finished jobs applied |
| `ScanWorkers.PoolProgress` | internal/pkg/overlaydiff/diff.go:215-231 | With a worker a pool is never stuck and every step brings it closer to the end |
| `ScanWorkers.KeptDisjoint` | internal/pkg/overlaydiff/diff.go:352-379 | What the deduper keeps sees no path twice, unless "/" is given together with other roots |
| `ScanIncludes.DedupeTopLevelIncludes` | internal/pkg/overlaydiff/diff.go:352-379 | The kept roots are an antichain taken from the given ones, shortest first and then in string order, and every given root is kept or below a kept one |
| `ScanIncludes.KeptMeans` | internal/pkg/overlaydiff/diff.go:352-379 | Antichain and cover in terms of the texts: no kept root equals another or continues it after a slash, and every given root is a kept one or continues one |
| `ScanIncludes.ExactlyOneRoot` | internal/pkg/overlaydiff/diff.go:352-379 | What lies strictly below some given root lies strictly below exactly one kept root |
| `ScanIncludes.Skips` | internal/pkg/overlaydiff/diff.go:367-373 | The inner loop: whether a kept root equals or covers this one |
| `HashReuse.ReuseSoundIff` | internal/pkg/overlaydiff/diff.go:461-493 | Reuse is right for every file and history if and only if the captured-at stamp is no later than the file's baseline lstat; the stamp runStart takes after its scan is too late |
| `HashReuse.ReuseIsFresh` | internal/pkg/overlaydiff/diff.go:461-493 | With such a stamp no write happened since the baseline lstat, and the reused hash is that of the current content |
| `OverlayCompare.Compare` | internal/pkg/overlaydiff/diff.go:531-568 | At most one change per path, strictly sorted, exactly the change each path calls for |
| `OverlayCompare.ListedIff` | internal/pkg/overlaydiff/diff.go:531-568 | A path is listed if and only if it is in one tree only, or its entries differ in type or mode, in their hash as files or in their target as links |
| `OverlayCompare.CompareThenApply` | internal/pkg/overlaydiff/diff.go:531-568 | Applying the changes to the baseline gives the source's paths, equal in type, hash or link target, and mode |
| `OverlayCompare.CompareEmptyIff` | internal/pkg/overlaydiff/diff.go:531-568 | The list is empty if and only if the two maps already agree |
| `OverlayCompare.ChangeMeans` | internal/pkg/overlaydiff/diff.go:531-603 | Each listed change by the two trees alone: added, removed, type, content and mode changes told apart, with both entries and the type, mode and size shown |
| `OverlayCompare.ChangeForSource` | internal/pkg/overlaydiff/diff.go:534-554 | The chain of tests on one source key |
| `OverlayCompare.ApplyAllAt` | internal/pkg/overlaydiff/diff.go:563-567 | With distinct paths each change acts alone on its own path, so their order does not matter |
| `BatchPool.RunIsSafe` | internal/pkg/batch/batch.go:20-41 | In every reachable state at most `active` jobs run and none has started twice; once Run has returned every job started once and finished, no token is left, and nothing receives from the closed limiter |
| `BatchPool.NeverStuck` | internal/pkg/batch/batch.go:30-41 | With a positive limit no state short of the return is stuck |
| `BatchPool.StepDecreases` | internal/pkg/batch/batch.go:24-41 | Every step lowers a measure: every run is finite |
| `BatchPool.StartsIff` | internal/pkg/batch/batch.go:32-34 | The pool gets past its start if and only if the limit is positive or there is no job |
| `BatchPool.Batch.Submit` | internal/pkg/batch/batch.go:20-22 | Appends the job |
| `BatchPool.Batch.Run` | internal/pkg/batch/batch.go:30-41 | Under any scheduler the run ends with every job started once and finished |
| `BuildAllOverlays.BuildsAll` | internal/pkg/overlay/overlay.go:759-803 | For every interleaving: at most two errors per received node are queued, no error send blocks, and with a worker the call returns with every node built and nil if and only if no build failed |
| `BuildAllOverlays.NoWorkersNoBuild` | internal/pkg/overlay/overlay.go:787-802 | Without a worker the call returns nil and has built nothing |
| `BuildAllOverlays.SendsNeverBlock` | internal/pkg/overlay/overlay.go:761-782 | A worker at an error send finds room |
| `BuildAllOverlays.NeverStuck` | internal/pkg/overlay/overlay.go:787-802 | No state short of the return is stuck, for any number of workers |
| `BuildAllOverlays.StepDecreases` | internal/pkg/overlay/overlay.go:764-797 | Every step lowers a measure: every run is finite |
| `BuildAllOverlays.StepInv` | internal/pkg/overlay/overlay.go:764-797 | Every step keeps the invariant: each node is held by at most one worker, errors are exactly those of the builds made, workers leave only when the closed channel is empty |
| `Discovery.KeepsIff` | internal/pkg/warewulfd/nodedb.go:71-135 | Over all runs of lower-case requests: an address keeps its node in every run if and only if no waiting node that comes later in node order carries it on a device other than its primary one (given as many unused valid addresses as waiting nodes) |
| `Discovery.BoundForever` | internal/pkg/warewulfd/nodedb.go:71-135 | Such an address keeps its node in every run, and the index stays the one recomputed from the database |
| `Discovery.ThreatenedLost` | internal/pkg/warewulfd/nodedb.go:71-135 | Any other address is taken from its node by some run of requests, however many nodes wait before the one that carries it |
| `Discovery.CarriedAddressMoves` | internal/pkg/warewulfd/nodedb.go:94-121 | Failing input: a configured node and a later waiting node with the same address on its second device |
| `Discovery.FreshRun` | internal/pkg/warewulfd/nodedb.go:71-135 | When waiting nodes start without addresses, every address keeps its node through every run, and addresses bound during the run share no node with any other address |
| `Discovery.NewBindingsDistinct` | internal/pkg/warewulfd/nodedb.go:71-135 | Over every run, whatever the nodes carried before: addresses bound by different requests go to different nodes |
| `Discovery.BoundWaiting` | internal/pkg/warewulfd/nodedb.go:94-121 | A newly bound address goes to a node that was waiting, is no longer, and had no address in the index |
| `Discovery.DiscoveryStep` | internal/pkg/warewulfd/nodedb.go:100-121 | One discovery, address by address: an indexed address moves if and only if the discovered node takes it and comes later in node order; new in the index is exactly what the node takes; exactly one waiting node is used up; the requested address can be found if and only if it was given in lower case |
| `DiscoveryTerms.DiscoversIff` | internal/pkg/node/constructors.go:184-203 | One discovery by the records: the first node by cluster and id that is discoverable and has a device, its own or inherited, gets the address on its primary device and is no longer discoverable; nothing else changes |
| `DiscoveryTerms.OwnsIff` | internal/pkg/warewulfd/nodedb.go:31-56 | A configured node has an address if one of its own devices carries it, or an inherited one for which the node itself has none |
| `DiscoveryTerms.SecureIff` | internal/pkg/warewulfd/nodedb.go:71-135 | Secure in these terms: no later waiting node has the address on one of its own or inherited devices other than its primary one |
| `Discovery.RequestKeeps` | internal/pkg/warewulfd/nodedb.go:71-135 | One request keeps the index right, and every address that no later waiting node carries with its node |
| `Discovery.IndexUnique` | internal/pkg/warewulfd/nodedb.go:31-56 | The database determines its index |
| `Discovery.NodeDb.Load` | internal/pkg/warewulfd/nodedb.go:31-56 | The rebuilt index maps each address of a configured node to its last owner in node order |
| `Discovery.NodeDb.FindDiscoverableNode` | internal/pkg/node/constructors.go:184-203 | The first discoverable node with a device in cluster and id order, with its primary device; fails exactly when there is none |
| `Discovery.NodeDb.GetNode` | internal/pkg/warewulfd/nodedb.go:60-69 | The last node in node order that is configured with the address; an error exactly when no configured node has it |
| `Discovery.NodeDb.GetOrDiscoverNode` | internal/pkg/warewulfd/nodedb.go:71-135 | The outcome in each case, the exact new database after a discovery, and the index equal to the recomputed one afterwards |
| `Discovery.NodeEntries` | internal/pkg/warewulfd/nodedb.go:48-51 | The lower-case addresses of one node |
| `Discovery.PrimaryNetDev` | internal/pkg/node/methods.go:358-373 | The configured primary device if it exists, else the first by name |
| `Fields.ListedPathsRead` | internal/pkg/node/fields.go:111-144 | Every path listFields prints is read back to the leaf it stands for, or reports no value when it crosses a nil pointer |
| `Fields.PathRoundTrip` | internal/pkg/node/fields.go:111-144 | Reading the printed path of any route to a leaf finds that leaf |
| `Fields.PathsDistinct` | internal/pkg/node/fields.go:246-289 | Distinct leaves have distinct paths |
| `Fields.ListedExactly` | internal/pkg/node/fields.go:246-289 | When listFields does not panic, it prints exactly the paths of the routes to leaves, each once, map keys and nested structs included |
| `Fields.ListsUnlessMissing` | internal/pkg/node/fields.go:246-289 | Listing panics if and only if a pointer field lies in a struct that is missing behind a nil pointer or nil map entry |
| `Fields.ShallowListable` | internal/pkg/node/fields.go:246-289 | Types whose structs behind pointers and in maps of pointers have no pointer fields can be listed whatever is nil |
| `Fields.NilEntryPanics` | internal/pkg/node/fields.go:257-260 | Failing input: a nil entry in a map of structs with a pointer field, such as a nil disk |
| `Fields.SplitPrinted` | internal/pkg/node/fields.go:152-183 | Splitting a printed path gives back its segments, dots and "[" inside keys included |
| `Fields.ParseSegment` | internal/pkg/node/fields.go:199-204 | Parsing a segment gives back its name and key |
| `FieldNames.CutAtDot` | internal/pkg/node/fields.go:152-183 | For every text: a name is cut at the first dot whose nearest bracket before it, if any, is closing |
| `FieldNames.NoCut` | internal/pkg/node/fields.go:152-183 | Without such a dot a name is one part, and no part if it is empty |
| `FieldNames.KeyIff` | internal/pkg/node/fields.go:199-204 | A part has a key if and only if it is a name without "[", then "[", a key without "]" and "]"; else it is all name |
| `FieldNames.FieldIff` | internal/pkg/node/fields.go:111-144 | A name means the first field shown under it or, if none is, the first whose Go name it is |
| `FieldNames.LookupFinds` | internal/pkg/node/fields.go:111-144 | A lookup finds the value of the field, or with a key the entry of its map, in a struct and behind a pointer alike |
| `FieldNames.ListedInOrder` | internal/pkg/node/fields.go:246-289 | Fields are listed in the order of the type |
| `FieldNames.ListableMissing` | internal/pkg/node/fields.go:246-289 | A missing struct can be listed if and only if neither it nor a struct it holds by value has a pointer field |
| `FieldNames.ListableThere` | internal/pkg/node/fields.go:246-289 | A struct that is there can be listed if and only if the structs in it can, those behind pointers and in maps as missing or as there |
| `FieldNames.LookupFails` | internal/pkg/node/fields.go:111-144 | How a lookup fails: an invalid value for an unknown name, no value for a missing key, behind a nil pointer and below an invalid value, a panic for a key of anything but a map |
| `Fields.SplitFieldName` | internal/pkg/node/fields.go:152-183 | The splitting loop, for every string |
| `Fields.GetNestedFieldValue` | internal/pkg/node/fields.go:111-144 | The lookup loop, for every name: a value, the "no value" error, an invalid value or a reflect panic |
| `Update.UpdateAt` | internal/pkg/node/update.go:44-110 | Path by path: a flagged leaf below structs and entries the source has shows the source's value, such structs, maps and entries come into being, and every other path shows what the destination had, missing structs read as zero |
| `Update.UpdatedBySchema` | internal/pkg/node/update.go:44-110 | Field by field by the schema alone: unexported and untagged plain fields stay, flagged ones are copied when changed, structs and structs behind pointers and in maps of pointers are entered, missing ones created from zeros when the source has them |
| `Update.ZerosAre` | internal/pkg/node/update.go:68-73 | A created struct holds empty texts, zero structs and nil pointers and maps |
| `Update.UpdateUnique` | internal/pkg/node/update.go:44-110 | The update is the only value with that property |
| `Update.UpdatesCombine` | internal/pkg/node/update.go:44-110 | Two updates from one source are one update with the flags of both |
| `Update.UpdateIdempotent` | internal/pkg/node/update.go:44-110 | Updating twice from one source is updating once |
| `Update.UpdateFromSelf` | internal/pkg/node/update.go:44-110 | A value updated from itself is unchanged, whatever the flags |
| `Update.ViewsDetermine` | internal/pkg/node/update.go:44-110 | Two values that look the same at every path are equal, nil and empty maps and nil entries told apart |
| `Update.RecursiveUpdateFrom` | internal/pkg/node/update.go:44-110 | The loop over the fields of a struct |
| `Update.UpdateField` | internal/pkg/node/update.go:52-108 | One field: copied by flag, entered, created when missing, or left alone, by its tags and type |
| `Update.UpdateEntries` | internal/pkg/node/update.go:84-106 | The loop over a map of pointers, in any key order: keys of the destination and non-nil keys of the source, each updated on its own |

## Left out

- Syncuser.TreeKeepsNames: symlinks in the image are not part of the tree, since the walk records the link while stat and chown follow it; the tables read below Sysconfdir and those copied from /etc must be the same files.
- Syncuser.Run: I/O errors, the 64 KiB line limit of the scanner and logging are not modelled; lines end in a bare newline (the scanner also drops a carriage return before it); ids are what Atoi accepts in 64 bits, stored in 32.
- Hostlist.Expand: requires range ends below 2^63 - 1, because the source's counting loop never ends at that bound; strings are byte sequences.
- HostlistCompress.ExpandUndoesCompress: names containing a comma or bracket, or with a number of 2^63 - 1 or more, are outside the law, and so is the empty list, which prints "" and reads back as one empty name.
- ArtifactImport.LinksStayInRootfs: file modes, I/O errors, gzip and tar decoding and the manifest checks after extraction are not modelled.
- Groups.MergeGroups: mergo is not modelled; list fields are taken to append, as the merge options ask. The other fields of MergeNode and the field-source bookkeeping are left out.
- Groups.GroupMembers: the warning for unknown groups, and with it ListAllGroups, is left out.
- ScanIncludes.ExactlyOneRoot: paths below the include "/" are not covered, since the prefix test looks for "//".
- ScanWorkers.ParallelIsSequential: covers the include "/" only by itself; together with other includes it sees their paths twice. Runs with a fatal error are left out; workers then exit while the sender may still wait on the channel.
- ScanWalk.WalkIsFilter: include filtering inside a walk is left out, as scanIncludedRoots passes no includes to it; path normalisation of options is left out.
- HashReuse.ReuseSoundIff: clocks are exact and a stored modification time lags its write by less than a second; files whose modification time is set by hand are not covered.
- ScanWalk.CachedParallelScan: a file is not written between the inspection and the hashing of one scan.
- Discovery.NodeDb.GetOrDiscoverNode: one request is one atomic step, although the source holds only a read lock; persisting and reloading succeed; setting a node merges its device map into the stored one, as gob decoding does; ToLower is on ASCII letters; removing overlay images is left out.
- Fields.ListedPathsRead: reflection is replaced by a schema; map keys are non-empty without "]", display names are unique and plain, and names are valid UTF-8. Pointers to maps are not modelled.
- Update.RecursiveUpdateFrom: works on values and returns the new struct instead of writing through reflect, so structs shared by source and destination through one pointer are not captured.
- BatchPool.RunIsSafe: jobs are steps that return; panicking jobs are not modelled.
- BuildAllOverlays.BuildsAll: which builds fail is fixed per run; building itself is left out.
- Template rendering and the rest of overlay.go, HTTP handlers, the REST API, TLS, BMC commands, OCI and SIF import, chroot and exec, systemd units and table output.
- Legacy configuration upgrade, configuration parsing, logging and small query functions.
