# UltraDataBurningROM service layer in Dafny

UltraDataBurningROM lets a known user fill a personal *bucket* (a directory
mount) with files, then *burn* it: the bucket is archived, uploaded to
decentralized storage, storage is purchased, and the result is published as a
ROM record that anyone can mount, search and see among the popular content.
This project models the server's service layer and proves what it promises:

- the keyed entity store (`DatabaseService`) and its self-clearing cache (`CapMap`);
- the mount state machine (`MountService`) and the download registry (`DownloadService`);
- users and buckets (`UserService`, `BucketService`);
- the burn pipeline (`BurnService`, `WorkerRun`) and ROM extension;
- the background worker (`WorkerService`) and its three handlers: cleanup,
  popular content and the search index;
- the ROM view (`MapperService`) and the tag tokenizer (`Utils.SplitTagString`).

Module layout (one module per service file):

| module | file | models |
|---|---|---|
| `Outcomes` | outcomes.dfy | `Option`, `Result`, `Outcome` and the exceptions raised |
| `Utils` | utils.dfy | `SplitTagString`, `ToLowerInvariant`, `ToUnixTimestamp`, class `CapMap` |
| `Entities` | entities.dfy | `DbUser`, `DbMount`, `DbRom`, `DbPopContent`, the two state enums, the store as a map keyed by (type, id) |
| `Platform` | platform.dfy | paths, the disk, fresh ids, the storage-node pool, the host state a call sees |
| `Database` | database.dfy | class `Table` (one type directory and its cache), class `DatabaseService` |
| `Downloads` | downloads.dfy | class `DownloadService` |
| `Mounts` | mounts.dfy | class `MountService` and the two switch tables |
| `Users` | users.dfy | class `UserService` |
| `Burn` | burn.dfy | class `BurnService`, class `WorkerRun`, `DbMountExtensions` |
| `Buckets` | buckets.dfy | class `BucketService`, `Bucket` (as `BucketView`) |
| `Mapper` | mapper.dfy | `MapperService.Map` and the view `Rom` |
| `Cleanup` | cleanup.dfy | class `CleanupContext` |
| `Popular` | popular.dfy | class `PopularUpdateContext` |
| `Search` | search.dfy | classes `SearchIndex`, `SearchIndexer`, `SearchService` |
| `Workers` | workers.dfy | classes `Job` and `WorkerService` |

How the outside world appears in the model:

- The store is the value `Store = map<Key, Entity>`. The services read it and
  write it through `Find*`, `Put*` and `Remove`, threaded through each call
  inside `Host(db, disk, pool)`.
- `Database.DatabaseService` is the imperative store itself: a file map per
  type plus a `CapMap` cache per type. Its `Get`, `Save` and `Delete` are
  proved to act on a store the tables represent as `Find`, `Put` and `Remove`
  act on the value. `Get` answers the stored record while the caches agree
  with the files. A save whose file write succeeds yields `Put`, and a delete
  yields `Remove`.
- The clock is a `now: Ticks` parameter. `Guid.NewGuid` is a `newId: Guid`
  parameter, constrained to the shape of a lower-case guid.
- Remote storage answers (download, upload, purchase), the outcome of zip
  extraction and the size of the written info file are parameters.
- The node pool is `Pool(free)`. `TakeNode` fails (the task waits) when no
  node is free; `ReleaseNode` returns a node.
- A `Task.Run` becomes an entry in a pending-task queue. A method such as
  `RunWorkerTask` or `FinishRunning` later runs that task's body.
- `SaveNewRom` lists the bucket through the mount service's cache. `BucketIsValid` caches that listing when a burn starts (`CacheAfterCheck`). So, unless the cache has been cleared since, the saved ROM lists the files as they were checked. That list does not hold the info file the worker writes into the bucket afterwards. `Burn.CheckedListingIsKept` states this.
- The worker's handlers are recorded as the trace of calls a job makes on
  them. Each handler is then modelled as its own class.

## Model

| member | source | states |
|---|---|---|
| Entities.IncrementInt32 | server/Services/MountService.cs:199 | `MountCounter++` on a C# `int` adds one, and wraps from int.MaxValue to int.MinValue |
| Entities.DbRom.RomCid | server/Services/DatabaseService.cs:210 | the ROM cid is the record id |
| Entities.DbRom.WithRomCid | server/Services/DatabaseService.cs:210 | setting the cid sets the id and changes nothing else |
| Entities.TypeNamesDistinct | server/Services/DatabaseService.cs:22-25 | two entity types share a lower-case type name iff they are the same type |
| Entities.FindUser | server/Services/DatabaseService.cs:28-49 | a user is found iff a user record is filed under that id, and the one found carries that id |
| Entities.FindMount | server/Services/DatabaseService.cs:28-49 | the same for mount records |
| Entities.FindRom | server/Services/DatabaseService.cs:28-49 | the same for ROM records |
| Entities.FindPop | server/Services/DatabaseService.cs:28-49 | the same for popular-content records |
| Entities.Put | server/Services/DatabaseService.cs:51-66 | `Save` files the entity under its own type and id; every other key keeps its record |
| Entities.PutUser | server/Services/DatabaseService.cs:51-66 | a saved user is found again under its id |
| Entities.PutMount | server/Services/DatabaseService.cs:51-66 | a saved mount is found again under its id |
| Entities.PutRom | server/Services/DatabaseService.cs:51-66 | a saved ROM is found again under its id |
| Entities.Remove | server/Services/DatabaseService.cs:98-115 | `Delete<T>(id)` removes that type's record with that id and no other record |
| Entities.PutTwice | server/Services/DatabaseService.cs:51-66 | saving twice under one key leaves one record, the later one |
| Entities.KindsIndependent | server/Services/DatabaseService.cs:146-150 | saving or deleting one type never changes the records of another type with the same id |
| Entities.RecordsOfAt | server/Services/DatabaseService.cs:77-80 | the records of one type are exactly the records filed under that type, each under its own id |
| Entities.RecordsOfPut | server/Services/DatabaseService.cs:51-66 | a save changes the records of the saved type by one upsert and no other type's records |
| Entities.RecordsOfRemove | server/Services/DatabaseService.cs:98-115 | a delete removes one id from the deleted type's records and leaves the other types alone |
| Platform.Combine | server/Services/BucketService.cs:67 | `Path.Combine` ends with its second argument, returns the first for an empty second, and puts one '/' between a directory not ending in '/' and a relative name |
| Platform.GetZipFilePath | server/Services/BurnService.cs:242-245 | the zip path is `./zips/__` + lower-case id + `.zip` |
| Platform.GetInfoJsonFilePath | server/Services/BurnService.cs:247-250 | the info file is `__UltraDataBurningROM__.json` inside the mount directory |
| Platform.ZipOutsideMount | server/Services/BurnService.cs:242-250 | a rooted mount directory never contains the mount's zip path |
| Platform.SystemFilesDistinct | server/Services/BucketService.cs:72-73 | the zip path and the info path differ even after lower-casing both |
| Platform.WithoutName | server/Services/MountService.cs:71 | `RemoveAll` drops exactly the entries with that file name and keeps the rest |
| Platform.DeleteEntry | server/Services/MountService.cs:77-78 | deleting a file removes it from its directory and touches no other directory or zip |
| Platform.WithoutNameAppend | server/Services/MountService.cs:71 | `RemoveAll` by name works on each part of a listing separately |
| Platform.WithoutNameTwice | server/Services/MountService.cs:71 | removing a name twice is removing it once |
| Platform.DeleteAfterWrite | server/Services/BurnService.cs:121 | writing a file and then deleting it leaves the directory as deleting it alone would |
| Platform.WriteEntry | server/Services/BurnService.cs:215-224 | writing a file creates or replaces it in its directory only |
| Platform.CreateDirectory | server/Services/MountService.cs:159 | creating a directory keeps every existing one, and a new one starts empty |
| Platform.GuidShape | server/Services/MountService.cs:150 | a new id is already lower case and holds no '/' |
| Platform.TakeNode | server/Services/DownloadService.cs:31 | taking a node fails iff none is free, otherwise it removes the first free node |
| Platform.ReleaseNode | server/Services/DownloadService.cs:40 | releasing adds the node back to the free nodes |
| Platform.TakeReleaseKeepsNodes | server/Services/BurnService.cs:60-69 | take followed by release leaves the same free nodes |
| Utils.ToLowerChar | server/Utils.cs:11-17 | a lower-cased character is not an upper-case letter and is blank iff the original is |
| Utils.ToLowerInvariant | server/Services/SearchService.cs:40 | lower-casing keeps the length and maps each character on its own |
| Utils.LowerAppend | server/Services/BucketService.cs:68 | lower-casing a concatenation lower-cases each part |
| Utils.SplitOnSpace | server/Utils.cs:16 | splitting on ' ' always yields at least one piece |
| Utils.OccurrencesPositive | server/Services/PopularContentService.cs:125-129 | a tag is counted at least once iff it occurs |
| Utils.ReplaceSeparatorsShape | server/Utils.cs:13-15 | after the two `Replace` calls no ',' or '.' is left and the length is unchanged |
| Utils.ReplaceSeparatorsAppend | server/Utils.cs:13-15 | replacing separators works character by character |
| Utils.SplitOnSpacePieces | server/Utils.cs:16 | every piece consists of input characters other than ' ' |
| Utils.SplitOnSpaceAround | server/Utils.cs:16 | splitting `a + " " + b` gives the pieces of a, then those of b |
| Utils.TrimStartShape | server/Utils.cs:16 | trimming the front keeps only input characters and leaves no leading white space |
| Utils.TrimEndShape | server/Utils.cs:16 | trimming the end keeps only input characters and leaves no trailing white space |
| Utils.TrimShape | server/Utils.cs:16 | `TrimEntries` leaves no white space at either end and keeps the non-blank characters |
| Utils.KeepTokensShape | server/Utils.cs:16 | after `RemoveEmptyEntries` every kept piece is a token |
| Utils.KeepTokensAppend | server/Utils.cs:16 | the kept pieces of two lists are those of each list, in order |
| Utils.SplitTagString | server/Utils.cs:11-17 | every token is non-empty, holds no ',', '.' or ' ', and neither starts nor ends with white space (the lemmas below state that no non-blank character is lost or reordered, and that re-splitting is idempotent) |
| Utils.SplitAroundSpace | server/Utils.cs:11-17 | splitting `a + " " + b` gives the tokens of a, then those of b (order is kept) |
| Utils.NoSeparatorsUnchanged | server/Utils.cs:13-15 | text without ',' or '.' is not changed by the replacements |
| Utils.NoSpaceOnePiece | server/Utils.cs:16 | text without ' ' is one piece |
| Utils.TrimmedUnchanged | server/Utils.cs:16 | text with no white space at either end is not changed by trimming |
| Utils.SplitToken | server/Utils.cs:11-17 | a token splits into itself |
| Utils.SplitJoined | server/Utils.cs:11-17 | splitting the space-joined tokens gives the same tokens back |
| Utils.SplitIdempotent | server/Utils.cs:11-17 | re-splitting the space-joined output of `SplitTagString` reproduces that output |
| Utils.NonBlankAppend | server/Utils.cs:11-17 | the non-blank characters of a concatenation are those of each part |
| Utils.NonBlankReplace | server/Utils.cs:13-15 | the replacements keep every non-blank character |
| Utils.NonBlankPieces | server/Utils.cs:16 | splitting on ' ' keeps every non-blank character, in order |
| Utils.NonBlankKeep | server/Utils.cs:16 | dropping empty pieces keeps every non-blank character |
| Utils.TokensKeepCharacters | server/Utils.cs:11-17 | the tokens hold exactly the input's non-blank characters in input order: nothing is lost or reordered |
| Utils.NonBlankEmpty | server/Utils.cs:11-17 | text has no non-blank character iff it consists of blanks only |
| Utils.NoTokensIffBlank | server/Utils.cs:11-17 | there are no tokens iff the text consists only of separators and white space (or is empty) |
| Utils.ToUnixTimestamp | server/Utils.cs:6-9 | the result is the number of whole milliseconds from 1970-01-01 to the instant, rounded down: the instant lies within the millisecond that starts at the result |
| Utils.ToUnixTimestampMonotone | server/Utils.cs:6-9 | a later instant never gives an earlier Unix timestamp |
| Utils.CapMap.constructor | server/Utils.cs:20-23 | a new map is empty, with capacity 10000 |
| Utils.CapMap.Cleared | server/Utils.cs:27 | the entries an insertion starts from: all of them, or none once the map holds more than 10000; never more than 10000 |
| Utils.CapMap.Add | server/Utils.cs:25-29 | `Add` clears when over capacity, then inserts; it throws on a key already present |
| Utils.CapMap.Get | server/Utils.cs:31-34 | `Get` answers the stored value, and throws on a missing key |
| Utils.CapMap.Set | server/Utils.cs:36-40 | `Set` clears when over capacity, then upserts; `TryGetValue` then answers the value set |
| Utils.CapMap.TryGetValue | server/Utils.cs:47-50 | the value is found iff the key is present |
| Utils.CapMap.ClearKey | server/Utils.cs:52-58 | the key is gone and every other entry stays; the map never exceeds 10001 entries |
| Database.Table.Records | server/Services/DatabaseService.cs:77-80 | the records of a type directory are the files holding a record |
| Database.Table.LookupIsRecord | server/Services/DatabaseService.cs:28-49 | while the cache agrees with the files, `Get` answers the file's record |
| Database.Table.constructor | server/Services/DatabaseService.cs:19-26 | a new type directory and cache are empty |
| Database.Table.Get | server/Services/DatabaseService.cs:28-49 | answers the cached record, else the file's record, else null; keeps the records; deletes an unreadable file |
| Database.Table.Save | server/Services/DatabaseService.cs:51-66 | the cache holds the entity even when the write fails; a successful write makes it the record |
| Database.Table.Delete | server/Services/DatabaseService.cs:98-115 | after a delete the cache entry and the file are both gone, so `Get` answers null |
| Database.SavedRecords | server/Services/DatabaseService.cs:51-66 | upserting an entity into its type's records of a store gives the records of `Put` on that store |
| Database.RemovedRecords | server/Services/DatabaseService.cs:98-115 | dropping an id from its type's records gives the records of `Remove` on that store |
| Database.Table.PassEntity | server/Services/DatabaseService.cs:117-133 | passes the cached copy when there is one, else the file's record, and nothing for an unreadable file |
| Database.Table.Iterate | server/Services/DatabaseService.cs:68-96 | each file is passed at most once; every loadable record is passed; unreadable files are skipped |
| Database.IterateCoversRecords | server/Services/DatabaseService.cs:68-96 | while the cache agrees with the files, `Iterate` passes exactly the records of the type |
| Database.DatabaseService.TableOf | server/Services/DatabaseService.cs:146-150 | each type name selects one of the four directories and caches |
| Database.DatabaseService.constructor | server/Services/DatabaseService.cs:19-26 | a new store has four empty, separate type directories |
| Database.DatabaseService.TypesIndependent | server/Services/DatabaseService.cs:146-150 | two types never share a directory or a cache |
| Database.DatabaseService.LookupInStore | server/Services/DatabaseService.cs:28-49 | while the caches agree with the files and the tables represent a store, a table answers exactly the record that store holds under its type and id |
| Database.DatabaseService.Get | server/Services/DatabaseService.cs:28-49 | `Get<T>` answers its table's lookup; while the caches agree with the files and the tables represent a store, it answers that store's record (null iff none); the records and cache agreement are kept |
| Database.DatabaseService.Save | server/Services/DatabaseService.cs:51-66 | `Save` makes the entity what its table answers; a failed write changes no file; a successful write keeps cache agreement and turns a represented store into `Put` of it |
| Database.DatabaseService.Delete | server/Services/DatabaseService.cs:98-115 | `Delete<T>` makes the table answer null, keeps cache agreement and turns a represented store into `Remove` of it |
| Downloads.RemoveFirst | server/Services/DownloadService.cs:39 | `List.Remove` drops exactly one occurrence when there is one, else nothing |
| Downloads.DownloadService.constructor | server/Services/DownloadService.cs:16 | no mount is busy and no download is queued |
| Downloads.DownloadService.LaunchDownload | server/Services/DownloadService.cs:24-45 | launching queues the task and registers nothing yet |
| Downloads.DownloadService.IsDownloading | server/Services/DownloadService.cs:47-50 | a mount is downloading iff it is the mount of the task that holds the lock |
| Downloads.DownloadService.StartNext | server/Services/DownloadService.cs:28-35 | the oldest queued task takes the lock and a node, and its mount is registered before the download runs |
| Downloads.DownloadService.RunDownload | server/Services/DownloadService.cs:52-62 | the zip is fetched to the mount's zip path and extracted into the mount directory, and no other directory changes; `whenDone` runs only after both succeed |
| Downloads.DownloadService.FinishRunning | server/Services/DownloadService.cs:32-42 | however the download ends, the mount is deregistered and the node released; the store changes only by `whenDone`; the disk is unchanged when nothing was fetched, otherwise it gains the zip, and a completed download adds the archive's files to the mount directory and changes no other directory |
| Mapper.MapRom | server/Services/MapperService.cs:23-40 | the view exists iff the ROM record does; it carries the queried cid, the record's info and files and its storage expiry |
| Mapper.GetMountState | server/Services/MapperService.cs:42-48 | `ClosedNotUsed` when the ROM names no mount or its mount record is missing; otherwise that mount's state |
| Mapper.GetMountExpiry | server/Services/MapperService.cs:50-56 | 0 in the same two cases; otherwise the mount's expiry in Unix milliseconds |
| Mapper.MapAll | server/Services/MapperService.cs:18-21 | the result is no longer than the input, and each view is the view of a listed cid |
| Mapper.MountView | server/Services/MapperService.cs:42-56 | with no current mount (empty id or missing record) the state is ClosedNotUsed and the expiry 0; otherwise they are the mount's |
| Mapper.MapAllAppend | server/Services/MapperService.cs:18-21 | mapping keeps the order of the input |
| Mapper.MapAllKnown | server/Services/MapperService.cs:18-21 | when every cid has a record nothing is dropped, and the i-th view is that of the i-th cid |
| Mapper.MapAllContains | server/Services/MapperService.cs:18-21 | every listed cid with a ROM record is answered |
| Mapper.DownloadedRomIsOpen | server/Services/MountService.cs:206-212 | once its download finishes, a ROM shows an open mount expiring three hours later |
| Mounts.MountStep | server/Services/MountService.cs:169-193 | mounting rejects `Unknown`, opens `ClosedNotUsed` and leaves every other state |
| Mounts.UnmountStep | server/Services/MountService.cs:126-145 | unmounting rejects `Unknown`, closes `OpenInUse` and leaves every other state |
| Mounts.MountUnmountInverse | server/Services/MountService.cs:117-193 | neither switch enters or leaves `Bucket` or `Downloading`; unmount then mount restores `OpenInUse`, and mount then unmount restores `ClosedNotUsed` |
| Mounts.NewMount | server/Services/MountService.cs:148-161 | a new mount has the fresh id, the given state, path `/mounts/<id>` and an expiry three hours from now |
| Mounts.DownloadFinished | server/Services/MountService.cs:206-212 | the completion callback saves the mount open with a new three-hour expiry, saves the ROM, and changes nothing else |
| Mounts.GetMount | server/Services/MountService.cs:35-40 | `Get` answers the mount record, or throws when it is absent |
| Mounts.ScanEntries | server/Services/MountService.cs:49-59 | a scan lists the mount directory's files, and fails for a missing mount or directory |
| Mounts.Listing | server/Services/MountService.cs:44-59 | a cached listing is answered as is; otherwise a missing mount throws, the scan succeeds iff the mount and its directory exist, and it answers the directory's files |
| Mounts.ListingFrame | server/Services/MountService.cs:42-63 | a listing depends only on the cache, the mount record and the directories |
| Mounts.MountService.constructor | server/Services/MountService.cs:22-28 | the listing cache starts empty |
| Mounts.MountService.CreateNewMount | server/Services/MountService.cs:148-161 | saves the new mount and creates its directory |
| Mounts.MountService.CreateNewBucketMount | server/Services/MountService.cs:30-33 | the new mount is a `Bucket` at `/mounts/<id>`, saved and with its directory, expiring three hours from now |
| Mounts.MountService.GetFileEntries | server/Services/MountService.cs:42-63 | answers the cached listing, or scans and caches it; a failed scan leaves the cache unchanged |
| Mounts.MountService.DeleteFile | server/Services/MountService.cs:65-79 | the cached listing loses every entry with that name even when the call then throws; only a `Bucket` mount has the file deleted, and no other file is touched |
| Mounts.MountService.ClearCache | server/Services/MountService.cs:81-84 | forgets that mount's listing only, so the next `GetFileEntries` rescans |
| Mounts.MountService.ConvertBucketMountToOpen | server/Services/MountService.cs:86-92 | throws unless the mount is a `Bucket`; otherwise saves it `OpenInUse` |
| Mounts.MountService.LaunchDownload | server/Services/MountService.cs:195-204 | the mount becomes `Downloading`, the ROM points at it with its counter raised by one, both are saved, and the download is queued with `DownloadFinished` |
| Mounts.MountService.BeginMount | server/Services/MountService.cs:94-115 | an unknown ROM: nothing; a linked ROM: its mount goes through MountStep and the counter stays; otherwise the store gains the new `Downloading` mount and the ROM linked to it with the counter raised by one, and that ROM and mount are queued behind the earlier downloads with DownloadFinished as the callback |
| Mounts.MountService.CreateNewMountForRom | server/Services/MountService.cs:163-167 | the store becomes exactly the old one plus the new `Downloading` mount and the re-linked ROM with its counter raised; the download of that ROM and mount is appended to the queue with DownloadFinished as the callback |
| Mounts.MountService.OpenExistingMount | server/Services/MountService.cs:169-193 | applies MountStep: throws on `Unknown`, saves a closed mount as open, leaves the rest |
| Mounts.MountService.EndMount | server/Services/MountService.cs:117-146 | with no linked mount nothing changes; otherwise UnmountStep is applied; the ROM is never changed |
| Users.UserService.constructor | server/Services/UserService.cs:16-20 | keeps the allow-list and the mount service |
| Users.UserService.IsValid | server/Services/UserService.cs:22-25 | a name is valid iff it is on the allow-list, compared exactly |
| Users.UserService.GetUser | server/Services/UserService.cs:27-42 | never null; a stored user is returned with nothing changed; a missing one is created `Open` with id and name = the user name and a new `Bucket` mount, and saved |
| Users.UserService.SaveUser | server/Services/UserService.cs:44-47 | an upsert of the user record; no other record changes |
| Burn.SumSizesAppend | server/Services/BurnService.cs:85 | the total size of two listings is the sum of their totals |
| Burn.SumSizesPermutation | server/Services/BurnService.cs:85 | the total size does not depend on the listing order |
| Burn.SumSizes | server/Services/BurnService.cs:85 | the exact total of the byte sizes: no single file is larger than it |
| Burn.ModAdd | server/Services/BurnService.cs:85 | adding to a wrapped `ulong` total gives the wrapped exact total, so wrapping at every step equals wrapping once |
| Burn.BucketAccepts | server/Services/BurnService.cs:82-86 | the size test as a definition: the listing is non-empty and its wrapped total lies above 327680 and within the volume size |
| Burn.TotalByteSize | server/Services/BurnService.cs:84-85 | the `ulong` sum wraps modulo 2^64, and is exact when the true total fits |
| Burn.BucketAcceptsOrderFree | server/Services/BurnService.cs:82-86 | whether a bucket passes the size test does not depend on the listing order |
| Burn.BucketCheck | server/Services/BurnService.cs:75-87 | a missing mount throws; a mount that is not a `Bucket` answers false; for a `Bucket` the answer is the listing's error, or true iff the listing is non-empty with a size > 327680 and ≤ the volume size |
| Burn.RomSaveEffects | server/Services/BurnService.cs:171-186 | saving the ROM and the user changes no mount record, no other ROM and no other user |
| Burn.RecordStagesEffects | server/Services/BurnService.cs:165-198 | after the post-purchase saves the user is `Done` on the new bucket with the new ROM id, the new bucket and the ROM are stored, no mount record is lost, no mount but the burned bucket and the new one changes, and no other ROM or user changes |
| Burn.BurnedRom | server/Services/BurnService.cs:173-181 | the ROM SaveNewRom builds, as a definition: keyed by the purchase cid, with the burn info, the bucket listing, the purchase's end time, counter 1 and the bucket as its mount |
| Burn.PutUserKeepsOthers | server/Services/BurnService.cs:226-230 | saving a user changes no ROM, no mount and no other user |
| Burn.BurnService.constructor | server/Services/BurnService.cs:20-25 | no task is running |
| Burn.BurnService.BucketIsValid | server/Services/BurnService.cs:75-87 | answers BucketCheck on the listing the mount service gives, and leaves the cache holding a freshly scanned bucket listing (CacheAfterCheck) |
| Burn.CheckedListingIsKept | server/Services/BurnService.cs:81 | once a bucket is checked its listing stays cached, so every later listing through the cache, the one `SaveNewRom` takes included, is the checked one whatever the disk then holds |
| Burn.BurnService.StartBurn | server/Services/BurnService.cs:27-46 | a missing user throws; only an `Open` user whose bucket passes is saved `Starting` with no new ROM id and gets a worker; otherwise nothing is saved or spawned; for an `Open` user the cache is what BucketIsValid leaves, for any other it is unchanged |
| Burn.BurnService.ExtendRom | server/Services/BurnService.cs:48-56 | only a known ROM whose storage ends within [now, now + 48 h] gets an extension task |
| Burn.BurnService.RunExtendTask | server/Services/BurnService.cs:56-72 | waits for a node, saves the ROM with the purchase's end time, and always releases the node |
| Burn.BurnService.ReturnUserToOpenState | server/Services/BurnService.cs:112-127 | the zip and the info file are gone and the user is saved `Open` with no new ROM id; a missing mount throws |
| Burn.RecoveredDisk | server/Services/BurnService.cs:117-121 | the recovery's deletions leave the disk as if neither the info file nor the zip had been written by the failed run |
| Burn.BurnService.RunWorkerTask | server/Services/BurnService.cs:89-110 | the node is released in every case; a burn ends `Done` with a new bucket, the old bucket `OpenInUse`, the ROM saved from the purchase, the burn info and the bucket's listing (through the cache, after the info write), and the disk exactly the old one with the info file written, the zip added and the new bucket's directory created; or `Open` with the disk exactly the old one less the zip and the info entry; only a missing bucket mount faults; no mount record is lost; no mount but the bucket and the new one, no ROM but the purchased one and no user but the burning one ever changes |
| Burn.WorkerRun.constructor | server/Services/BurnService.cs:141-150 | the run holds the user, the burn info, the node and the user's bucket mount, with no upload or purchase yet |
| Burn.WorkerRun.WriteInfoFileToBucketMount | server/Services/BurnService.cs:215-224 | the info file is written into the bucket directory; a missing directory throws |
| Burn.WorkerRun.SetState | server/Services/BurnService.cs:226-230 | the user's burn state changes and the user is saved |
| Burn.WorkerRun.WriteZipFile | server/Services/BurnService.cs:210-213 | the zip is created at the mount's zip path; an existing zip or a missing directory throws |
| Burn.WorkerRun.UploadZipFile | server/Services/BurnService.cs:205-208 | the upload's content id is kept, or the call throws |
| Burn.WorkerRun.PurchaseStorage | server/Services/BurnService.cs:200-203 | the purchase is kept, or the call throws |
| Burn.WorkerRun.SaveNewRom | server/Services/BurnService.cs:171-186 | the ROM is keyed by the purchase id, holds the burn info and the bucket listing, expires with the purchase, has counter 1 and mounts the bucket; the user records the new ROM id |
| Burn.WorkerRun.CreateNewUserBucketMount | server/Services/BurnService.cs:188-198 | the burned bucket is saved `OpenInUse`, a new `Bucket` mount is created, and the user is saved `Open` on it |
| Burn.WorkerRun.RunUploadStages | server/Services/BurnService.cs:155-164 | `Compressing`, `Uploading` and `Purchasing` are saved in order before each external step; an existing zip throws with the user saved `Compressing`, a failed upload throws with `Uploading`, a failed purchase throws with `Purchasing`, and when all succeed the stages complete; with a bucket directory the disk becomes exactly the old one with the info file written and the zip added, and no other directory changes |
| Burn.WorkerRun.RunRecordStages | server/Services/BurnService.cs:165-168 | after the purchase: the ROM is saved from the cached or scanned listing, the user gets a new bucket, and the user is saved `Done`; on success the disk gains exactly the new bucket's directory, and a throw leaves the disk unchanged |
| Burn.WorkerRun.RecordBurn | server/Services/BurnService.cs:165-168 | the same stages stated as their effect on the records: no mount is lost, no mount but the bucket and the new one changes, no ROM but the purchased one and no user but the burning one changes, and the user ends `Done`; the ROM is BurnedRom over the listing through the cache; the disk gains exactly the new bucket's directory, and a throw leaves the disk and every mount unchanged |
| Burn.WorkerRun.RunWorker | server/Services/BurnService.cs:152-169 | the stages run in order; a missing bucket directory throws with nothing changed; a failed step throws with the user saved in the state of that stage (`Compressing` for an existing zip, `Uploading` for a failed upload, `Purchasing` for a failed purchase), and a failure after the purchase leaves the user `Purchasing`; a throw leaves the disk with the info file and the zip written and every mount unchanged; success leaves the user `Done` on a new bucket, the ROM saved over the bucket's listing through the cache after the info write, and the new bucket's directory created; no mount is lost, and no mount but the bucket and the new one, no ROM but the purchased one and no user but the burning one changes |
| Buckets.ExpiryOf | server/Services/BucketService.cs:108-112 | an empty bucket does not expire (0); otherwise the mount expiry in Unix milliseconds |
| Buckets.WriteablePath | server/Services/BucketService.cs:61-75 | "" iff the combined path clashes, case-insensitively, with the info file or the zip (or is empty); otherwise the combined path |
| Buckets.InfoFileRefused | server/Services/BucketService.cs:72 | no spelling of the info file name, in any case, is writeable |
| Buckets.PlainNameAccepted | server/Services/BucketService.cs:61-75 | a plain name other than the info file is written inside the bucket directory |
| Buckets.Cleared | server/Services/BucketService.cs:94-104 | `Done` becomes `Open` with no new ROM id; any other state is unchanged |
| Buckets.BurnAcknowledged | server/Services/BucketService.cs:90-106 | acknowledging a finished burn returns the user to an `Open` empty bucket, and acknowledging twice changes nothing more |
| Buckets.BucketService.constructor | server/Services/BucketService.cs:21-26 | keeps the services and the volume size |
| Buckets.BucketService.GetBucket | server/Services/BucketService.cs:28-45 | an unknown name gets the empty bucket; otherwise the listing, the volume size, the user's state and new ROM id, and ExpiryOf |
| Buckets.BucketService.DeleteFile | server/Services/BucketService.cs:47-52 | an unknown name changes nothing; otherwise `MountService.DeleteFile` on the user's bucket |
| Buckets.BucketService.IsBucketOpen | server/Services/BucketService.cs:54-59 | false for an unknown name; otherwise true iff the user's state is `Open` |
| Buckets.BucketService.GetWriteableBucketFilePath | server/Services/BucketService.cs:61-75 | "" for an unknown name; otherwise WriteablePath on the user's bucket |
| Buckets.BucketService.Refresh | server/Services/BucketService.cs:77-82 | an unknown name changes nothing; otherwise the bucket's cached listing is forgotten |
| Buckets.BucketService.StartBurn | server/Services/BucketService.cs:84-88 | an unknown name changes nothing; otherwise the burn service's StartBurn decides |
| Buckets.BucketService.ClearNewRomCid | server/Services/BucketService.cs:90-106 | an unknown name changes nothing; otherwise a `Done` user is saved Cleared and any other user is left alone |
| Cleanup.IsExpiredOpen | server/Services/CleanupService.cs:71-74 | the condition of CloseOldOpenMount: the mount is `OpenInUse` and its expiry is before now (a definition, used by Examine's contract) |
| Cleanup.IsStale | server/Services/CleanupService.cs:84-87 | the condition of MarkForCleanupOldClosedMount: the mount is `ClosedNotUsed` and more than three hours past its expiry (a definition) |
| Cleanup.IsStuck | server/Services/CleanupService.cs:95-98 | the condition of CloseStuckDownloadingMount: the mount is `Downloading` and no task is downloading it (a definition) |
| Cleanup.Examine | server/Services/CleanupService.cs:47-52 | the three rules applied in order: only the state changes, only from `OpenInUse` or `Downloading` to `ClosedNotUsed`; the mount is saved iff it changed iff it was expired-open or stuck; it is queued iff it was stale or is an open mount more than three hours past expiry, and a queued mount is `ClosedNotUsed` |
| Cleanup.LongExpiredOpenIsClosedAndQueued | server/Services/CleanupService.cs:47-52 | an open mount expired more than three hours ago is closed and queued in the same pass |
| Cleanup.StuckDownloadClosedNotQueued | server/Services/CleanupService.cs:49-51 | a stuck download is closed but not queued in the same pass |
| Cleanup.ExamineLeavesAlone | server/Services/CleanupService.cs:71-98 | `Bucket`, `Unknown` and running downloads are never changed or queued |
| Cleanup.RemoveMounts | server/Services/CleanupService.cs:56-59 | every queued mount record is gone and no other record changes |
| Cleanup.WithoutDirs | server/Services/CleanupService.cs:64 | exactly the removed directories are gone |
| Cleanup.CleanupContext.constructor | server/Services/CleanupService.cs:34-41 | nothing is queued |
| Cleanup.CleanupContext.CloseOldOpenMount | server/Services/CleanupService.cs:69-80 | an open mount past expiry is saved `ClosedNotUsed`; any other mount is left alone |
| Cleanup.CleanupContext.MarkForCleanupOldClosedMount | server/Services/CleanupService.cs:82-91 | a closed mount more than three hours past expiry is queued |
| Cleanup.CleanupContext.CloseStuckDownloadingMount | server/Services/CleanupService.cs:93-104 | a `Downloading` mount that no task is downloading is saved `ClosedNotUsed` |
| Cleanup.CleanupContext.OnEntity | server/Services/CleanupService.cs:47-52 | the three rules in order, each seeing the mount as the one before left it; only the store and the queue change |
| Cleanup.CleanupContext.DeleteQueuedRecords | server/Services/CleanupService.cs:56-59 | the first loop deletes every queued record |
| Cleanup.CleanupContext.DeleteQueuedFiles | server/Services/CleanupService.cs:61-66 | the second loop deletes every queued directory and zip that exists, and no other |
| Cleanup.CleanupContext.Finish | server/Services/CleanupService.cs:54-67 | records are deleted before directories and zips; afterwards none of the three remains for a queued mount |
| Cleanup.FinishLeavesNoTrace | server/Services/CleanupService.cs:54-67 | a queued mount has no record, directory or zip after `Finish` |
| Popular.MinCounter | server/Services/PopularContentService.cs:143 | `Min` is a lower bound of the counters and is attained |
| Popular.FirstWithCounter | server/Services/PopularContentService.cs:101 | `First` finds the first ROM with that counter |
| Popular.RemoveFirstWithCounter | server/Services/PopularContentService.cs:101 | `Remove` takes out exactly that one ROM |
| Popular.InsertByCountPermutes | server/Services/PopularContentService.cs:133-134 | an insertion adds the tag and loses nothing |
| Popular.InsertByCountSorted | server/Services/PopularContentService.cs:133-134 | an insertion keeps the tags sorted by count, highest first |
| Popular.SortByCount | server/Services/PopularContentService.cs:131-138 | `OrderByDescending` returns a permutation of the tags |
| Popular.SortByCountSorted | server/Services/PopularContentService.cs:131-138 | and that permutation is sorted by count, highest first |
| Popular.PopContent | server/Services/PopularContentService.cs:108-113 | the result has id `popcontentid`, the cids of `selected` in list order, and the tags |
| Popular.SelectWhileRoom | server/Services/PopularContentService.cs:93-97 | the first seven ROMs are accepted |
| Popular.SelectReject | server/Services/PopularContentService.cs:99-103 | with seven selected, a ROM whose counter is not above the lowest leaves the selection unchanged |
| Popular.ReplaceRaisesLowest | server/Services/PopularContentService.cs:99-103 | replacing a lowest ROM by a higher one never lowers the minimum |
| Popular.SelectReplace | server/Services/PopularContentService.cs:99-103 | a higher ROM replaces the first one with the lowest counter; the size stays seven; every ROM dropped has a counter at most the new lowest |
| Popular.PopularUpdateContext.constructor | server/Services/PopularContentService.cs:81-84 | nothing selected, nothing counted |
| Popular.PopularUpdateContext.AddOrAdd | server/Services/PopularContentService.cs:125-129 | the count of the tag goes up by one (first seen: 1), and the tag joins the order on its first sight |
| Popular.PopularUpdateContext.ProcessTags | server/Services/PopularContentService.cs:116-123 | after a ROM, each count equals the tag's occurrences over all ROMs processed, selected or not |
| Popular.PopularUpdateContext.Add | server/Services/PopularContentService.cs:140-144 | the ROM is appended and `lowest` is the minimum counter of the selection |
| Popular.PopularUpdateContext.Select | server/Services/PopularContentService.cs:93-103 | the selection rule keeps its invariant: at most seven, the first seven accepted, a replacement only for a strictly higher counter |
| Popular.PopularUpdateContext.OnEntity | server/Services/PopularContentService.cs:90-104 | tags counted and the selection rule applied; at most seven selected |
| Popular.PopularUpdateContext.GetTags | server/Services/PopularContentService.cs:131-138 | exactly seven tags, or every tag when fewer were seen; no tag twice; all seen, sorted by count, and no tag left out has a higher count than one taken |
| Popular.NoRepeatsMultiplicity | server/Services/PopularContentService.cs:131-138 | a tag list without repeats holds each tag at most once |
| Popular.PermutationNoRepeats | server/Services/PopularContentService.cs:131-138 | reordering a tag list without repeats introduces none |
| Popular.SortByCountNoRepeats | server/Services/PopularContentService.cs:131-138 | sorting the tags by count keeps their number, and no prefix of the result repeats a tag |
| Popular.PopularUpdateContext.Finish | server/Services/PopularContentService.cs:106-114 | the result is PopContent of the selection and GetTags |
| Popular.SelectedAreTop | server/Services/PopularContentService.cs:90-104 | every selected ROM was processed, and no dropped ROM has a higher counter than a selected one |
| Search.SplitLower | server/Services/SearchService.cs:120-128 | splitting lower-cased text gives the lower-cased tokens |
| Search.LowerTokens | server/Services/SearchService.cs:120-128 | tokens of lower-cased text are tokens with no upper-case letter |
| Search.AddToken | server/Services/SearchService.cs:69-80 | adding appends the cid to that token's matches and leaves every other token's |
| Search.AddAll | server/Services/SearchService.cs:114-117 | filing the cid under a token list appends one copy of the cid to each token's list per occurrence of the token, and changes nothing else |
| Search.AddAllIndexes | server/Services/SearchService.cs:114-117 | every indexed token then matches the cid; other tokens are unchanged |
| Search.SearchIndex.constructor | server/Services/SearchService.cs:67 | a new index is empty |
| Search.SearchIndex.AddRomForToken | server/Services/SearchService.cs:69-80 | the index becomes AddToken of the old index |
| Search.SearchIndex.GetMatches | server/Services/SearchService.cs:82-89 | the token's list, or empty for a token never added |
| Search.GatherTokens | server/Services/SearchService.cs:120-128 | every gathered token is a well-formed token with no upper-case letter |
| Search.GatherTokensLowered | server/Services/SearchService.cs:120-128 | the gathered tokens are the lower-cased title and author tokens, then at most ten tag and ten description tokens, in that order |
| Search.SearchIndexer.constructor | server/Services/SearchService.cs:100-105 | the new index is fresh and empty |
| Search.SearchIndexer.OnEntity | server/Services/SearchService.cs:111-118 | every gathered token of the ROM gets its cid, in order |
| Search.SearchIndexer.Finish | server/Services/SearchService.cs:130-133 | hands over the index built |
| Search.QueryTokens | server/Services/SearchService.cs:40 | at most ten query tokens, each the lower-cased query token at the same position |
| Search.Collect | server/Services/SearchService.cs:44-45 | a cid is collected iff some query token matches it |
| Search.SearchService.constructor | server/Services/SearchService.cs:15 | the index starts empty |
| Search.SearchService.Search | server/Services/SearchService.cs:29-53 | a query that is a ROM cid answers exactly that ROM; otherwise at most 30 views, each of a known ROM matched by some query token |
| Search.SearchService.OnResult | server/Services/SearchService.cs:55-62 | the whole index is replaced |
| Search.SearchFinds | server/Services/SearchService.cs:29-53 | when the matches fit the cap, every known ROM matched by a query token is found |
| Search.QueryMeetsTitle | server/Services/SearchService.cs:40 | a query word equal, ignoring case, to a title word is among the ROM's gathered tokens |
| Search.WordGathered | server/Services/SearchService.cs:123-124 | every title and author word is gathered, lower-cased |
| Search.IndexedRomFound | server/Services/SearchService.cs:111-128 | after indexing, a ROM matches every lower-cased word of its title and author |
| Workers.Row | server/Services/WorkerService.cs:133 | a `foreach` over the handlers makes one call on each, in order |
| Workers.CallsOnOfferAll | server/Services/WorkerService.cs:135-138 | each handler is offered every record passed, in order |
| Workers.RunTraceHandlerView | server/Services/WorkerService.cs:129-141 | each handler sees `Initialize`, then every record in order, then `Finish`, once each |
| Workers.RunTracePhasesOrdered | server/Services/WorkerService.cs:129-141 | all handlers are made, then all initialized, then records offered, then all finished |
| Workers.Job.constructor | server/Services/WorkerService.cs:119-122 | a new job has no handler creators |
| Workers.Job.AddHandlerCreator | server/Services/WorkerService.cs:124-127 | the creator is appended |
| Workers.Job.Run | server/Services/WorkerService.cs:129-141 | the calls made are RunTrace over the records passed; a record is passed iff it is the loadable record of its id, and no id is passed twice |
| Workers.LoadableIsLookup | server/Services/DatabaseService.cs:117-133 | a record is loadable iff the table's `Get` answers it, and then it is the record `Get` answers |
| Workers.CallAll | server/Services/WorkerService.cs:133 | the loop makes Row |
| Workers.OfferEach | server/Services/WorkerService.cs:135-138 | the Iterate callback loop makes the offers in order |
| Workers.WorkerService.constructor | server/Services/WorkerService.cs:27-31 | no jobs |
| Workers.WorkerService.Attach | server/Services/WorkerService.cs:39-57 | the first attach of a type makes its job; later ones append to that job's creators; other jobs are unchanged |
| Workers.WorkerService.UpdateAll | server/Services/WorkerService.cs:94-102 | every job runs exactly once, in attach order, each over exactly the loadable records of its type, each record once |
| Workers.WorkerService.Worker | server/Services/WorkerService.cs:81-92 | one pass at once, then one per elapsed period; each pass runs every job once, in attach order, over exactly the loadable records of its type |

## Left out

- Concurrency. Locks, `Task.Run` and the cancellable wait are not modelled. Each operation is a sequential method, and a spawned task is a queue entry that a later method runs. So interleavings between two tasks are not covered.
- `WorkerService.LateStart` and `Stop`. The cancellation token is not modelled. `Worker` takes the number of elapsed 30-minute periods as a parameter.
- `Workers.Job.Run`: the handlers are not called. The closed set of handlers is recorded as the trace of calls, by handler index. The three handlers are modelled on their own classes in their own modules.
- JSON serialization, zip archiving and extraction, and the remote storage client (`ArchivistClient`) are not modelled. Their results are parameters. A file write or `Directory.Delete` failing for an IO reason is not modelled, except a failed `Save` write.
- Reference aliasing is not modelled. The database hands out cached objects that callers change before saving; the model keeps records as values and saves them explicitly.
- `Platform.DeleteEntry`, `Mounts.MountService.DeleteFile`: a file name that holds '/' or is rooted reaches outside the bucket through `Path.Combine`. The model deletes nothing for such a name.
- `Directory.Delete(path, true)` removes the whole tree. The model removes the mount directory's single listing.
- Guid collisions are not modelled. A new id is any lower-case guid text, and a clash with an existing record is not excluded.
- `Utils.ToLowerChar` maps ASCII letters only. Culture-invariant case mapping of other letters is not modelled.
- `StorageService` pricing and durability options, the HTTP controllers, the web client, `EnvConfig` and `Program` are not part of this model.
- `Popular.PopularUpdateContext.AddOrAdd`: a tag count is a `nat`, so the `int` overflow of `tagCounts[tag]++` is not modelled.
- `Popular.PopularUpdateContext.GetTags`: the tie order (the stable order among equal counts) is computed but not stated in the contract.
- `Cleanup.CleanupContext.OnEntity`: the clock is read once per mount. In the source, each rule reads `DateTime.UtcNow` on its own.
- `Buckets.BucketService.StartBurn` states less than the burn service's own contract. It says the tasks are unchanged or get one worker task. The full case split is in `Burn.BurnService.StartBurn`.
- `Search.SearchIndex.AddRomForToken`: the branch for a dictionary entry holding a null list cannot arise here, because every list is created non-null.
- `Search.SearchService.Search` does not state that the matches come in token order. It states the cap, that each result comes from some query token, and (in `SearchFinds`) that nothing is lost below the cap.
- `Burn.TotalByteSize` models the unchecked `ulong` wrap. No bound on real bucket sizes is assumed.
- Some methods exist only to split a large method for the proof: `Burn.WorkerRun.RunUploadStages`, `RunRecordStages`, `RecordBurn`, `Popular.PopularUpdateContext.Select`, `Workers.CallAll` and `OfferEach`. Each stands for a contiguous part of the method it was cut from.
- `PopularContentService.Start`, `OnResult`, `GetOrCreateDbEntry`, `UpdateInfo` and `GetPopularInfo` are not modelled. They are wiring around the handler: `OnResult` saves the `DbPopContent` the handler's `Finish` returns and keeps it; the others load that record and map its cids with `MapperService.Map`.
- The model follows the code on one point: `EndMount` on a `Bucket` mount is a silent no-op. Only `Unknown` throws.
