/**
 * server/Services/BurnService.cs: turning a user's bucket into a ROM.
 *
 * StartBurn checks the bucket and spawns a worker task; ExtendRom spawns a
 * storage-extension task. The spawned tasks are `BurnService.tasks`; running
 * one is `RunWorkerTask` or `RunExtendTask`, which take and release a storage
 * node as the C# tasks do. A worker (`WorkerRun`) writes the info file, zips
 * the bucket, uploads the zip, buys storage, saves the ROM and gives the user
 * a new bucket, saving the user's burn state after each stage. If any stage
 * throws, the user is returned to `Open`.
 *
 * The clock, the storage node's answers and the fresh mount id are
 * parameters (`WorkerOracle`, `purchased`).
 */
module Burn {
  import opened Outcomes
  import opened Utils
  import opened Entities
  import opened Platform
  import opened Mounts

  /** `minBurnSize`: 5 × 64 KiB. */
  const MinBurnSize: nat := 5 * 64 * 1024
  /** ExtendRom accepts a ROM whose storage ends within the next 48 hours. */
  const ExtendWindow: nat := 48 * TicksPerHour
  const UInt64Modulus: nat := 0x1_0000_0000_0000_0000

  /** BurnInfo (server/Services/BucketService.cs). */
  datatype BurnInfo = BurnInfo(fields: RomInfo, durabilityOptionId: UInt64)

  /** A spawned `Task.Run` body and what it captured. */
  datatype BurnTask =
    | WorkerTask(user: DbUser, burnInfo: BurnInfo)
    | ExtendTask(rom: DbRom, durabilityOptionId: UInt64)

  /** How a spawned task ended: still waiting for a node, done, failed and
      recovered in its `catch`, or failed with an exception nobody caught. */
  datatype TaskEnd = Blocked | Succeeded | Recovered | Faulted(error: Error)

  /** Everything a worker learns from outside: the clock, the length of the
      info file it writes, the node's answers and the next mount id. */
  datatype WorkerOracle = WorkerOracle(
    now: Ticks,
    infoSize: UInt64,
    upload: Option<string>,
    purchase: Option<PurchaseResponse>,
    newId: Guid)

  // ---------------------------------------------------------------------
  // Bucket size
  // ---------------------------------------------------------------------

  /** The exact total size of the files: no file is larger than the total. */
  function SumSizes(files: seq<FileEntry>): (r: nat)
    ensures forall i :: 0 <= i < |files| ==> files[i].byteSize <= r
  {
    if files == [] then 0 else files[0].byteSize + SumSizes(files[1..])
  }

  lemma {:induction false} SumSizesAppend(a: seq<FileEntry>, b: seq<FileEntry>)
    ensures SumSizes(a + b) == SumSizes(a) + SumSizes(b)
  {
    if a == [] {
      assert a + b == b;
    } else {
      assert (a + b)[1..] == a[1..] + b;
      SumSizesAppend(a[1..], b);
    }
  }

  /** The total does not depend on the order the directory lists its files. */
  lemma {:induction false} SumSizesPermutation(a: seq<FileEntry>, b: seq<FileEntry>)
    requires multiset(a) == multiset(b)
    ensures SumSizes(a) == SumSizes(b)
    decreases |a|
  {
    if a == [] {
      assert |b| == |multiset(b)| == 0;
    } else {
      var x := a[0];
      assert a == [x] + a[1..];
      assert x in multiset(b);
      var j :| 0 <= j < |b| && b[j] == x;
      var rest := b[..j] + b[j + 1..];
      assert b == b[..j] + ([x] + b[j + 1..]);
      assert multiset(b) == multiset(b[..j]) + multiset{x} + multiset(b[j + 1..]);
      assert multiset(a) == multiset{x} + multiset(a[1..]);
      assert multiset(rest) == multiset(b[..j]) + multiset(b[j + 1..]);
      calc {
        multiset(a[1..]);
        multiset(a) - multiset{x};
        multiset(b) - multiset{x};
        multiset(rest);
      }
      SumSizesPermutation(a[1..], rest);
      SumSizesAppend(b[..j], [x] + b[j + 1..]);
      SumSizesAppend([x], b[j + 1..]);
      SumSizesAppend(b[..j], b[j + 1..]);
    }
  }

  lemma ModAdd(a: nat, b: nat)
    ensures (a % UInt64Modulus + b) % UInt64Modulus == (a + b) % UInt64Modulus
  {
    var q := a / UInt64Modulus;
    assert a == q * UInt64Modulus + a % UInt64Modulus;
    assert a + b == q * UInt64Modulus + (a % UInt64Modulus + b);
  }

  /** The `foreach` summing `ByteSize` into a `ulong`, which wraps silently. */
  method TotalByteSize(files: seq<FileEntry>) returns (used: UInt64)
    ensures used == SumSizes(files) % UInt64Modulus
    ensures SumSizes(files) < UInt64Modulus ==> used == SumSizes(files)
  {
    used := 0;
    var i := 0;
    while i < |files|
      invariant 0 <= i <= |files|
      invariant used == SumSizes(files[..i]) % UInt64Modulus
    {
      assert files[..i + 1] == files[..i] + [files[i]];
      SumSizesAppend(files[..i], [files[i]]);
      ModAdd(SumSizes(files[..i]), files[i].byteSize);
      used := (used + files[i].byteSize) % UInt64Modulus;
      i := i + 1;
    }
    assert files[..|files|] == files;
  }

  /** The size test of BucketIsValid on a listing: not empty, and the wrapped
      total lies above the minimum and within the volume size. */
  predicate BucketAccepts(files: seq<FileEntry>, volumeSize: UInt64) {
    |files| > 0 && MinBurnSize < SumSizes(files) % UInt64Modulus <= volumeSize
  }

  /** Whether a bucket is accepted does not depend on the listing order. */
  lemma BucketAcceptsOrderFree(a: seq<FileEntry>, b: seq<FileEntry>, volumeSize: UInt64)
    requires multiset(a) == multiset(b)
    ensures BucketAccepts(a, volumeSize) <==> BucketAccepts(b, volumeSize)
  {
    SumSizesPermutation(a, b);
    assert |a| == |multiset(a)| == |multiset(b)| == |b|;
  }

  /** The listing cache BucketIsValid leaves behind, given the cache before
      (`cached`) and what an insertion starts from (`cleared`): only a bucket
      listed by a fresh scan is added. */
  function CacheAfterCheck(cached: map<string, seq<FileEntry>>, cleared: map<string, seq<FileEntry>>, h: Host, mountId: string): map<string, seq<FileEntry>> {
    if FindMount(h.db, mountId).Some? && FindMount(h.db, mountId).value.state == Bucket
       && mountId !in cached && ScanEntries(h, mountId).Ok?
    then cleared[mountId := ScanEntries(h, mountId).value]
    else cached
  }

  /** Once a bucket has been checked, its listing stays cached, so every later
      listing through the cache answers the checked one, whatever the disk
      holds by then: the ROM a burn saves lists the files as they were checked,
      not the info file the worker writes afterwards. */
  lemma CheckedListingIsKept(cached: map<string, seq<FileEntry>>, cleared: map<string, seq<FileEntry>>, h: Host, mountId: string, later: Host)
    requires FindMount(h.db, mountId).Some? && FindMount(h.db, mountId).value.state == Bucket
    requires Listing(cached, h, mountId).Ok?
    ensures mountId in CacheAfterCheck(cached, cleared, h, mountId)
    ensures Listing(CacheAfterCheck(cached, cleared, h, mountId), later, mountId) == Listing(cached, h, mountId)
  {
  }

  /** What BucketIsValid answers, given the listing cache: the exception of
      `mountService.Get` or `GetFileEntries`, `false` for a mount that is not a
      bucket, else the size test. */
  function BucketCheck(cached: map<string, seq<FileEntry>>, h: Host, user: DbUser, volumeSize: UInt64): (r: Result<bool>)
    ensures FindMount(h.db, user.bucketMountId).None? ==> r == Err(MountNotFound)
    ensures r == Ok(true) ==>
      && FindMount(h.db, user.bucketMountId).Some?
      && FindMount(h.db, user.bucketMountId).value.state == Bucket
      && Listing(cached, h, user.bucketMountId).Ok?
      && BucketAccepts(Listing(cached, h, user.bucketMountId).value, volumeSize)
    ensures FindMount(h.db, user.bucketMountId).Some? && FindMount(h.db, user.bucketMountId).value.state != Bucket ==>
      r == Ok(false)
    ensures FindMount(h.db, user.bucketMountId).Some? && FindMount(h.db, user.bucketMountId).value.state == Bucket ==>
      r == match Listing(cached, h, user.bucketMountId)
           case Err(e) => Err(e)
           case Ok(files) => Ok(BucketAccepts(files, volumeSize))
  {
    match GetMount(h.db, user.bucketMountId)
    case Err(e) => Err(e)
    case Ok(m) =>
      if m.state != Bucket then Ok(false)
      else
        match Listing(cached, h, user.bucketMountId)
        case Err(e) => Err(e)
        case Ok(files) => Ok(BucketAccepts(files, volumeSize))
  }

  /** ExtendRom's window: the storage has not ended and ends within 48 hours. */
  predicate InExtendWindow(expiry: Ticks, now: Ticks) {
    now <= expiry <= now + ExtendWindow
  }

  function RemoveAt<T>(s: seq<T>, i: nat): seq<T>
    requires i < |s|
  {
    s[..i] + s[i + 1..]
  }

  /** No mount record disappears. */
  ghost predicate MountsKept(a: Store, b: Store) {
    forall id :: FindMount(a, id).Some? ==> FindMount(b, id).Some?
  }

  /** The ROM SaveNewRom saves: keyed by the purchase id, holding the burn
      info and the bucket listing, expiring with the purchase, mounted once and
      mounted on the bucket. */
  function BurnedRom(purchase: PurchaseResponse, info: RomInfo, files: seq<FileEntry>, bucketId: string): DbRom {
    DbRom(purchase.purchaseCid, info, files, purchase.finishUtc, 1, bucketId)
  }

  /** Recovering from a failed burn removes the zip and the info file, so the
      disk ends as if neither had been written: whatever the worker wrote
      before it failed, the recovery gives the same disk. */
  lemma RecoveredDisk(before: Disk, after: Disk, m: DbMount, infoSize: UInt64)
    requires m.path in before.dirs ==>
      after == WriteEntry(before, m.path, FileEntry(InfoFileName, infoSize)).(files := before.files + {GetZipFilePath(m)})
    requires m.path !in before.dirs ==> after == before
    ensures var zip := GetZipFilePath(m);
      DeleteEntry(after.(files := after.files - {zip}), m.path, InfoFileName)
      == DeleteEntry(before.(files := before.files - {zip}), m.path, InfoFileName)
  {
    var zip := GetZipFilePath(m);
    if m.path in before.dirs {
      assert (before.files + {zip}) - {zip} == before.files - {zip};
      DeleteAfterWrite(before, m.path, FileEntry(InfoFileName, infoSize), before.files - {zip});
    }
  }

  /** Every ROM record but the one with id `cid` is as it was. */
  ghost predicate RomsKeptBut(a: Store, b: Store, cid: string) {
    forall id :: id != cid ==> FindRom(b, id) == FindRom(a, id)
  }

  /** Every user record but the one with id `uid` is as it was. */
  ghost predicate UsersKeptBut(a: Store, b: Store, uid: string) {
    forall id :: id != uid ==> FindUser(b, id) == FindUser(a, id)
  }

  /** Every mount record but those with ids `x` and `y` is as it was. */
  ghost predicate MountsKeptBut(a: Store, b: Store, x: string, y: string) {
    forall id :: id != x && id != y ==> FindMount(b, id) == FindMount(a, id)
  }

  /** Saving a user changes no ROM, no mount and no other user. */
  lemma PutUserKeepsOthers(db: Store, u: DbUser)
    ensures forall id :: FindRom(PutUser(db, u), id) == FindRom(db, id)
    ensures forall id :: FindMount(PutUser(db, u), id) == FindMount(db, id)
    ensures UsersKeptBut(db, PutUser(db, u), u.id)
  {
    forall id ensures FindRom(PutUser(db, u), id) == FindRom(db, id) {
      KindsIndependent(db, UserRecord(u), RomKind, id);
    }
    forall id ensures FindMount(PutUser(db, u), id) == FindMount(db, id) {
      KindsIndependent(db, UserRecord(u), MountKind, id);
    }
  }

  /** SaveNewRom's two saves change no mount record, no other ROM, and store
      the user. */
  lemma RomSaveEffects(db: Store, rom: DbRom, u: DbUser)
    ensures var r := PutUser(PutRom(db, rom), u);
      && FindUser(r, u.id) == Some(u)
      && (forall id :: FindMount(r, id) == FindMount(db, id))
      && MountsKept(db, r)
      && RomsKeptBut(db, r, rom.id)
      && UsersKeptBut(db, r, u.id)
  {
  }

  /** The store after the stages that follow the purchase: SaveNewRom saves
      the ROM and the user with its new ROM id, CreateNewUserBucketMount saves
      the burned bucket, the new bucket and the `Open` user, then the user is
      saved `Done`. */
  function AfterRecordStages(db: Store, rom: DbRom, u: DbUser, burned: DbMount, newBucket: DbMount): Store {
    var u1 := u.(bucketNewRomCid := rom.id);
    var u2 := u1.(bucketMountId := newBucket.id, bucketBurnState := Open);
    PutUser(PutUser(PutMount(PutMount(PutUser(PutRom(db, rom), u1), burned), newBucket), u2), u2.(bucketBurnState := Done))
  }

  /** After those saves the `Done` user, the new bucket and the ROM are stored,
      the burned bucket too unless the new one took its id, and every mount
      record survives. */
  lemma RecordStagesEffects(db: Store, rom: DbRom, u: DbUser, burned: DbMount, newBucket: DbMount)
    ensures var r := AfterRecordStages(db, rom, u, burned, newBucket);
      && FindUser(r, u.id) == Some(u.(bucketNewRomCid := rom.id, bucketMountId := newBucket.id, bucketBurnState := Done))
      && FindMount(r, newBucket.id) == Some(newBucket)
      && (newBucket.id != burned.id ==> FindMount(r, burned.id) == Some(burned))
      && FindRom(r, rom.id) == Some(rom)
      && MountsKept(db, r)
      && RomsKeptBut(db, r, rom.id)
      && UsersKeptBut(db, r, u.id)
      && MountsKeptBut(db, r, burned.id, newBucket.id)
  {
  }

  class BurnService {
    const mountService: MountService
    /** `EnvConfig.VolumeSize` */
    const volumeSize: UInt64
    /** Spawned tasks that have not finished. */
    var tasks: seq<BurnTask>

    ghost predicate Valid()
      reads this, mountService, mountService.cache, mountService.downloads
    {
      mountService.Valid()
    }

    constructor (mountService: MountService, volumeSize: UInt64)
      requires mountService.Valid()
      ensures Valid() && this.mountService == mountService && this.volumeSize == volumeSize && tasks == []
    {
      this.mountService := mountService;
      this.volumeSize := volumeSize;
      tasks := [];
    }

    /** BucketIsValid: the answer of BucketCheck; it lists the bucket through
        the mount service, so the listing may be a cached one. */
    method BucketIsValid(h: Host, user: DbUser) returns (r: Result<bool>)
      requires Valid()
      modifies mountService.cache
      ensures Valid()
      ensures r == BucketCheck(old(mountService.cache.items), h, user, volumeSize)
      ensures mountService.cache.items
        == CacheAfterCheck(old(mountService.cache.items), old(mountService.cache.Cleared()), h, user.bucketMountId)
    {
      var mount := GetMount(h.db, user.bucketMountId);
      if mount.Err? {
        return Err(mount.error);
      }
      if mount.value.state != Bucket {
        return Ok(false);
      }
      var files := mountService.GetFileEntries(h, user.bucketMountId);
      if files.Err? {
        return Err(files.error);
      }
      if |files.value| == 0 {
        return Ok(false);
      }
      var used := TotalByteSize(files.value);
      r := Ok(MinBurnSize < used <= volumeSize);
    }

    /** StartBurn: only an `Open` user whose bucket passes the check starts a
        burn. The user is saved as `Starting` with no new ROM id and a worker
        is spawned with that user; in every other case nothing is saved and
        nothing spawned. A missing user, mount or directory throws. */
    method StartBurn(h: Host, username: string, burnInfo: BurnInfo) returns (h': Host, out: Outcome)
      requires Valid()
      modifies this, mountService.cache
      ensures Valid()
      ensures h'.disk == h.disk && h'.pool == h.pool
      ensures FindUser(h.db, username).None? ==> h' == h && out == Threw(UserNotFound) && tasks == old(tasks)
      ensures FindUser(h.db, username).Some? && FindUser(h.db, username).value.bucketBurnState == Open ==>
        mountService.cache.items
        == CacheAfterCheck(old(mountService.cache.items), old(mountService.cache.Cleared()), h, FindUser(h.db, username).value.bucketMountId)
      ensures FindUser(h.db, username).None? || FindUser(h.db, username).value.bucketBurnState != Open ==>
        mountService.cache.items == old(mountService.cache.items)
      ensures FindUser(h.db, username).Some? ==>
        var user := FindUser(h.db, username).value;
        var check := BucketCheck(old(mountService.cache.items), h, user, volumeSize);
        && (user.bucketBurnState != Open ==> h' == h && out == Completed && tasks == old(tasks))
        && (user.bucketBurnState == Open && check.Err? ==> h' == h && out == Threw(check.error) && tasks == old(tasks))
        && (user.bucketBurnState == Open && check == Ok(false) ==> h' == h && out == Completed && tasks == old(tasks))
        && (user.bucketBurnState == Open && check == Ok(true) ==>
              var started := user.(bucketBurnState := Starting, bucketNewRomCid := "");
              && out == Completed
              && h'.db == PutUser(h.db, started)
              && tasks == old(tasks) + [WorkerTask(started, burnInfo)])
    {
      var found := FindUser(h.db, username);
      if found.None? {
        return h, Threw(UserNotFound);
      }
      var user := found.value;
      h', out := h, Completed;
      if user.bucketBurnState == Open {
        var valid := BucketIsValid(h, user);
        if valid.Err? {
          return h, Threw(valid.error);
        }
        if valid.value {
          user := user.(bucketBurnState := Starting, bucketNewRomCid := "");
          h' := h.(db := PutUser(h.db, user));
          tasks := tasks + [WorkerTask(user, burnInfo)];
        }
      }
    }

    /** ExtendRom: a known ROM whose storage ends within the next 48 hours gets
        an extension task, holding the ROM as read now; nothing is saved yet. */
    method ExtendRom(db: Store, romCid: string, durabilityOptionId: UInt64, now: Ticks)
      modifies this
      ensures FindRom(db, romCid).Some? && InExtendWindow(FindRom(db, romCid).value.storageExpireUtc, now) ==>
        tasks == old(tasks) + [ExtendTask(FindRom(db, romCid).value, durabilityOptionId)]
      ensures FindRom(db, romCid).None? || !InExtendWindow(FindRom(db, romCid).value.storageExpireUtc, now) ==>
        tasks == old(tasks)
    {
      var rom := FindRom(db, romCid);
      if rom.None? {
        return;
      }
      if rom.value.storageExpireUtc > now + ExtendWindow {
        return;
      }
      if rom.value.storageExpireUtc < now {
        return;
      }
      tasks := tasks + [ExtendTask(rom.value, durabilityOptionId)];
    }

    /** An extension task runs: it takes a node (waiting while none is free),
        buys storage, saves the captured ROM with the purchase's end time and
        always releases the node. */
    method RunExtendTask(h: Host, i: nat, purchased: Option<PurchaseResponse>) returns (h': Host, end: TaskEnd)
      requires i < |tasks| && tasks[i].ExtendTask?
      modifies this
      ensures h'.disk == h.disk
      ensures h.pool.free == [] ==> h' == h && end == Blocked && tasks == old(tasks)
      ensures h.pool.free != [] ==>
        && tasks == RemoveAt(old(tasks), i)
        && h'.pool == ReleaseNode(TakeNode(h.pool).value.1, TakeNode(h.pool).value.0)
        && multiset(h'.pool.free) == multiset(h.pool.free)
      ensures h.pool.free != [] && purchased.None? ==> h'.db == h.db && end == Faulted(ExternalFailure)
      ensures h.pool.free != [] && purchased.Some? ==>
        end == Succeeded && h'.db == PutRom(h.db, old(tasks[i]).rom.(storageExpireUtc := purchased.value.finishUtc))
    {
      var taken := TakeNode(h.pool);
      if taken.None? {
        return h, Blocked;
      }
      var rom := tasks[i].rom;
      tasks := RemoveAt(tasks, i);
      h' := h.(pool := taken.value.1);
      if purchased.None? {
        end := Faulted(ExternalFailure);
      } else {
        rom := rom.(storageExpireUtc := purchased.value.finishUtc);
        h' := h'.(db := PutRom(h'.db, rom));
        end := Succeeded;
      }
      h' := h'.(pool := ReleaseNode(h'.pool, taken.value.0));
      TakeReleaseKeepsNodes(h.pool);
    }

    /** ReturnUserToOpenState: the bucket's zip and info file are deleted and
        the user is saved `Open` with no new ROM id. A missing mount throws
        before anything changes. */
    method ReturnUserToOpenState(h: Host, user: DbUser) returns (h': Host, out: Outcome)
      ensures h'.pool == h.pool
      ensures FindMount(h.db, user.bucketMountId).None? ==> h' == h && out == Threw(MountNotFound)
      ensures FindMount(h.db, user.bucketMountId).Some? ==>
        var m := FindMount(h.db, user.bucketMountId).value;
        && out == Completed
        && h'.db == PutUser(h.db, user.(bucketBurnState := Open, bucketNewRomCid := ""))
        && h'.disk == DeleteEntry(h.disk.(files := h.disk.files - {GetZipFilePath(m)}), m.path, InfoFileName)
        && GetZipFilePath(m) !in h'.disk.files
        && !h'.disk.HasEntry(m.path, InfoFileName)
    {
      var mount := GetMount(h.db, user.bucketMountId);
      if mount.Err? {
        return h, Threw(mount.error);
      }
      var m := mount.value;
      var disk := h.disk;
      if GetZipFilePath(m) in disk.files {
        disk := disk.(files := disk.files - {GetZipFilePath(m)});
      }
      disk := DeleteEntry(disk, m.path, InfoFileName);
      var u := user.(bucketBurnState := Open, bucketNewRomCid := "");
      h' := Host(PutUser(h.db, u), disk, h.pool);
      out := Completed;
    }

    /** A worker task runs (StartWorker's `Task.Run`). It takes a node, runs
        the worker and on any exception returns the user to `Open`; the node
        is released in every case. A burn therefore ends with the user `Done`
        and the new ROM saved, or `Open` with the zip and info file gone;
        only a missing bucket mount leaves the task faulted. */
    method RunWorkerTask(h: Host, i: nat, o: WorkerOracle) returns (h': Host, end: TaskEnd)
      requires Valid() && i < |tasks| && tasks[i].WorkerTask?
      modifies this, mountService.cache
      ensures Valid()
      ensures h.pool.free == [] ==> h' == h && end == Blocked && tasks == old(tasks)
      ensures h.pool.free != [] ==>
        && end != Blocked
        && tasks == RemoveAt(old(tasks), i)
        && h'.pool == ReleaseNode(TakeNode(h.pool).value.1, TakeNode(h.pool).value.0)
      ensures forall id :: FindRom(h'.db, id) != FindRom(h.db, id) ==> o.purchase.Some? && id == o.purchase.value.purchaseCid
      ensures var u := old(tasks[i]).user;
        && UsersKeptBut(h.db, h'.db, u.id)
        && MountsKeptBut(h.db, h'.db, u.bucketMountId, o.newId)
        && MountsKept(h.db, h'.db)
      ensures var u := old(tasks[i]).user;
        end == Succeeded ==>
          && FindMount(h.db, u.bucketMountId).Some?
          && GetZipFilePath(FindMount(h.db, u.bucketMountId).value) in h'.disk.files
      ensures var u := old(tasks[i]).user;
        end == Succeeded ==>
          && o.purchase.Some?
          && FindUser(h'.db, u.id) == Some(u.(bucketMountId := o.newId, bucketBurnState := Done,
                                             bucketNewRomCid := o.purchase.value.purchaseCid))
          && FindMount(h'.db, o.newId) == Some(NewMount(o.newId, Bucket, o.now))
          && (o.newId != u.bucketMountId ==>
                FindMount(h'.db, u.bucketMountId).Some? && FindMount(h'.db, u.bucketMountId).value.state == OpenInUse)
      ensures var u := old(tasks[i]).user;
        end == Succeeded ==>
          var m := FindMount(h.db, u.bucketMountId).value;
          && m.path in h.disk.dirs
          && var written := WriteEntry(h.disk, m.path, FileEntry(InfoFileName, o.infoSize));
             && h'.disk == CreateDirectory(written.(files := h.disk.files + {GetZipFilePath(m)}), NewMount(o.newId, Bucket, o.now).path)
             && var listing := Listing(old(mountService.cache.items), h.(disk := written), u.bucketMountId);
                && listing.Ok?
                && FindRom(h'.db, o.purchase.value.purchaseCid)
                   == Some(BurnedRom(o.purchase.value, old(tasks[i]).burnInfo.fields, listing.value, u.bucketMountId))
      ensures var u := old(tasks[i]).user;
        end == Recovered ==>
          && FindUser(h'.db, u.id) == Some(u.(bucketBurnState := Open, bucketNewRomCid := ""))
          && FindMount(h'.db, u.bucketMountId).Some?
          && FindMount(h'.db, u.bucketMountId) == FindMount(h.db, u.bucketMountId)
          && var m := FindMount(h.db, u.bucketMountId).value;
             && h'.disk == DeleteEntry(h.disk.(files := h.disk.files - {GetZipFilePath(m)}), m.path, InfoFileName)
             && GetZipFilePath(m) !in h'.disk.files
             && !h'.disk.HasEntry(m.path, InfoFileName)
      ensures var u := old(tasks[i]).user;
        end.Faulted? <==> h.pool.free != [] && FindMount(h.db, u.bucketMountId).None?
      ensures end.Faulted? ==> end.error == MountNotFound && h'.db == h.db && h'.disk == h.disk
    {
      var taken := TakeNode(h.pool);
      if taken.None? {
        return h, Blocked;
      }
      var task := tasks[i];
      tasks := RemoveAt(tasks, i);
      var node := taken.value.0;
      var h1 := h.(pool := taken.value.1);
      var user := task.user;
      var mount := GetMount(h1.db, user.bucketMountId);
      if mount.Err? {
        // The WorkerRun constructor threw, and so does the recovery.
        h' := h1.(pool := ReleaseNode(h1.pool, node));
        return h', Faulted(MountNotFound);
      }
      var run := new WorkerRun(mountService, node, user, task.burnInfo, mount.value);
      var out;
      ghost var hStart := h1;
      h1, out := run.RunWorker(h1, o);
      ghost var h0 := h1;
      if out.Completed? {
        ghost var written := WriteEntry(h.disk, mount.value.path, FileEntry(InfoFileName, o.infoSize));
        ListingFrame(old(mountService.cache.items), hStart.(disk := written), h.(disk := written), user.bucketMountId);
        end := Succeeded;
      } else {
        var recovered;
        h1, recovered := ReturnUserToOpenState(h1, run.user);
        assert recovered.Completed?;
        PutUserKeepsOthers(h0.db, run.user.(bucketBurnState := Open, bucketNewRomCid := ""));
        RecoveredDisk(h.disk, h0.disk, mount.value, o.infoSize);
        end := Recovered;
      }
      h' := h1.(pool := ReleaseNode(h1.pool, node));
    }
  }

  /** One burn of one bucket (WorkerRun). `user` stands for the DbUser object
      the worker shares with its task; `bucketMount` is the mount being burned
      until the user gets a new one. */
  class WorkerRun {
    const mountService: MountService
    const node: nat
    const burnInfo: BurnInfo
    var user: DbUser
    var bucketMount: DbMount
    var uploadCid: string
    var purchase: PurchaseResponse

    /** `bucketMount` is the user's bucket. */
    ghost predicate Valid()
      reads this
    {
      bucketMount.id == user.bucketMountId
    }

    /** The constructor reads the user's bucket mount (`mountService.Get`);
        the caller has found it. */
    constructor (mountService: MountService, node: nat, user: DbUser, burnInfo: BurnInfo, bucketMount: DbMount)
      requires bucketMount.id == user.bucketMountId
      ensures Valid()
      ensures this.mountService == mountService && this.node == node && this.burnInfo == burnInfo
      ensures this.user == user && this.bucketMount == bucketMount
      ensures uploadCid == "" && purchase == PurchaseResponse("", 0)
    {
      this.mountService := mountService;
      this.node := node;
      this.user := user;
      this.burnInfo := burnInfo;
      this.bucketMount := bucketMount;
      uploadCid := "";
      purchase := PurchaseResponse("", 0);
    }

    /** WriteInfoFileToBucketMount: the info file is written into the bucket
        directory, replacing any file of that name; a missing directory throws. */
    method WriteInfoFileToBucketMount(h: Host, infoSize: UInt64) returns (h': Host, out: Outcome)
      ensures h'.db == h.db && h'.pool == h.pool
      ensures bucketMount.path !in h.disk.dirs ==> h' == h && out == Threw(DirectoryNotFound)
      ensures bucketMount.path in h.disk.dirs ==>
        out == Completed && h'.disk == WriteEntry(h.disk, bucketMount.path, FileEntry(InfoFileName, infoSize))
    {
      if bucketMount.path !in h.disk.dirs {
        return h, Threw(DirectoryNotFound);
      }
      h' := h.(disk := WriteEntry(h.disk, bucketMount.path, FileEntry(InfoFileName, infoSize)));
      out := Completed;
    }

    /** SetState: the user's burn state changes and the user is saved. */
    method SetState(h: Host, newState: BucketBurnState) returns (h': Host)
      modifies this`user
      ensures user == old(user).(bucketBurnState := newState)
      ensures h' == h.(db := PutUser(h.db, user))
    {
      user := user.(bucketBurnState := newState);
      h' := h.(db := PutUser(h.db, user));
    }

    /** WriteZipFile: the bucket directory is archived to the mount's zip path;
        an existing zip or a missing directory throws. */
    method WriteZipFile(h: Host) returns (h': Host, out: Outcome)
      ensures h'.db == h.db && h'.pool == h.pool && h'.disk.dirs == h.disk.dirs
      ensures GetZipFilePath(bucketMount) in h.disk.files ==> h' == h && out == Threw(FileAlreadyExists)
      ensures GetZipFilePath(bucketMount) !in h.disk.files && bucketMount.path !in h.disk.dirs ==>
        h' == h && out == Threw(DirectoryNotFound)
      ensures GetZipFilePath(bucketMount) !in h.disk.files && bucketMount.path in h.disk.dirs ==>
        out == Completed && h'.disk.files == h.disk.files + {GetZipFilePath(bucketMount)}
    {
      var zip := GetZipFilePath(bucketMount);
      if zip in h.disk.files {
        return h, Threw(FileAlreadyExists);
      }
      if bucketMount.path !in h.disk.dirs {
        return h, Threw(DirectoryNotFound);
      }
      h' := h.(disk := h.disk.(files := h.disk.files + {zip}));
      out := Completed;
    }

    /** UploadZipFile: the node's upload answers the content id. */
    method UploadZipFile(upload: Option<string>) returns (out: Outcome)
      modifies this`uploadCid
      ensures upload.None? ==> out == Threw(ExternalFailure) && uploadCid == old(uploadCid)
      ensures upload.Some? ==> out == Completed && uploadCid == upload.value
    {
      if upload.None? {
        return Threw(ExternalFailure);
      }
      uploadCid := upload.value;
      out := Completed;
    }

    /** PurchaseStorage: the node's purchase of storage for the upload. */
    method PurchaseStorage(purchased: Option<PurchaseResponse>) returns (out: Outcome)
      modifies this`purchase
      ensures purchased.None? ==> out == Threw(ExternalFailure) && purchase == old(purchase)
      ensures purchased.Some? ==> out == Completed && purchase == purchased.value
    {
      if purchased.None? {
        return Threw(ExternalFailure);
      }
      purchase := purchased.value;
      out := Completed;
    }

    /** SaveNewRom: the ROM is keyed by the purchase id, holds the burn info and
        the bucket listing as the mount service answers it, expires with the
        purchase, has been mounted once and is mounted on the bucket. The user
        then records the new ROM id. */
    method SaveNewRom(h: Host) returns (h': Host, out: Outcome)
      requires mountService.Valid()
      modifies this`user, mountService.cache
      ensures mountService.Valid()
      ensures var listing := Listing(old(mountService.cache.items), h, bucketMount.id);
        && (listing.Err? ==> h' == h && out == Threw(listing.error) && user == old(user))
        && (listing.Ok? ==>
              var rom := BurnedRom(purchase, burnInfo.fields, listing.value, bucketMount.id);
              && out == Completed
              && user == old(user).(bucketNewRomCid := rom.id)
              && h' == h.(db := PutUser(PutRom(h.db, rom), user)))
    {
      var files := mountService.GetFileEntries(h, bucketMount.id);
      if files.Err? {
        return h, Threw(files.error);
      }
      var rom := BurnedRom(purchase, burnInfo.fields, files.value, bucketMount.id);
      h' := h.(db := PutRom(h.db, rom));
      user := user.(bucketNewRomCid := rom.RomCid());
      h' := h'.(db := PutUser(h'.db, user));
      out := Completed;
    }

    /** CreateNewUserBucketMount: the burned bucket becomes an ordinary open
        mount and the user gets a fresh bucket and is `Open` again. */
    method CreateNewUserBucketMount(h: Host, now: Ticks, newId: Guid) returns (h': Host, out: Outcome)
      requires Valid()
      modifies this`user, this`bucketMount
      ensures Valid()
      ensures out.Threw? ==> h' == h && user == old(user) && bucketMount == old(bucketMount)
      ensures FindMount(h.db, old(bucketMount).id).None? ==> out == Threw(MountNotFound)
      ensures FindMount(h.db, old(bucketMount).id).Some? && FindMount(h.db, old(bucketMount).id).value.state != Bucket ==>
        out == Threw(InvalidMountState)
      ensures FindMount(h.db, old(bucketMount).id).Some? && FindMount(h.db, old(bucketMount).id).value.state == Bucket ==>
        && out == Completed
        && bucketMount == NewMount(newId, Bucket, now)
        && user == old(user).(bucketMountId := newId, bucketBurnState := Open)
        && h' == Host(
             PutUser(PutMount(PutMount(h.db, FindMount(h.db, old(bucketMount).id).value.(state := OpenInUse)), bucketMount), user),
             CreateDirectory(h.disk, bucketMount.path),
             h.pool)
    {
      var h1, converted := mountService.ConvertBucketMountToOpen(h, bucketMount.id);
      if converted.Threw? {
        return h, converted;
      }
      var h2, m := mountService.CreateNewBucketMount(h1, now, newId);
      bucketMount := m;
      user := user.(bucketMountId := m.id, bucketBurnState := Open);
      h' := h2.(db := PutUser(h2.db, user));
      out := Completed;
    }

    /** The stages up to the purchase: info file, `Compressing`, zip,
        `Uploading`, upload, `Purchasing`, purchase. Only the user record is
        saved, and only the user's burn state changes. */
    method RunUploadStages(h: Host, o: WorkerOracle) returns (h': Host, out: Outcome)
      modifies this`user, this`uploadCid, this`purchase
      ensures h'.pool == h.pool
      ensures user == old(user).(bucketBurnState := user.bucketBurnState)
      ensures h'.db == h.db || (h'.db == PutUser(h.db, user) && user.bucketBurnState in {Compressing, Uploading, Purchasing})
      ensures forall id :: FindRom(h'.db, id) == FindRom(h.db, id)
      ensures bucketMount.path !in h.disk.dirs ==> h' == h && out == Threw(DirectoryNotFound)
      ensures o.upload.None? || o.purchase.None? || GetZipFilePath(bucketMount) in h.disk.files ==> out.Threw?
      ensures out.Completed? ==>
        && user.bucketBurnState == Purchasing && h'.db == PutUser(h.db, user)
        && uploadCid == o.upload.value && purchase == o.purchase.value
        && GetZipFilePath(bucketMount) in h'.disk.files
      ensures bucketMount.path in h.disk.dirs && GetZipFilePath(bucketMount) in h.disk.files ==>
        && out == Threw(FileAlreadyExists)
        && user == old(user).(bucketBurnState := Compressing) && h'.db == PutUser(h.db, user)
      ensures bucketMount.path in h.disk.dirs && GetZipFilePath(bucketMount) !in h.disk.files && o.upload.None? ==>
        && out == Threw(ExternalFailure)
        && user == old(user).(bucketBurnState := Uploading) && h'.db == PutUser(h.db, user)
      ensures bucketMount.path in h.disk.dirs && GetZipFilePath(bucketMount) !in h.disk.files && o.upload.Some? && o.purchase.None? ==>
        && out == Threw(ExternalFailure)
        && user == old(user).(bucketBurnState := Purchasing) && h'.db == PutUser(h.db, user)
      ensures bucketMount.path in h.disk.dirs && GetZipFilePath(bucketMount) !in h.disk.files && o.upload.Some? && o.purchase.Some? ==>
        out.Completed?
      ensures bucketMount.path in h.disk.dirs ==>
        h'.disk == WriteEntry(h.disk, bucketMount.path, FileEntry(InfoFileName, o.infoSize))
                     .(files := h.disk.files + {GetZipFilePath(bucketMount)})
    {
      var h1;
      h1, out := WriteInfoFileToBucketMount(h, o.infoSize);
      if out.Threw? {
        return h, out;
      }
      h1 := SetState(h1, Compressing);
      PutUserKeepsOthers(h.db, user);
      h', out := WriteZipFile(h1);
      if out.Threw? {
        return;
      }
      ghost var compressing := user;
      h' := SetState(h', Uploading);
      PutTwice(h.db, UserRecord(compressing), UserRecord(user));
      PutUserKeepsOthers(h.db, user);
      out := UploadZipFile(o.upload);
      if out.Threw? {
        return;
      }
      ghost var uploading := user;
      h' := SetState(h', Purchasing);
      PutTwice(h.db, UserRecord(uploading), UserRecord(user));
      out := PurchaseStorage(o.purchase);
      PutUserKeepsOthers(h.db, user);
    }

    /** The stages after the purchase: the ROM is saved, the user gets a new
        bucket, then the user is `Done`. */
    method RunRecordStages(h: Host, o: WorkerOracle) returns (h': Host, out: Outcome)
      requires Valid() && mountService.Valid()
      modifies this`user, this`bucketMount, mountService.cache
      ensures Valid() && mountService.Valid()
      ensures h'.pool == h.pool
      ensures out.Threw? ==> h'.disk == h.disk
      ensures out.Completed? ==> h'.disk == CreateDirectory(h.disk, NewMount(o.newId, Bucket, o.now).path)
      ensures var listing := Listing(old(mountService.cache.items), h, old(bucketMount).id);
        && (out.Threw? ==>
              || (h' == h && user == old(user))
              || (listing.Ok? && user == old(user).(bucketNewRomCid := purchase.purchaseCid)
                  && h'.db == PutUser(PutRom(h.db, BurnedRom(purchase, burnInfo.fields, listing.value, old(bucketMount).id)), user)))
        && (out.Completed? ==>
              && listing.Ok?
              && FindMount(h.db, old(bucketMount).id).Some?
              && bucketMount == NewMount(o.newId, Bucket, o.now)
              && user == old(user).(bucketNewRomCid := purchase.purchaseCid, bucketMountId := o.newId, bucketBurnState := Done)
              && h'.db == AfterRecordStages(h.db, BurnedRom(purchase, burnInfo.fields, listing.value, old(bucketMount).id), old(user),
                                            FindMount(h.db, old(bucketMount).id).value.(state := OpenInUse), bucketMount))
    {
      ghost var listing := Listing(mountService.cache.items, h, bucketMount.id);
      var h1;
      h1, out := SaveNewRom(h);
      if out.Threw? {
        return h, out;
      }
      RomSaveEffects(h.db, BurnedRom(purchase, burnInfo.fields, listing.value, bucketMount.id), user);
      h', out := CreateNewUserBucketMount(h1, o.now, o.newId);
      if out.Threw? {
        return h1, out;
      }
      h' := SetState(h', Done);
    }

    /** The stages after the purchase, stated by their effect on the records:
        on success the `Done` user, its new bucket, the burned bucket (now
        `OpenInUse`) and the new ROM are stored; a failure leaves the store
        unchanged or holding the user with its new ROM id. */
    method RecordBurn(h: Host, o: WorkerOracle) returns (h': Host, out: Outcome)
      requires Valid() && mountService.Valid()
      modifies this`user, this`bucketMount, mountService.cache
      ensures Valid() && mountService.Valid()
      ensures h'.pool == h.pool
      ensures out.Threw? ==> h'.disk == h.disk && forall id :: FindMount(h'.db, id) == FindMount(h.db, id)
      ensures out.Completed? ==> h'.disk == CreateDirectory(h.disk, NewMount(o.newId, Bucket, o.now).path)
      ensures MountsKept(h.db, h'.db)
      ensures RomsKeptBut(h.db, h'.db, purchase.purchaseCid)
      ensures UsersKeptBut(h.db, h'.db, old(user).id) && MountsKeptBut(h.db, h'.db, old(bucketMount).id, o.newId)
      ensures out.Threw? ==>
        || (h'.db == h.db && user == old(user))
        || (FindUser(h'.db, user.id) == Some(user) && user == old(user).(bucketNewRomCid := purchase.purchaseCid))
      ensures out.Completed? ==>
        && user == old(user).(bucketMountId := o.newId, bucketBurnState := Done, bucketNewRomCid := purchase.purchaseCid)
        && FindUser(h'.db, user.id) == Some(user)
        && FindMount(h'.db, o.newId) == Some(NewMount(o.newId, Bucket, o.now))
        && (o.newId != old(bucketMount).id ==>
              FindMount(h'.db, old(bucketMount).id).Some? && FindMount(h'.db, old(bucketMount).id).value.state == OpenInUse)
        && var listing := Listing(old(mountService.cache.items), h, old(bucketMount).id);
           && listing.Ok?
           && FindRom(h'.db, purchase.purchaseCid) == Some(BurnedRom(purchase, burnInfo.fields, listing.value, old(bucketMount).id))
    {
      ghost var listing := Listing(mountService.cache.items, h, bucketMount.id);
      ghost var burnedMount := FindMount(h.db, bucketMount.id);
      ghost var u := user;
      h', out := RunRecordStages(h, o);
      if out.Completed? {
        var rom := BurnedRom(purchase, burnInfo.fields, listing.value, old(bucketMount).id);
        RecordStagesEffects(h.db, rom, u, burnedMount.value.(state := OpenInUse), bucketMount);
      } else if h' != h {
        RomSaveEffects(h.db, BurnedRom(purchase, burnInfo.fields, listing.value, old(bucketMount).id), user);
      }
    }

    /** RunWorker: the stages in order, the user's burn state saved before the
        zip, upload and purchase stages. The first stage that throws ends the
        run; until the user gets its new bucket, the bucket mount id is
        unchanged, and no mount record is ever removed. */
    method RunWorker(h: Host, o: WorkerOracle) returns (h': Host, out: Outcome)
      requires Valid() && mountService.Valid()
      modifies this, mountService.cache
      ensures Valid() && mountService.Valid()
      ensures h'.pool == h.pool
      ensures user.id == old(user.id) && user.username == old(user.username)
      ensures MountsKept(h.db, h'.db)
      ensures forall id :: FindRom(h'.db, id) != FindRom(h.db, id) ==> o.purchase.Some? && id == o.purchase.value.purchaseCid
      ensures UsersKeptBut(h.db, h'.db, old(user).id) && MountsKeptBut(h.db, h'.db, old(bucketMount).id, o.newId)
      ensures old(bucketMount).path !in h.disk.dirs ==> h' == h && out == Threw(DirectoryNotFound)
      ensures o.upload.None? || o.purchase.None? || GetZipFilePath(old(bucketMount)) in h.disk.files ==> out.Threw?
      ensures out.Threw? ==>
        user == old(user).(bucketBurnState := user.bucketBurnState, bucketNewRomCid := user.bucketNewRomCid)
      ensures var path, zip := old(bucketMount).path, GetZipFilePath(old(bucketMount));
        && (path in h.disk.dirs && zip in h.disk.files ==>
              && out == Threw(FileAlreadyExists)
              && user == old(user).(bucketBurnState := Compressing) && h'.db == PutUser(h.db, user))
        && (path in h.disk.dirs && zip !in h.disk.files && o.upload.None? ==>
              && out == Threw(ExternalFailure)
              && user == old(user).(bucketBurnState := Uploading) && h'.db == PutUser(h.db, user))
        && (path in h.disk.dirs && zip !in h.disk.files && o.upload.Some? && o.purchase.None? ==>
              && out == Threw(ExternalFailure)
              && user == old(user).(bucketBurnState := Purchasing) && h'.db == PutUser(h.db, user))
        && (path in h.disk.dirs && zip !in h.disk.files && o.upload.Some? && o.purchase.Some? && out.Threw? ==>
              user.bucketBurnState == Purchasing)
      ensures out.Completed? ==>
        && o.upload.Some? && o.purchase.Some?
        && uploadCid == o.upload.value && purchase == o.purchase.value
        && user == old(user).(bucketMountId := o.newId, bucketBurnState := Done, bucketNewRomCid := o.purchase.value.purchaseCid)
        && FindUser(h'.db, user.id) == Some(user)
        && FindMount(h'.db, o.newId) == Some(NewMount(o.newId, Bucket, o.now))
        && (o.newId != old(bucketMount).id ==>
              FindMount(h'.db, old(bucketMount).id).Some? && FindMount(h'.db, old(bucketMount).id).value.state == OpenInUse)
        && GetZipFilePath(old(bucketMount)) in h'.disk.files
      ensures out.Threw? ==> forall id :: FindMount(h'.db, id) == FindMount(h.db, id)
      ensures var path, zip := old(bucketMount).path, GetZipFilePath(old(bucketMount));
        path in h.disk.dirs ==>
          var written := WriteEntry(h.disk, path, FileEntry(InfoFileName, o.infoSize));
          var uploaded := written.(files := h.disk.files + {zip});
          && (out.Threw? ==> h'.disk == uploaded)
          && (out.Completed? ==> h'.disk == CreateDirectory(uploaded, NewMount(o.newId, Bucket, o.now).path))
          && (out.Completed? ==>
                var listing := Listing(old(mountService.cache.items), h.(disk := written), old(bucketMount).id);
                && listing.Ok?
                && FindRom(h'.db, o.purchase.value.purchaseCid)
                   == Some(BurnedRom(o.purchase.value, burnInfo.fields, listing.value, old(bucketMount).id)))
    {
      var h1;
      h1, out := RunUploadStages(h, o);
      PutUserKeepsOthers(h.db, user);
      if out.Threw? {
        return h1, out;
      }
      ListingFrame(mountService.cache.items, h1, h.(disk := WriteEntry(h.disk, bucketMount.path, FileEntry(InfoFileName, o.infoSize))), bucketMount.id);
      h', out := RecordBurn(h1, o);
    }
  }
}
