/**
 * server/Services/BucketService.cs: what a signed-in user does with their
 * bucket, the writable mount every user owns. Each operation first checks
 * the name against the allow-list and quietly does nothing for a stranger;
 * for a known name it fetches (or creates) the user record and works on the
 * user's bucket mount through the mount and burn services.
 *
 * `now` and `newId` are what `GetUser` needs should it have to create the
 * user; the host state is threaded through as in the other services.
 */
module Buckets {
  import opened Outcomes
  import opened Utils
  import opened Entities
  import opened Platform
  import opened Mounts
  import opened Users
  import opened Burn

  /** The bucket as the client sees it (class `Bucket`). */
  datatype BucketView = BucketView(
    entries: seq<FileEntry>,
    volumeSize: UInt64,
    state: BucketBurnState,
    expiryUtc: int,
    romCid: string)

  /** `new Bucket()`: what a name off the allow-list gets. */
  const EmptyBucket := BucketView([], 0, BucketBurnState.Unknown, 0, "")

  /** GetExpiryUnixTimestamp: an empty bucket does not expire (0); any other
      expires with its mount. */
  function ExpiryOf(entries: seq<FileEntry>, mount: DbMount): (t: int)
    ensures entries == [] ==> t == 0
    ensures entries != [] ==> t == ToUnixTimestamp(mount.expiryUtc)
  {
    if |entries| == 0 then 0 else ToUnixTimestamp(mount.expiryUtc)
  }

  /** A path that names the mount's info file or its zip archive, ignoring case. */
  predicate ClashesWithSystemFile(m: DbMount, path: string) {
    || ToLowerInvariant(path) == ToLowerInvariant(GetInfoJsonFilePath(m))
    || ToLowerInvariant(path) == ToLowerInvariant(GetZipFilePath(m))
  }

  /** The answer of GetWriteableBucketFilePath for a found mount: the file's
      path in the mount, or the empty string when that path is a system file. */
  function WriteablePath(m: DbMount, filename: string): (p: string)
    ensures p == [] <==> ClashesWithSystemFile(m, Combine(m.path, filename)) || Combine(m.path, filename) == []
    ensures p != [] ==> p == Combine(m.path, filename)
  {
    var path := Combine(m.path, filename);
    if ClashesWithSystemFile(m, path) then [] else path
  }

  /** The info file's name, in any letter case, is refused. */
  lemma InfoFileRefused(m: DbMount, filename: string)
    requires m.path != [] && m.path[|m.path| - 1] != '/'
    requires filename != [] && filename[0] != '/'
    requires ToLowerInvariant(filename) == ToLowerInvariant(InfoFileName)
    ensures WriteablePath(m, filename) == []
  {
    LowerAppend(m.path + "/", filename);
    LowerAppend(m.path + "/", InfoFileName);
  }

  /** Any other plain file name is accepted, as a file directly inside the
      mount directory: the zip archive lives elsewhere. */
  lemma PlainNameAccepted(m: DbMount, filename: string)
    requires m.path != [] && m.path[0] == '/' && m.path[|m.path| - 1] != '/'
    requires IsPlainName(filename)
    requires ToLowerInvariant(filename) != ToLowerInvariant(InfoFileName)
    ensures WriteablePath(m, filename) == m.path + "/" + filename
  {
    var path := m.path + "/" + filename;
    assert ToLowerInvariant(path)[0] == '/';
    assert ToLowerInvariant(GetZipFilePath(m))[0] == '.';
    LowerAppend(m.path + "/", filename);
    LowerAppend(m.path + "/", InfoFileName);
  }

  /** The user after ClearNewRomCid: a `Done` bucket goes back to `Open` with
      no new ROM id; any other user is left as is. */
  function Cleared(u: DbUser): (r: DbUser)
    ensures u.bucketBurnState == Done ==> r == u.(bucketBurnState := Open, bucketNewRomCid := "")
    ensures u.bucketBurnState != Done ==> r == u
  {
    if u.bucketBurnState == Done then u.(bucketBurnState := Open, bucketNewRomCid := "") else u
  }

  /** A finished burn, once acknowledged, leaves the user where a new user
      starts: an `Open` bucket (the new mount) and no new ROM id; and
      acknowledging twice is acknowledging once. */
  lemma BurnAcknowledged(u: DbUser, newMountId: string, romCid: string)
    ensures var done := u.(bucketMountId := newMountId, bucketBurnState := Done, bucketNewRomCid := romCid);
      && Cleared(done) == u.(bucketMountId := newMountId, bucketBurnState := Open, bucketNewRomCid := "")
      && Cleared(Cleared(done)) == Cleared(done)
  {
  }

  class BucketService {
    /** `EnvConfig.VolumeSize` */
    const volumeSize: UInt64
    const userService: UserService
    const mountService: MountService
    const burnService: BurnService

    ghost predicate Valid()
      reads this, mountService, mountService.cache, mountService.downloads, burnService
    {
      mountService.Valid() && burnService.mountService == mountService
    }

    constructor (userService: UserService, mountService: MountService, burnService: BurnService, volumeSize: UInt64)
      requires mountService.Valid() && burnService.mountService == mountService
      ensures Valid()
      ensures this.userService == userService && this.mountService == mountService
      ensures this.burnService == burnService && this.volumeSize == volumeSize
    {
      this.userService := userService;
      this.mountService := mountService;
      this.burnService := burnService;
      this.volumeSize := volumeSize;
    }

    /** GetBucket: the listing, size limit, burn state, expiry and new ROM id
        of the user's bucket; a missing mount or directory throws. */
    method GetBucket(h: Host, username: string, now: Ticks, newId: Guid) returns (h': Host, r: Result<BucketView>)
      requires Valid()
      modifies mountService.cache
      ensures Valid() && h'.pool == h.pool
      ensures !userService.IsValid(username) ==>
        h' == h && r == Ok(EmptyBucket) && mountService.cache.items == old(mountService.cache.items)
      ensures userService.IsValid(username) ==>
        && FindUser(h'.db, username).Some?
        && (FindUser(h.db, username).Some? ==> h' == h)
        && var user := FindUser(h'.db, username).value;
           var found := FindMount(h'.db, user.bucketMountId);
           var listing := Listing(old(mountService.cache.items), h', user.bucketMountId);
           && (found.None? ==> r == Err(MountNotFound))
           && (found.Some? && listing.Err? ==> r == Err(listing.error))
           && (found.Some? && listing.Ok? ==>
                 r == Ok(BucketView(listing.value, volumeSize, user.bucketBurnState,
                                ExpiryOf(listing.value, found.value), user.bucketNewRomCid)))
      ensures userService.IsValid(username) && FindUser(h.db, username).None? &&
              newId !in old(mountService.cache.items) && NewMount(newId, Bucket, now).path !in h.disk.dirs ==>
        r == Ok(BucketView([], volumeSize, Open, 0, ""))
    {
      if !userService.IsValid(username) {
        return h, Ok(EmptyBucket);
      }
      var user;
      h', user := userService.GetUser(h, username, now, newId);
      var mount := GetMount(h'.db, user.bucketMountId);
      if mount.Err? {
        return h', Err(mount.error);
      }
      var entries := mountService.GetFileEntries(h', user.bucketMountId);
      if entries.Err? {
        return h', Err(entries.error);
      }
      r := Ok(BucketView(entries.value, volumeSize, user.bucketBurnState,
                     ExpiryOf(entries.value, mount.value), user.bucketNewRomCid));
    }

    /** DeleteFile: the file goes from the user's bucket, through the mount
        service (which only deletes from a `Bucket` mount). */
    method DeleteFile(h: Host, username: string, filename: string, now: Ticks, newId: Guid) returns (h': Host, out: Outcome)
      requires Valid()
      modifies mountService.cache
      ensures Valid() && h'.pool == h.pool
      ensures !userService.IsValid(username) ==>
        h' == h && out == Completed && mountService.cache.items == old(mountService.cache.items)
      ensures userService.IsValid(username) ==> FindUser(h'.db, username).Some?
      ensures userService.IsValid(username) && FindUser(h.db, username).Some? ==>
        var user := FindUser(h.db, username).value;
        var found := FindMount(h.db, user.bucketMountId);
        && h'.db == h.db
        && (found.None? ==> h' == h && out == Threw(MountNotFound))
        && (found.Some? && found.value.state != Bucket ==> h' == h && out == Threw(InvalidMountState))
        && (found.Some? && found.value.state == Bucket ==>
              && out == Completed
              && h'.disk == (if IsPlainName(filename) then DeleteEntry(h.disk, found.value.path, filename) else h.disk))
    {
      if !userService.IsValid(username) {
        return h, Completed;
      }
      var user;
      h', user := userService.GetUser(h, username, now, newId);
      h', out := mountService.DeleteFile(h', user.bucketMountId, filename);
    }

    /** IsBucketOpen: a known user whose bucket is `Open`; a new user's is. */
    method IsBucketOpen(h: Host, username: string, now: Ticks, newId: Guid) returns (h': Host, b: bool)
      ensures h'.pool == h.pool
      ensures !userService.IsValid(username) ==> h' == h && !b
      ensures userService.IsValid(username) ==>
        && FindUser(h'.db, username).Some?
        && (b <==> FindUser(h'.db, username).value.bucketBurnState == Open)
        && (FindUser(h.db, username).Some? ==> h' == h)
      ensures userService.IsValid(username) && FindUser(h.db, username).None? ==> b
    {
      if !userService.IsValid(username) {
        return h, false;
      }
      var user;
      h', user := userService.GetUser(h, username, now, newId);
      b := user.bucketBurnState == Open;
    }

    /** GetWriteableBucketFilePath: where an upload of that name goes, or the
        empty string for a stranger or a name that would overwrite one of the
        mount's system files; a missing mount throws. */
    method GetWriteableBucketFilePath(h: Host, username: string, filename: string, now: Ticks, newId: Guid)
      returns (h': Host, r: Result<string>)
      ensures h'.pool == h.pool
      ensures !userService.IsValid(username) ==> h' == h && r == Ok("")
      ensures userService.IsValid(username) ==>
        && FindUser(h'.db, username).Some?
        && (FindUser(h.db, username).Some? ==> h' == h)
        && var found := FindMount(h'.db, FindUser(h'.db, username).value.bucketMountId);
           && (found.None? ==> r == Err(MountNotFound))
           && (found.Some? ==> r == Ok(WriteablePath(found.value, filename)))
    {
      if !userService.IsValid(username) {
        return h, Ok("");
      }
      var user;
      h', user := userService.GetUser(h, username, now, newId);
      var mount := GetMount(h'.db, user.bucketMountId);
      if mount.Err? {
        return h', Err(mount.error);
      }
      var m := mount.value;
      var path := Combine(m.path, filename);
      var pathInvariant := ToLowerInvariant(path);
      if pathInvariant == ToLowerInvariant(GetInfoJsonFilePath(m)) {
        return h', Ok("");
      }
      if pathInvariant == ToLowerInvariant(GetZipFilePath(m)) {
        return h', Ok("");
      }
      r := Ok(path);
    }

    /** Refresh: the cached listing of the user's bucket is dropped. */
    method Refresh(h: Host, username: string, now: Ticks, newId: Guid) returns (h': Host)
      requires Valid()
      modifies mountService.cache
      ensures Valid() && h'.pool == h.pool
      ensures !userService.IsValid(username) ==>
        h' == h && mountService.cache.items == old(mountService.cache.items)
      ensures userService.IsValid(username) ==>
        && FindUser(h'.db, username).Some?
        && (FindUser(h.db, username).Some? ==> h' == h)
        && mountService.cache.items == old(mountService.cache.items) - {FindUser(h'.db, username).value.bucketMountId}
    {
      if !userService.IsValid(username) {
        return h;
      }
      var user;
      h', user := userService.GetUser(h, username, now, newId);
      mountService.ClearCache(user.bucketMountId);
    }

    /** StartBurn: a known name is handed to the burn service, which reads the
        user record itself: a user never fetched throws, a bucket that is not
        `Open` starts nothing, and at most one worker is spawned. */
    method StartBurn(h: Host, username: string, burnInfo: BurnInfo) returns (h': Host, out: Outcome)
      requires Valid()
      modifies burnService, mountService.cache
      ensures Valid() && h'.disk == h.disk && h'.pool == h.pool
      ensures !userService.IsValid(username) ==>
        && h' == h && out == Completed && burnService.tasks == old(burnService.tasks)
        && mountService.cache.items == old(mountService.cache.items)
      ensures userService.IsValid(username) && FindUser(h.db, username).None? ==>
        h' == h && out == Threw(UserNotFound) && burnService.tasks == old(burnService.tasks)
      ensures userService.IsValid(username) && FindUser(h.db, username).Some? ==>
        var user := FindUser(h.db, username).value;
        var started := user.(bucketBurnState := Starting, bucketNewRomCid := "");
        && (user.bucketBurnState != Open ==> h' == h && out == Completed && burnService.tasks == old(burnService.tasks))
        && (burnService.tasks == old(burnService.tasks) || burnService.tasks == old(burnService.tasks) + [WorkerTask(started, burnInfo)])
    {
      if !userService.IsValid(username) {
        return h, Completed;
      }
      h', out := burnService.StartBurn(h, username, burnInfo);
    }

    /** ClearNewRomCid: the user acknowledges a finished burn. */
    method ClearNewRomCid(h: Host, username: string, now: Ticks, newId: Guid) returns (h': Host)
      ensures h'.disk == h.disk || FindUser(h.db, username).None?
      ensures h'.pool == h.pool
      ensures !userService.IsValid(username) ==> h' == h
      ensures userService.IsValid(username) && FindUser(h.db, username).Some? ==>
        var user := FindUser(h.db, username).value;
        && (user.bucketBurnState != Done ==> h' == h)
        && (user.bucketBurnState == Done ==> h'.db == PutUser(h.db, Cleared(user)))
      ensures userService.IsValid(username) ==>
        FindUser(h'.db, username).Some? && FindUser(h'.db, username).value.bucketBurnState != Done
    {
      if !userService.IsValid(username) {
        return h;
      }
      var user;
      h', user := userService.GetUser(h, username, now, newId);
      if user.bucketBurnState == Done {
        user := user.(bucketBurnState := Open, bucketNewRomCid := "");
        h' := userService.SaveUser(h', user);
      }
    }
  }
}
