/**
 * server/Services/MountService.cs: mount records, their state machine and the
 * per-mount cache of directory listings.
 *
 * A mount is `Bucket` (a user's writeable bucket), `Downloading` (a ROM being
 * fetched), `OpenInUse`, `ClosedNotUsed` or `Unknown` (never valid). The two
 * switches of BeginMount/OpenExistingMount and EndMount are the total
 * functions `MountStep` and `UnmountStep`.
 */
module Mounts {
  import opened Outcomes
  import opened Utils
  import opened Entities
  import opened Platform
  import opened Downloads

  /** `TimeSpan.FromHours(3.0)`: how long a new or freshly opened mount lives. */
  const MountLifetime: nat := 3 * TicksPerHour

  /** What one switch does with the mount's state. */
  datatype Step = Stay | MoveTo(next: MountState) | Reject

  function Apply(s: MountState, step: Step): MountState {
    match step
    case Stay => s
    case MoveTo(next) => next
    case Reject => s
  }

  /** The switch of OpenExistingMount. */
  function MountStep(s: MountState): (step: Step)
    ensures step.Reject? <==> s == MountState.Unknown
    ensures step.MoveTo? <==> s == ClosedNotUsed
    ensures step.MoveTo? ==> step.next == OpenInUse
  {
    match s
    case Bucket => Stay
    case Downloading => Stay
    case OpenInUse => Stay
    case ClosedNotUsed => MoveTo(OpenInUse)
    case Unknown => Reject
  }

  /** The switch of EndMount. */
  function UnmountStep(s: MountState): (step: Step)
    ensures step.Reject? <==> s == MountState.Unknown
    ensures step.MoveTo? <==> s == OpenInUse
    ensures step.MoveTo? ==> step.next == ClosedNotUsed
  {
    match s
    case Bucket => Stay
    case Downloading => Stay
    case OpenInUse => MoveTo(ClosedNotUsed)
    case ClosedNotUsed => Stay
    case Unknown => Reject
  }

  /** Mounting and unmounting never move a mount into or out of `Bucket` or
      `Downloading`, and they undo each other on the two usable states: an open
      mount unmounted and mounted again is open, a closed mount mounted and
      unmounted again is closed. */
  lemma MountUnmountInverse(s: MountState)
    ensures (s == Bucket || s == Downloading) ==>
      Apply(s, MountStep(s)) == s && Apply(s, UnmountStep(s)) == s
    ensures Apply(s, MountStep(s)) in {Bucket, Downloading} ==> s == Apply(s, MountStep(s))
    ensures Apply(s, UnmountStep(s)) in {Bucket, Downloading} ==> s == Apply(s, UnmountStep(s))
    ensures s == OpenInUse ==> Apply(Apply(s, UnmountStep(s)), MountStep(Apply(s, UnmountStep(s)))) == OpenInUse
    ensures s == ClosedNotUsed ==> Apply(Apply(s, MountStep(s)), UnmountStep(Apply(s, MountStep(s)))) == ClosedNotUsed
  {
  }

  /** The record CreateNewMount saves. */
  function NewMount(id: Guid, state: MountState, now: Ticks): (m: DbMount)
    ensures m.id == id && m.state == state && m.expiryUtc == now + MountLifetime
    ensures m.path == MountsRoot + "/" + id
  {
    GuidShape(id);
    DbMount(id, Combine(MountsRoot, id), now + MountLifetime, state)
  }

  /** The ROM's current mount exists: `BeginMount` would reuse it. */
  predicate Linked(db: Store, romCid: string) {
    && FindRom(db, romCid).Some?
    && FindRom(db, romCid).value.currentMountId != ""
    && FindMount(db, FindRom(db, romCid).value.currentMountId).Some?
  }

  /** No mount leaves `Downloading`. */
  ghost predicate DownloadsKept(db: Store, db': Store) {
    forall id :: FindMount(db, id).Some? && FindMount(db, id).value.state == Downloading ==>
      FindMount(db', id).Some? && FindMount(db', id).value.state == Downloading
  }

  /** DownloadFinished, the callback BeginMount hands to the download: the
      mount becomes `OpenInUse` with a fresh three-hour expiry, and the ROM as
      captured at launch is saved again. */
  function DownloadFinished(db: Store, rom: DbRom, mount: DbMount, now: Ticks): (r: Store)
    ensures FindMount(r, mount.id) == Some(mount.(state := OpenInUse, expiryUtc := now + MountLifetime))
    ensures FindRom(r, rom.id) == Some(rom)
    ensures forall k :: k != Key(MountKind, mount.id) && k != Key(RomKind, rom.id) ==>
      (k in r <==> k in db) && (k in db ==> r[k] == db[k])
  {
    PutRom(PutMount(db, mount.(state := OpenInUse, expiryUtc := now + MountLifetime)), rom)
  }

  /** MountService.Get: the mount record, or the "unable to find mount" exception. */
  function GetMount(db: Store, mountId: string): (r: Result<DbMount>)
    ensures r.Ok? <==> FindMount(db, mountId).Some?
    ensures r.Ok? ==> r.value == FindMount(db, mountId).value && r.value.id == mountId
    ensures r.Err? ==> r.error == MountNotFound
  {
    match FindMount(db, mountId)
    case Some(m) => Ok(m)
    case None => Err(MountNotFound)
  }

  /** `Directory.GetFiles(mount.Path)` for the mount, as file entries. */
  function ScanEntries(h: Host, mountId: string): (r: Result<seq<FileEntry>>)
    ensures r.Ok? <==> FindMount(h.db, mountId).Some? && FindMount(h.db, mountId).value.path in h.disk.dirs
    ensures r.Ok? ==> r.value == h.disk.dirs[FindMount(h.db, mountId).value.path]
    ensures FindMount(h.db, mountId).None? ==> r == Err(MountNotFound)
  {
    match GetMount(h.db, mountId)
    case Err(e) => Err(e)
    case Ok(m) => if m.path in h.disk.dirs then Ok(h.disk.dirs[m.path]) else Err(DirectoryNotFound)
  }

  /** What GetFileEntries answers given the cache contents: the cached listing,
      else a scan of the directory. */
  function Listing(cached: map<string, seq<FileEntry>>, h: Host, mountId: string): (r: Result<seq<FileEntry>>)
    ensures mountId in cached ==> r == Ok(cached[mountId])
    ensures mountId !in cached && FindMount(h.db, mountId).None? ==> r == Err(MountNotFound)
    ensures mountId !in cached ==>
      (r.Ok? <==> FindMount(h.db, mountId).Some? && FindMount(h.db, mountId).value.path in h.disk.dirs)
    ensures mountId !in cached && r.Ok? ==> r.value == h.disk.dirs[FindMount(h.db, mountId).value.path]
  {
    if mountId in cached then Ok(cached[mountId]) else ScanEntries(h, mountId)
  }

  /** A listing depends only on the cache, the mount record and the directories. */
  lemma ListingFrame(cached: map<string, seq<FileEntry>>, a: Host, b: Host, mountId: string)
    requires FindMount(a.db, mountId) == FindMount(b.db, mountId) && a.disk.dirs == b.disk.dirs
    ensures Listing(cached, a, mountId) == Listing(cached, b, mountId)
  {
  }

  /** A file name that `Path.Combine` puts directly inside the mount directory. */
  predicate IsPlainName(filename: string) {
    filename != [] && '/' !in filename
  }

  class MountService {
    const cache: CapMap<string, seq<FileEntry>>
    const downloads: DownloadService

    ghost predicate Valid()
      reads this, cache, downloads
    {
      cache.Valid() && downloads.Valid()
    }

    constructor (downloads: DownloadService)
      requires downloads.Valid()
      ensures Valid() && this.downloads == downloads && fresh(cache) && cache.items == map[]
    {
      this.downloads := downloads;
      cache := new CapMap();
    }

    /** CreateNewMount: a fresh mount record with a three-hour expiry under
        `/mounts/<id>`, saved, and its directory created. */
    method CreateNewMount(h: Host, state: MountState, now: Ticks, newId: Guid) returns (h': Host, m: DbMount)
      ensures m == NewMount(newId, state, now)
      ensures h' == Host(PutMount(h.db, m), CreateDirectory(h.disk, m.path), h.pool)
    {
      m := NewMount(newId, state, now);
      h' := h.(db := PutMount(h.db, m));
      h' := h'.(disk := CreateDirectory(h'.disk, m.path));
    }

    /** CreateNewBucketMount: a new mount in state `Bucket`, expiring in three hours. */
    method CreateNewBucketMount(h: Host, now: Ticks, newId: Guid) returns (h': Host, m: DbMount)
      ensures m == NewMount(newId, Bucket, now) && m.path == "/mounts/" + newId
      ensures h' == Host(PutMount(h.db, m), CreateDirectory(h.disk, m.path), h.pool)
    {
      h', m := CreateNewMount(h, Bucket, now, newId);
    }

    /** GetFileEntries: a copy of the cached listing if there is one; otherwise
        the mount directory is scanned and the listing cached. */
    method GetFileEntries(h: Host, mountId: string) returns (r: Result<seq<FileEntry>>)
      requires Valid()
      modifies cache
      ensures Valid()
      ensures r == Listing(old(cache.items), h, mountId)
      ensures mountId in old(cache.items) ==> cache.items == old(cache.items)
      ensures mountId !in old(cache.items) && r.Ok? ==> cache.items == old(cache.Cleared())[mountId := r.value]
      ensures r.Err? ==> cache.items == old(cache.items)
    {
      var cached := cache.TryGetValue(mountId);
      if cached.Some? {
        return Ok(cached.value);
      }
      r := ScanEntries(h, mountId);
      if r.Ok? {
        var added := cache.Add(mountId, r.value);
        assert added == Completed;
      }
    }

    /** DeleteFile: the cached listing loses every entry of that name, even
        when the call then fails; only a `Bucket` mount has the file deleted,
        and no other file is touched. */
    method DeleteFile(h: Host, mountId: string, filename: string) returns (h': Host, out: Outcome)
      requires Valid()
      modifies cache
      ensures Valid()
      ensures mountId in old(cache.items) ==>
        cache.items == old(cache.items)[mountId := WithoutName(old(cache.items)[mountId], filename)]
      ensures mountId !in old(cache.items) ==> cache.items == old(cache.items)
      ensures h'.db == h.db && h'.pool == h.pool
      ensures FindMount(h.db, mountId).None? ==> h' == h && out == Threw(MountNotFound)
      ensures FindMount(h.db, mountId).Some? && FindMount(h.db, mountId).value.state != Bucket ==>
        h' == h && out == Threw(InvalidMountState)
      ensures FindMount(h.db, mountId).Some? && FindMount(h.db, mountId).value.state == Bucket ==>
        && out == Completed
        && h'.disk == (if IsPlainName(filename) then DeleteEntry(h.disk, FindMount(h.db, mountId).value.path, filename) else h.disk)
    {
      if mountId in cache.items {
        var entries := cache.items[mountId];
        CardinalityAfterInsert(cache.items, mountId, WithoutName(entries, filename));
        assert cache.items[mountId := WithoutName(entries, filename)].Keys == cache.items.Keys;
        cache.items := cache.items[mountId := WithoutName(entries, filename)];
      }
      var mount := GetMount(h.db, mountId);
      if mount.Err? {
        return h, Threw(mount.error);
      }
      var m := mount.value;
      if m.state != Bucket {
        return h, Threw(InvalidMountState);
      }
      h' := h;
      if IsPlainName(filename) {
        h' := h.(disk := DeleteEntry(h.disk, m.path, filename));
      }
      out := Completed;
    }

    /** ClearCache: forget the mount's listing; the next GetFileEntries rescans. */
    method ClearCache(mountId: string)
      requires Valid()
      modifies cache
      ensures Valid()
      ensures !cache.ContainsKey(mountId)
      ensures cache.items == old(cache.items) - {mountId}
    {
      cache.ClearKey(mountId);
    }

    /** ConvertBucketMountToOpen: only a `Bucket` mount converts, to `OpenInUse`. */
    method ConvertBucketMountToOpen(h: Host, mountId: string) returns (h': Host, out: Outcome)
      ensures h'.disk == h.disk && h'.pool == h.pool
      ensures FindMount(h.db, mountId).None? ==> h' == h && out == Threw(MountNotFound)
      ensures FindMount(h.db, mountId).Some? && FindMount(h.db, mountId).value.state != Bucket ==>
        h' == h && out == Threw(InvalidMountState)
      ensures FindMount(h.db, mountId).Some? && FindMount(h.db, mountId).value.state == Bucket ==>
        out == Completed && h'.db == PutMount(h.db, FindMount(h.db, mountId).value.(state := OpenInUse))
    {
      var mount := GetMount(h.db, mountId);
      if mount.Err? {
        return h, Threw(mount.error);
      }
      var m := mount.value;
      if m.state != Bucket {
        return h, Threw(InvalidMountState);
      }
      m := m.(state := OpenInUse);
      h' := h.(db := PutMount(h.db, m));
      out := Completed;
    }

    /** LaunchDownload: the mount is (again) `Downloading`, the ROM points at it
        and its mount counter goes up by one; both are saved and the download
        is queued with DownloadFinished as its callback. */
    method LaunchDownload(h: Host, rom: DbRom, mount: DbMount) returns (h': Host, rom': DbRom, mount': DbMount)
      requires Valid()
      modifies downloads
      ensures Valid()
      ensures mount' == mount.(state := Downloading)
      ensures rom' == rom.(currentMountId := mount.id, mountCounter := IncrementInt32(rom.mountCounter))
      ensures h' == h.(db := PutMount(PutRom(h.db, rom'), mount'))
      ensures downloads.busy == old(downloads.busy) && downloads.running == old(downloads.running)
      ensures |downloads.pending| == |old(downloads.pending)| + 1
      ensures downloads.pending[..|old(downloads.pending)|] == old(downloads.pending)
      ensures var t := downloads.pending[|old(downloads.pending)|];
        && t.rom == rom' && t.mount == mount'
        && forall db: Store, now: Ticks :: t.whenDone(db, now) == DownloadFinished(db, rom', mount', now)
    {
      mount' := mount.(state := Downloading);
      rom' := rom.(currentMountId := mount.id, mountCounter := IncrementInt32(rom.mountCounter));
      h' := h.(db := PutRom(h.db, rom'));
      h' := h'.(db := PutMount(h'.db, mount'));
      var r, m := rom', mount';
      downloads.LaunchDownload(rom', mount', (db: Store, now: Ticks) => DownloadFinished(db, r, m, now));
    }

    /** BeginMount. An unknown ROM: nothing happens. A ROM whose current mount
        exists: that mount goes through MountStep, the ROM is untouched. Any
        other ROM: a new `Downloading` mount is created, the ROM points at it,
        its counter goes up by one and the download is queued. */
    method BeginMount(h: Host, romCid: string, now: Ticks, newId: Guid) returns (h': Host, out: Outcome)
      requires Valid()
      modifies downloads
      ensures Valid()
      ensures h'.pool == h.pool
      ensures downloads.busy == old(downloads.busy) && downloads.running == old(downloads.running)
      ensures FindRom(h.db, romCid).None? ==>
        h' == h && out == Completed && downloads.pending == old(downloads.pending)
      ensures Linked(h.db, romCid) ==>
        var rom := FindRom(h.db, romCid).value;
        var m := FindMount(h.db, rom.currentMountId).value;
        && h'.disk == h.disk
        && downloads.pending == old(downloads.pending)
        && (out.Threw? <==> m.state == MountState.Unknown)
        && (out.Threw? ==> out.error == InvalidMountState && h' == h)
        && h'.db == (if m.state == ClosedNotUsed then PutMount(h.db, m.(state := OpenInUse)) else h.db)
        && FindRom(h'.db, romCid) == Some(rom)
      ensures FindRom(h.db, romCid).Some? && !Linked(h.db, romCid) ==>
        var rom := FindRom(h.db, romCid).value;
        var m := NewMount(newId, Downloading, now);
        var rom' := rom.(currentMountId := newId, mountCounter := IncrementInt32(rom.mountCounter));
        && out == Completed
        && h'.db == PutMount(PutRom(PutMount(h.db, m), rom'), m)
        && FindRom(h'.db, romCid) == Some(rom')
        && FindMount(h'.db, newId) == Some(m)
        && h'.disk == CreateDirectory(h.disk, m.path)
        && |downloads.pending| == |old(downloads.pending)| + 1
        && downloads.pending[..|old(downloads.pending)|] == old(downloads.pending)
        && var t := downloads.pending[|old(downloads.pending)|];
           && t.rom == rom' && t.mount == m
           && forall db: Store, at: Ticks :: t.whenDone(db, at) == DownloadFinished(db, rom', m, at)
      ensures out.Completed? && FindRom(h.db, romCid).Some? ==> Linked(h'.db, romCid)
      ensures DownloadsKept(h.db, h'.db)
    {
      var found := FindRom(h.db, romCid);
      if found.None? {
        return h, Completed;
      }
      var rom := found.value;
      if rom.currentMountId == "" {
        h', out := CreateNewMountForRom(h, rom, now, newId);
      } else {
        var mount := FindMount(h.db, rom.currentMountId);
        if mount.None? {
          h', out := CreateNewMountForRom(h, rom, now, newId);
        } else {
          h', out := OpenExistingMount(h, mount.value);
        }
      }
    }

    method CreateNewMountForRom(h: Host, rom: DbRom, now: Ticks, newId: Guid) returns (h': Host, out: Outcome)
      requires Valid() && FindRom(h.db, rom.id) == Some(rom)
      modifies downloads
      ensures Valid()
      ensures out == Completed && h'.pool == h.pool
      ensures downloads.busy == old(downloads.busy) && downloads.running == old(downloads.running)
      ensures var m := NewMount(newId, Downloading, now);
        var rom' := rom.(currentMountId := newId, mountCounter := IncrementInt32(rom.mountCounter));
        && h'.db == PutMount(PutRom(PutMount(h.db, m), rom'), m)
        && FindRom(h'.db, rom.id) == Some(rom')
        && FindMount(h'.db, newId) == Some(m)
        && h'.disk == CreateDirectory(h.disk, m.path)
        && |downloads.pending| == |old(downloads.pending)| + 1
        && downloads.pending[..|old(downloads.pending)|] == old(downloads.pending)
        && Linked(h'.db, rom.id)
        && var t := downloads.pending[|old(downloads.pending)|];
           && t.rom == rom' && t.mount == m
           && forall db: Store, at: Ticks :: t.whenDone(db, at) == DownloadFinished(db, rom', m, at)
      ensures DownloadsKept(h.db, h'.db)
    {
      var h1, mount := CreateNewMount(h, Downloading, now, newId);
      var rom', mount';
      h', rom', mount' := LaunchDownload(h1, rom, mount);
      out := Completed;
    }

    /** OpenExistingMount: the mount goes through MountStep; only a closed mount
        is saved, now open, and the mount counter is never touched. */
    method OpenExistingMount(h: Host, mount: DbMount) returns (h': Host, out: Outcome)
      ensures h'.disk == h.disk && h'.pool == h.pool
      ensures MountStep(mount.state).Reject? ==> h' == h && out == Threw(InvalidMountState)
      ensures MountStep(mount.state).Stay? ==> h' == h && out == Completed
      ensures MountStep(mount.state).MoveTo? ==>
        h'.db == PutMount(h.db, mount.(state := MountStep(mount.state).next)) && out == Completed
    {
      match MountStep(mount.state)
      case Stay =>
        return h, Completed;
      case MoveTo(next) =>
        h' := h.(db := PutMount(h.db, mount.(state := next)));
        out := Completed;
      case Reject =>
        return h, Threw(InvalidMountState);
    }

    /** EndMount. An unknown ROM, an empty current mount id or a missing mount
        record: nothing happens. Otherwise the mount goes through UnmountStep;
        only an open mount changes, to closed. The ROM is never touched. */
    method EndMount(h: Host, romCid: string) returns (h': Host, out: Outcome)
      ensures h'.disk == h.disk && h'.pool == h.pool
      ensures !Linked(h.db, romCid) ==> h' == h && out == Completed
      ensures Linked(h.db, romCid) ==>
        var m := FindMount(h.db, FindRom(h.db, romCid).value.currentMountId).value;
        && (out.Threw? <==> m.state == MountState.Unknown)
        && (out.Threw? ==> out.error == InvalidMountState)
        && h'.db == (if m.state == OpenInUse then PutMount(h.db, m.(state := ClosedNotUsed)) else h.db)
      ensures FindRom(h'.db, romCid) == FindRom(h.db, romCid)
      ensures Linked(h'.db, romCid) == Linked(h.db, romCid)
      ensures DownloadsKept(h.db, h'.db)
    {
      var found := FindRom(h.db, romCid);
      if found.None? || found.value.currentMountId == "" {
        return h, Completed;
      }
      var mount := FindMount(h.db, found.value.currentMountId);
      if mount.None? {
        return h, Completed;
      }
      var m := mount.value;
      match UnmountStep(m.state)
      case Stay =>
        return h, Completed;
      case MoveTo(next) =>
        h' := h.(db := PutMount(h.db, m.(state := next)));
        out := Completed;
      case Reject =>
        return h, Threw(InvalidMountState);
    }
  }
}
