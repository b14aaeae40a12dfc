/**
 * server/Services/CleanupService.cs: the handler the worker runs over every
 * mount record. Each mount goes through three rules in order: an expired open
 * mount is closed, a mount closed for more than three hours past its expiry
 * is queued, and a download that no task is running is closed. `Finish` then
 * deletes the queued records, and after that their directories and zips.
 *
 * `now` is the clock at the time a mount is examined.
 */
module Cleanup {
  import opened Outcomes
  import opened Utils
  import opened Entities
  import opened Platform
  import opened Downloads

  /** `TimeSpan.FromHours(3.0)`: how long a closed mount outlives its expiry. */
  const RetentionAfterExpiry: nat := 3 * TicksPerHour

  /** The rule of CloseOldOpenMount. */
  predicate IsExpiredOpen(m: DbMount, now: Ticks) {
    m.state == OpenInUse && m.expiryUtc < now
  }

  /** The rule of MarkForCleanupOldClosedMount. */
  predicate IsStale(m: DbMount, now: Ticks) {
    m.state == ClosedNotUsed && m.expiryUtc + RetentionAfterExpiry < now
  }

  /** The rule of CloseStuckDownloadingMount. */
  predicate IsStuck(m: DbMount, downloading: bool) {
    m.state == Downloading && !downloading
  }

  /** What the three rules, applied in order, make of one mount. */
  datatype Verdict = Verdict(mount: DbMount, saved: bool, queued: bool)

  /** Only the state ever changes, and only from `OpenInUse` or `Downloading`
      to `ClosedNotUsed`; a mount changes exactly when it is saved. A mount is
      queued iff it is closed (or just closed) and stale; a queued mount is
      `ClosedNotUsed`. */
  function Examine(m: DbMount, now: Ticks, downloading: bool): (v: Verdict)
    ensures v.mount == m.(state := v.mount.state)
    ensures v.saved <==> v.mount != m
    ensures v.saved ==> v.mount.state == ClosedNotUsed && m.state in {OpenInUse, Downloading}
    ensures v.saved <==> IsExpiredOpen(m, now) || IsStuck(m, downloading)
    ensures v.queued <==>
      || IsStale(m, now)
      || (m.state == OpenInUse && m.expiryUtc + RetentionAfterExpiry < now)
    ensures v.queued ==> v.mount.state == ClosedNotUsed
  {
    var closed := IsExpiredOpen(m, now);
    var m1 := if closed then m.(state := ClosedNotUsed) else m;
    var queued := IsStale(m1, now);
    var stuck := IsStuck(m1, downloading);
    var m2 := if stuck then m1.(state := ClosedNotUsed) else m1;
    Verdict(m2, closed || stuck, queued)
  }

  /** An open mount expired more than three hours ago is closed and queued in
      the same pass. */
  lemma LongExpiredOpenIsClosedAndQueued(m: DbMount, now: Ticks, downloading: bool)
    requires m.state == OpenInUse && m.expiryUtc + RetentionAfterExpiry < now
    ensures Examine(m, now, downloading) == Verdict(m.(state := ClosedNotUsed), true, true)
  {
  }

  /** A stuck download is closed but not queued in the same pass: the queue
      rule has already looked at it. */
  lemma StuckDownloadClosedNotQueued(m: DbMount, now: Ticks)
    requires m.state == Downloading
    ensures Examine(m, now, false) == Verdict(m.(state := ClosedNotUsed), true, false)
  {
  }

  /** `Bucket` mounts, mounts being downloaded and unknown mounts are never
      changed or queued. */
  lemma ExamineLeavesAlone(m: DbMount, now: Ticks, downloading: bool)
    requires m.state == Bucket || m.state == MountState.Unknown || (m.state == Downloading && downloading)
    ensures Examine(m, now, downloading) == Verdict(m, false, false)
  {
  }

  /** The store after the queued mount records are deleted, first to last. */
  function RemoveMounts(db: Store, queue: seq<DbMount>): (r: Store)
    ensures forall i :: 0 <= i < |queue| ==> Key(MountKind, queue[i].id) !in r
    ensures forall k :: (forall i :: 0 <= i < |queue| ==> k != Key(MountKind, queue[i].id)) ==>
      (k in r <==> k in db) && (k in db ==> r[k] == db[k])
    decreases |queue|
  {
    if queue == [] then db
    else RemoveMounts(Remove(db, MountKind, queue[0].id), queue[1..])
  }

  function QueuedPaths(queue: seq<DbMount>): set<string> {
    set i | 0 <= i < |queue| :: queue[i].path
  }

  function QueuedZips(queue: seq<DbMount>): set<string> {
    set i | 0 <= i < |queue| :: GetZipFilePath(queue[i])
  }

  /** The mount directories, less the removed ones. */
  function WithoutDirs(dirs: map<string, seq<FileEntry>>, gone: set<string>): (r: map<string, seq<FileEntry>>)
    ensures forall p :: p in r <==> p in dirs && p !in gone
    ensures forall p :: p in r ==> r[p] == dirs[p]
  {
    map p | p in dirs && p !in gone :: dirs[p]
  }

  class CleanupContext {
    const downloads: DownloadService
    /** The mounts queued for deletion, in the order they were examined. */
    var toCleanup: seq<DbMount>

    constructor (downloads: DownloadService)
      ensures this.downloads == downloads && toCleanup == []
    {
      this.downloads := downloads;
      toCleanup := [];
    }

    /** CloseOldOpenMount */
    method CloseOldOpenMount(h: Host, mount: DbMount, now: Ticks) returns (h': Host, mount': DbMount)
      ensures IsExpiredOpen(mount, now) ==>
        mount' == mount.(state := ClosedNotUsed) && h' == h.(db := PutMount(h.db, mount'))
      ensures !IsExpiredOpen(mount, now) ==> mount' == mount && h' == h
    {
      h', mount' := h, mount;
      if mount.state == OpenInUse && mount.expiryUtc < now {
        mount' := mount.(state := ClosedNotUsed);
        h' := h.(db := PutMount(h.db, mount'));
      }
    }

    /** MarkForCleanupOldClosedMount */
    method MarkForCleanupOldClosedMount(mount: DbMount, now: Ticks)
      modifies this`toCleanup
      ensures toCleanup == old(toCleanup) + (if IsStale(mount, now) then [mount] else [])
    {
      if mount.state == ClosedNotUsed && mount.expiryUtc + RetentionAfterExpiry < now {
        toCleanup := toCleanup + [mount];
      }
    }

    /** CloseStuckDownloadingMount */
    method CloseStuckDownloadingMount(h: Host, mount: DbMount) returns (h': Host, mount': DbMount)
      ensures IsStuck(mount, downloads.IsDownloading(mount.id)) ==>
        mount' == mount.(state := ClosedNotUsed) && h' == h.(db := PutMount(h.db, mount'))
      ensures !IsStuck(mount, downloads.IsDownloading(mount.id)) ==> mount' == mount && h' == h
    {
      h', mount' := h, mount;
      if mount.state == Downloading && !downloads.IsDownloading(mount.id) {
        mount' := mount.(state := ClosedNotUsed);
        h' := h.(db := PutMount(h.db, mount'));
      }
    }

    /** OnEntity: the three rules in order, each seeing what the one before
        made of the mount. The mount is saved when a rule changed it and
        queued when the second rule matched; nothing else changes. */
    method OnEntity(h: Host, mount: DbMount, now: Ticks) returns (h': Host)
      modifies this`toCleanup
      ensures var v := Examine(mount, now, downloads.IsDownloading(mount.id));
        && h'.disk == h.disk && h'.pool == h.pool
        && h'.db == (if v.saved then PutMount(h.db, v.mount) else h.db)
        && toCleanup == old(toCleanup) + (if v.queued then [v.mount] else [])
    {
      var m1, m2;
      h', m1 := CloseOldOpenMount(h, mount, now);
      MarkForCleanupOldClosedMount(m1, now);
      h', m2 := CloseStuckDownloadingMount(h', m1);
    }

    /** The first loop of Finish: every queued mount record is deleted. */
    method DeleteQueuedRecords(h: Host) returns (h': Host)
      ensures h' == h.(db := RemoveMounts(h.db, toCleanup))
    {
      var i := 0;
      h' := h;
      while i < |toCleanup|
        invariant 0 <= i <= |toCleanup|
        invariant h' == h.(db := h'.db)
        invariant RemoveMounts(h'.db, toCleanup[i..]) == RemoveMounts(h.db, toCleanup)
      {
        assert toCleanup[i..][1..] == toCleanup[i + 1..];
        h' := h'.(db := Remove(h'.db, MountKind, toCleanup[i].id));
        i := i + 1;
      }
    }

    /** The second loop of Finish: each queued mount's directory (with
        everything in it) and its zip archive are deleted where they exist. */
    method DeleteQueuedFiles(h: Host) returns (h': Host)
      ensures h'.db == h.db && h'.pool == h.pool
      ensures h'.disk.dirs == WithoutDirs(h.disk.dirs, QueuedPaths(toCleanup))
      ensures h'.disk.files == h.disk.files - QueuedZips(toCleanup)
    {
      var i := 0;
      h' := h;
      while i < |toCleanup|
        invariant 0 <= i <= |toCleanup|
        invariant h'.db == h.db && h'.pool == h.pool
        invariant h'.disk.dirs == WithoutDirs(h.disk.dirs, QueuedPaths(toCleanup[..i]))
        invariant h'.disk.files == h.disk.files - QueuedZips(toCleanup[..i])
      {
        var item := toCleanup[i];
        assert QueuedPaths(toCleanup[..i + 1]) == QueuedPaths(toCleanup[..i]) + {item.path} by {
          assert forall j :: 0 <= j < i ==> toCleanup[..i + 1][j] == toCleanup[..i][j];
          assert toCleanup[..i + 1][i] == item;
        }
        assert QueuedZips(toCleanup[..i + 1]) == QueuedZips(toCleanup[..i]) + {GetZipFilePath(item)} by {
          assert forall j :: 0 <= j < i ==> toCleanup[..i + 1][j] == toCleanup[..i][j];
          assert toCleanup[..i + 1][i] == item;
        }
        if item.path in h'.disk.dirs {
          h' := h'.(disk := h'.disk.(dirs := h'.disk.dirs - {item.path}));
        }
        if GetZipFilePath(item) in h'.disk.files {
          h' := h'.(disk := h'.disk.(files := h'.disk.files - {GetZipFilePath(item)}));
        }
        i := i + 1;
      }
      assert toCleanup[..i] == toCleanup;
    }

    /** Finish: all queued records are deleted before any directory or zip. */
    method Finish(h: Host) returns (h': Host)
      ensures h'.db == RemoveMounts(h.db, toCleanup) && h'.pool == h.pool
      ensures h'.disk.dirs == WithoutDirs(h.disk.dirs, QueuedPaths(toCleanup))
      ensures h'.disk.files == h.disk.files - QueuedZips(toCleanup)
    {
      var h1 := DeleteQueuedRecords(h);
      h' := DeleteQueuedFiles(h1);
    }
  }

  /** After a pass every queued mount has neither a record, a directory nor a zip. */
  lemma FinishLeavesNoTrace(db: Store, disk: Disk, queue: seq<DbMount>, i: nat)
    requires i < |queue|
    ensures FindMount(RemoveMounts(db, queue), queue[i].id).None?
    ensures queue[i].path !in WithoutDirs(disk.dirs, QueuedPaths(queue))
    ensures GetZipFilePath(queue[i]) !in disk.files - QueuedZips(queue)
  {
    assert queue[i].path in QueuedPaths(queue);
    assert GetZipFilePath(queue[i]) in QueuedZips(queue);
  }
}
