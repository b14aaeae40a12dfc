/**
 * server/Services/DownloadService.cs. `LaunchDownload` hands a task to
 * `Task.Run`; tasks run one at a time under `_downloadBurnLock`. A task takes
 * a storage node, registers the mount as busy, fetches the ROM archive to the
 * mount's zip path, extracts it into the mount directory and calls `whenDone`;
 * whatever happens, it then deregisters the mount and releases the node.
 *
 * The queued tasks are `pending`; the task holding the lock is `running`.
 * `StartNext` is the task entering the lock and `FinishRunning` is the body
 * with its `finally`, so other services can run while a download is in
 * progress and see `IsDownloading` true for it.
 */
module Downloads {
  import opened Outcomes
  import opened Utils
  import opened Entities
  import opened Platform

  /** A queued download: the captured ROM and mount and the completion callback,
      which gets the store and the clock when it is finally called. */
  datatype DownloadTask = DownloadTask(rom: DbRom, mount: DbMount, whenDone: (Store, Ticks) -> Store)

  /** The task that holds the lock, and the node it took. */
  datatype Running = Running(task: DownloadTask, node: nat)

  /** `List.Remove`: drops the first occurrence, if any. */
  function RemoveFirst(s: seq<string>, x: string): (r: seq<string>)
    ensures x !in s ==> r == s
    ensures x in s ==> |r| == |s| - 1 && multiset(r) == multiset(s) - multiset{x}
  {
    if s == [] then []
    else
      assert s == [s[0]] + s[1..];
      if s[0] == x then s[1..] else [s[0]] + RemoveFirst(s[1..], x)
  }

  class DownloadService {
    /** `mountsBusyDownloading` */
    var busy: seq<string>
    var pending: seq<DownloadTask>
    var running: Option<Running>

    /** Only the task holding the lock has its mount registered. */
    ghost predicate Valid()
      reads this
    {
      && (running.None? ==> busy == [])
      && (running.Some? ==> busy == [running.value.task.mount.id])
    }

    constructor ()
      ensures Valid() && busy == [] && pending == [] && running == None
    {
      busy := [];
      pending := [];
      running := None;
    }

    /** `LaunchDownload`: queue the task; nothing runs yet. */
    method LaunchDownload(rom: DbRom, mount: DbMount, whenDone: (Store, Ticks) -> Store)
      requires Valid()
      modifies this
      ensures Valid()
      ensures pending == old(pending) + [DownloadTask(rom, mount, whenDone)]
      ensures busy == old(busy) && running == old(running)
    {
      pending := pending + [DownloadTask(rom, mount, whenDone)];
    }

    /** `IsDownloading`: whether the mount is registered as busy. */
    function IsDownloading(mountId: string): (b: bool)
      reads this
      ensures b <==> mountId in busy
      ensures Valid() ==> (b <==> running.Some? && running.value.task.mount.id == mountId)
    {
      mountId in busy
    }

    /** The oldest queued task enters the lock: it takes a node and registers
        its mount. It waits while another task holds the lock, and `TakeNode`
        blocks while no node is free. */
    method StartNext(h: Host) returns (h': Host)
      requires Valid()
      modifies this
      ensures Valid()
      ensures h'.db == h.db && h'.disk == h.disk
      ensures old(running.Some? || pending == [] || h.pool.free == []) ==>
        h' == h && running == old(running) && pending == old(pending)
      ensures old(running.None? && pending != [] && h.pool.free != []) ==>
        && running == Some(Running(old(pending[0]), h.pool.free[0]))
        && pending == old(pending[1..])
        && h'.pool.free == h.pool.free[1..]
        && IsDownloading(old(pending[0]).mount.id)
    {
      h' := h;
      if running.Some? || pending == [] {
        return;
      }
      var taken := TakeNode(h.pool);
      if taken.None? {
        return;
      }
      var task := pending[0];
      pending := pending[1..];
      h' := h.(pool := taken.value.1);
      busy := busy + [task.mount.id];
      running := Some(Running(task, taken.value.0));
    }

    /** `RunDownload`: fetch, extract, then `whenDone`. A failed fetch changes
        nothing; a failed extraction leaves the fetched zip; the callback runs
        only when both have returned. The mount stays registered throughout. */
    method RunDownload(h: Host, rom: DbRom, mount: DbMount, whenDone: (Store, Ticks) -> Store,
                       now: Ticks, fetched: bool, archive: Option<seq<FileEntry>>)
      returns (h': Host, out: Outcome)
      requires IsDownloading(mount.id)
      ensures h'.pool == h.pool
      ensures !fetched ==> h' == h && out == Threw(ExternalFailure)
      ensures fetched ==> h'.disk.files == h.disk.files + {GetZipFilePath(mount)}
      ensures fetched && archive.None? ==> h'.db == h.db && h'.disk.dirs == h.disk.dirs && out == Threw(ExternalFailure)
      ensures fetched && archive.Some? ==>
        && out == Completed
        && h'.db == whenDone(h.db, now)
        && mount.path in h'.disk.dirs
        && h'.disk.dirs[mount.path] == (if mount.path in h.disk.dirs then h.disk.dirs[mount.path] else []) + archive.value
        && h'.disk.dirs == h.disk.dirs[mount.path := h'.disk.dirs[mount.path]]
      ensures out.Threw? ==> h'.db == h.db
    {
      if !fetched {
        return h, Threw(ExternalFailure);
      }
      var disk := h.disk.(files := h.disk.files + {GetZipFilePath(mount)});
      if archive.None? {
        return h.(disk := disk), Threw(ExternalFailure);
      }
      var existing := if mount.path in disk.dirs then disk.dirs[mount.path] else [];
      disk := disk.(dirs := disk.dirs[mount.path := existing + archive.value]);
      h' := Host(whenDone(h.db, now), disk, h.pool);
      out := Completed;
    }

    /** The running task's body and its `finally`: the download runs, then the
        mount is deregistered and the node released, whether or not it threw. */
    method FinishRunning(h: Host, now: Ticks, fetched: bool, archive: Option<seq<FileEntry>>)
      returns (h': Host, out: Outcome)
      requires Valid() && running.Some?
      modifies this
      ensures Valid()
      ensures running == None && busy == [] && pending == old(pending)
      ensures forall id :: !IsDownloading(id)
      ensures h'.pool == ReleaseNode(h.pool, old(running.value.node))
      ensures out.Completed? <==> fetched && archive.Some?
      ensures out.Completed? ==> h'.db == old(running.value.task).whenDone(h.db, now)
      ensures out.Threw? ==> h'.db == h.db
      ensures var m := old(running.value.task.mount);
        && (!fetched ==> h'.disk == h.disk)
        && (fetched ==> h'.disk.files == h.disk.files + {GetZipFilePath(m)})
        && (fetched && archive.None? ==> h'.disk.dirs == h.disk.dirs)
        && (out.Completed? ==>
              && m.path in h'.disk.dirs
              && h'.disk.dirs[m.path] == (if m.path in h.disk.dirs then h.disk.dirs[m.path] else []) + archive.value
              && h'.disk.dirs == h.disk.dirs[m.path := h'.disk.dirs[m.path]])
    {
      var r := running.value;
      var task := r.task;
      var h1;
      h1, out := RunDownload(h, task.rom, task.mount, task.whenDone, now, fetched, archive);
      busy := RemoveFirst(busy, task.mount.id);
      h' := h1.(pool := ReleaseNode(h1.pool, r.node));
      running := None;
    }
  }
}
