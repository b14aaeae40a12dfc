/**
 * What the services touch outside the entity store: the file system, the pool
 * of storage nodes and the configuration, plus `Path.Combine` and the two
 * mount path helpers of server/Services/BurnService.cs (DbMountExtensions).
 */
module Platform {
  import opened Outcomes
  import opened Utils
  import opened Entities

  // ---------------------------------------------------------------------
  // Paths
  // ---------------------------------------------------------------------

  /** `Path.Combine(a, b)` on Unix: a rooted `b` replaces `a`, otherwise one
      separator joins them. */
  function Combine(a: string, b: string): (p: string)
    ensures b != [] ==> |p| >= |b| && p[|p| - |b|..] == b
    ensures b == [] ==> p == a
    ensures a != [] && a[|a| - 1] != '/' && b != [] && b[0] != '/' ==> p == a + "/" + b
  {
    if b == [] then a
    else if a == [] then b
    else if b[0] == '/' then b
    else if a[|a| - 1] == '/' then a + b
    else a + "/" + b
  }

  const MountsRoot: string := "/mounts"
  const InfoFileName: string := "__UltraDataBurningROM__.json"

  /** DbMountExtensions.GetZipFilePath: `./zips/__<lower-case id>.zip`. */
  function GetZipFilePath(m: DbMount): (p: string)
    ensures p == "./zips/__" + ToLowerInvariant(m.id) + ".zip"
    ensures p[..2] == "./"
  {
    "./zips/__" + ToLowerInvariant(m.id) + ".zip"
  }

  /** DbMountExtensions.GetInfoJsonFilePath: the info file inside the mount directory. */
  function GetInfoJsonFilePath(m: DbMount): (p: string)
    ensures m.path != [] && m.path[|m.path| - 1] != '/' ==> p == m.path + "/" + InfoFileName
  {
    Combine(m.path, InfoFileName)
  }

  /** The zip archive of a mount never lies inside a rooted mount directory:
      it is relative to the working directory (`./zips`). */
  lemma ZipOutsideMount(m: DbMount)
    requires m.path != [] && m.path[0] == '/'
    ensures !(|m.path| <= |GetZipFilePath(m)| && GetZipFilePath(m)[..|m.path|] == m.path)
  {
    var z := GetZipFilePath(m);
    assert z[0] == '.';
  }

  /** The zip path and the info-file path of a rooted mount differ even ignoring case. */
  lemma SystemFilesDistinct(m: DbMount)
    requires m.path != [] && m.path[0] == '/'
    ensures ToLowerInvariant(GetZipFilePath(m)) != ToLowerInvariant(GetInfoJsonFilePath(m))
  {
    var z := ToLowerInvariant(GetZipFilePath(m));
    var i := GetInfoJsonFilePath(m);
    assert z[0] == '.';
    assert i[0] == '/';
    assert ToLowerInvariant(i)[0] == '/';
  }

  // ---------------------------------------------------------------------
  // File system
  // ---------------------------------------------------------------------

  /** `dirs` maps each directory to its files in listing order; `files` holds the
      files that live outside any modelled directory (the zip archives). */
  datatype Disk = Disk(dirs: map<string, seq<FileEntry>>, files: set<string>)
  {
    /** `File.Exists(Path.Combine(dir, name))` for a file of a modelled directory. */
    predicate HasEntry(dir: string, name: string) {
      dir in dirs && exists i :: 0 <= i < |dirs[dir]| && dirs[dir][i].filename == name
    }
  }

  /** The listing without any entry called `name` (`RemoveAll`, `File.Delete`). */
  function WithoutName(entries: seq<FileEntry>, name: string): (r: seq<FileEntry>)
    ensures forall i :: 0 <= i < |r| ==> r[i].filename != name
    ensures forall e :: e in r <==> e in entries && e.filename != name
    ensures |r| <= |entries|
  {
    if entries == [] then []
    else (if entries[0].filename == name then [] else [entries[0]]) + WithoutName(entries[1..], name)
  }

  /** `File.Delete` of one file in a directory: no other file is touched. */
  function DeleteEntry(d: Disk, dir: string, name: string): (r: Disk)
    ensures r.files == d.files && r.dirs.Keys == d.dirs.Keys
    ensures !r.HasEntry(dir, name)
    ensures forall p :: p in d.dirs && p != dir ==> r.dirs[p] == d.dirs[p]
    ensures dir in d.dirs ==> r.dirs[dir] == WithoutName(d.dirs[dir], name)
  {
    if dir in d.dirs then d.(dirs := d.dirs[dir := WithoutName(d.dirs[dir], name)]) else d
  }

  /** `File.WriteAllText` into an existing directory: the file is created or replaced. */
  function WriteEntry(d: Disk, dir: string, e: FileEntry): (r: Disk)
    requires dir in d.dirs
    ensures r.files == d.files && r.dirs.Keys == d.dirs.Keys
    ensures r.HasEntry(dir, e.filename)
    ensures r.dirs[dir] == WithoutName(d.dirs[dir], e.filename) + [e]
    ensures forall p :: p in d.dirs && p != dir ==> r.dirs[p] == d.dirs[p]
  {
    var entries := WithoutName(d.dirs[dir], e.filename) + [e];
    assert entries[|entries| - 1] == e;
    d.(dirs := d.dirs[dir := entries])
  }

  lemma {:induction false} WithoutNameAppend(a: seq<FileEntry>, b: seq<FileEntry>, name: string)
    ensures WithoutName(a + b, name) == WithoutName(a, name) + WithoutName(b, name)
  {
    if a != [] {
      assert (a + b)[1..] == a[1..] + b;
      WithoutNameAppend(a[1..], b, name);
    } else {
      assert a + b == b;
    }
  }

  lemma {:induction false} WithoutNameTwice(entries: seq<FileEntry>, name: string)
    ensures WithoutName(WithoutName(entries, name), name) == WithoutName(entries, name)
  {
    if entries != [] {
      WithoutNameTwice(entries[1..], name);
      WithoutNameAppend(if entries[0].filename == name then [] else [entries[0]], WithoutName(entries[1..], name), name);
    }
  }

  /** Writing a file and then deleting it leaves the directory as deleting it
      alone would: every entry of that name is gone and the rest stay in order. */
  lemma DeleteAfterWrite(d: Disk, dir: string, e: FileEntry, files: set<string>)
    requires dir in d.dirs
    ensures DeleteEntry(WriteEntry(d, dir, e).(files := files), dir, e.filename) == DeleteEntry(d.(files := files), dir, e.filename)
  {
    var kept := WithoutName(d.dirs[dir], e.filename);
    WithoutNameAppend(kept, [e], e.filename);
    WithoutNameTwice(d.dirs[dir], e.filename);
    assert WithoutName([e], e.filename) == [];
    assert WithoutName(kept + [e], e.filename) == kept;
  }

  /** `Directory.CreateDirectory`: a no-op for a directory that exists. */
  function CreateDirectory(d: Disk, dir: string): (r: Disk)
    ensures r.files == d.files && r.dirs.Keys == d.dirs.Keys + {dir}
    ensures forall p :: p in d.dirs ==> r.dirs[p] == d.dirs[p]
    ensures dir !in d.dirs ==> r.dirs[dir] == []
  {
    if dir in d.dirs then d else d.(dirs := d.dirs[dir := []])
  }

  // ---------------------------------------------------------------------
  // Fresh ids
  // ---------------------------------------------------------------------

  /** The text of `Guid.NewGuid().ToString().ToLowerInvariant()`: 32 lower-case
      hex digits in groups of 8-4-4-4-12 joined by '-'. */
  predicate IsGuidText(s: string) {
    && |s| == 36
    && forall i :: 0 <= i < 36 ==>
      if i in {8, 13, 18, 23} then s[i] == '-' else ('0' <= s[i] <= '9' || 'a' <= s[i] <= 'f')
  }

  type Guid = s: string | IsGuidText(s) witness "00000000-0000-0000-0000-000000000000"

  /** A guid is already lower case and holds no path separator. */
  lemma GuidShape(g: Guid)
    ensures ToLowerInvariant(g) == g
    ensures g != [] && g[0] != '/' && '/' !in g
  {
    assert forall i :: 0 <= i < |g| ==> !('A' <= g[i] <= 'Z');
    assert ToLowerInvariant(g) == g;
    assert forall c :: c in g ==> c != '/' by {
      forall c | c in g ensures c != '/' {
        var i :| 0 <= i < |g| && g[i] == c;
      }
    }
  }

  // ---------------------------------------------------------------------
  // Storage nodes
  // ---------------------------------------------------------------------

  /** The free storage nodes. `TakeNode` blocks until one is free, `ReleaseNode`
      hands one back. */
  datatype Pool = Pool(free: seq<nat>)

  function TakeNode(p: Pool): (r: Option<(nat, Pool)>)
    ensures r.None? <==> p.free == []
    ensures r.Some? ==> [r.value.0] + r.value.1.free == p.free
  {
    if p.free == [] then None else Some((p.free[0], Pool(p.free[1..])))
  }

  function ReleaseNode(p: Pool, node: nat): (r: Pool)
    ensures multiset(r.free) == multiset(p.free) + multiset{node}
  {
    Pool(p.free + [node])
  }

  /** Taking a node and releasing it keeps the same nodes free. */
  lemma TakeReleaseKeepsNodes(p: Pool)
    requires p.free != []
    ensures multiset(ReleaseNode(TakeNode(p).value.1, TakeNode(p).value.0).free) == multiset(p.free)
  {
    var t := TakeNode(p).value;
    assert p.free == [t.0] + t.1.free;
  }

  /** A storage node's answer to `PurchaseStorage`. */
  datatype PurchaseResponse = PurchaseResponse(purchaseCid: string, finishUtc: Ticks)

  /** `EnvConfig`: BROM_ROMVOLUMESIZE and the BROM_USERNAMES allow-list. */
  datatype Config = Config(volumeSize: UInt64, knownUsers: seq<string>)

  /** Everything a service call may read or change besides its own fields. */
  datatype Host = Host(db: Store, disk: Disk, pool: Pool)
}
