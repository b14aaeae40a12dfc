/**
 * server/Services/MapperService.cs: the ROM view the client sees. A ROM
 * record is projected together with the state and expiry of its current
 * mount; a cid with no ROM record maps to nothing.
 */
module Mapper {
  import opened Outcomes
  import opened Utils
  import opened Entities
  import opened Mounts

  /** The view of one ROM (class `Rom`). Times are Unix milliseconds. */
  datatype Rom = Rom(
    romCid: string,
    mountState: MountState,
    info: RomInfo,
    entries: seq<FileEntry>,
    mountExpiryUtc: int,
    storageExpiryUtc: int)

  /** GetMountState: the current mount's state; `ClosedNotUsed` when the ROM
      names no mount or its mount record is gone. */
  function GetMountState(db: Store, rom: DbRom): (r: MountState)
    ensures rom.currentMountId == "" || FindMount(db, rom.currentMountId).None? ==> r == ClosedNotUsed
    ensures rom.currentMountId != "" && FindMount(db, rom.currentMountId).Some? ==>
      r == FindMount(db, rom.currentMountId).value.state
  {
    if rom.currentMountId == "" then ClosedNotUsed
    else match FindMount(db, rom.currentMountId)
      case None => ClosedNotUsed
      case Some(m) => m.state
  }

  /** GetMountExpiry: the current mount's expiry; 0 in the same two cases. */
  function GetMountExpiry(db: Store, rom: DbRom): (r: int)
    ensures rom.currentMountId == "" || FindMount(db, rom.currentMountId).None? ==> r == 0
    ensures rom.currentMountId != "" && FindMount(db, rom.currentMountId).Some? ==>
      r == ToUnixTimestamp(FindMount(db, rom.currentMountId).value.expiryUtc)
  {
    if rom.currentMountId == "" then 0
    else match FindMount(db, rom.currentMountId)
      case None => 0
      case Some(m) => ToUnixTimestamp(m.expiryUtc)
  }

  /** Map(romCid): the view of the ROM record under that cid, if any. */
  function MapRom(db: Store, romCid: string): (r: Option<Rom>)
    ensures r.Some? <==> FindRom(db, romCid).Some?
    ensures r.Some? ==>
      var rom := FindRom(db, romCid).value;
      && r.value.romCid == romCid
      && r.value.info == rom.info && r.value.entries == rom.files
      && r.value.storageExpiryUtc == ToUnixTimestamp(rom.storageExpireUtc)
  {
    match FindRom(db, romCid)
    case None => None
    case Some(rom) =>
      Some(Rom(romCid, GetMountState(db, rom), rom.info, rom.files,
               GetMountExpiry(db, rom), ToUnixTimestamp(rom.storageExpireUtc)))
  }

  /** Map(romCids): the views of the cids that have a ROM record, in input order. */
  function MapAll(db: Store, romCids: seq<string>): (r: seq<Rom>)
    ensures |r| <= |romCids|
    ensures forall v :: v in r ==> v.romCid in romCids && MapRom(db, v.romCid) == Some(v)
  {
    if romCids == [] then []
    else
      (match MapRom(db, romCids[0]) case None => [] case Some(v) => [v])
      + MapAll(db, romCids[1..])
  }

  /** A linked ROM shows its mount's state and expiry; any other ROM shows a
      closed mount that never expires (0). */
  lemma MountView(db: Store, romCid: string)
    requires FindRom(db, romCid).Some?
    ensures var v := MapRom(db, romCid).value;
      && (Linked(db, romCid) ==>
            var m := FindMount(db, FindRom(db, romCid).value.currentMountId).value;
            v.mountState == m.state && v.mountExpiryUtc == ToUnixTimestamp(m.expiryUtc))
      && (!Linked(db, romCid) ==> v.mountState == ClosedNotUsed && v.mountExpiryUtc == 0)
  {
  }

  /** Mapping a concatenation maps each part: the order of the input is kept. */
  lemma {:induction false} MapAllAppend(db: Store, a: seq<string>, b: seq<string>)
    ensures MapAll(db, a + b) == MapAll(db, a) + MapAll(db, b)
  {
    if a == [] {
      assert a + b == b;
    } else {
      assert (a + b)[0] == a[0] && (a + b)[1..] == a[1..] + b;
      MapAllAppend(db, a[1..], b);
    }
  }

  /** When every cid has a ROM record nothing is dropped: the i-th view is the
      view of the i-th cid. */
  lemma {:induction false} MapAllKnown(db: Store, romCids: seq<string>)
    requires forall i :: 0 <= i < |romCids| ==> FindRom(db, romCids[i]).Some?
    ensures |MapAll(db, romCids)| == |romCids|
    ensures forall i :: 0 <= i < |romCids| ==> Some(MapAll(db, romCids)[i]) == MapRom(db, romCids[i])
  {
    if romCids != [] {
      MapAllKnown(db, romCids[1..]);
    }
  }

  /** Every listed cid that has a ROM record is answered. */
  lemma {:induction false} MapAllContains(db: Store, romCids: seq<string>, romCid: string)
    requires romCid in romCids && FindRom(db, romCid).Some?
    ensures MapRom(db, romCid).value in MapAll(db, romCids)
  {
    if romCids[0] != romCid {
      MapAllContains(db, romCids[1..], romCid);
    }
  }

  /** A ROM whose download just finished shows an open mount that expires
      three hours after the download completed. */
  lemma DownloadedRomIsOpen(db: Store, rom: DbRom, mount: DbMount, now: Ticks)
    requires rom.currentMountId == mount.id && mount.id != ""
    ensures var v := MapRom(DownloadFinished(db, rom, mount, now), rom.id);
      && v.Some?
      && v.value.mountState == OpenInUse
      && v.value.mountExpiryUtc == ToUnixTimestamp(now + MountLifetime)
  {
  }
}
