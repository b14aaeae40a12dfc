/**
 * The persisted records of server/Services/DatabaseService.cs (DbUser, DbMount,
 * DbRom, DbPopContent and their enums) and the keyed store they live in.
 *
 * The store is a value: a map from (record type, id) to the record. Every
 * service reads it with the Find functions below and writes it with Put and
 * Remove, exactly where the C# code calls `Get<T>`, `Save` and `Delete<T>`.
 * DatabaseService (database.dfy) is proved to act on the records of this map
 * as Put and Remove do, and to answer Get from them.
 */
module Entities {
  import opened Outcomes
  import opened Utils

  /** C# `ulong`. */
  type UInt64 = n: int | 0 <= n < 0x1_0000_0000_0000_0000
  /** C# `int`. */
  type Int32 = n: int | -0x8000_0000 <= n < 0x8000_0000

  /** `n++` on a C# `int` in an unchecked context: wraps from int.MaxValue to int.MinValue. */
  function IncrementInt32(n: Int32): (r: Int32)
    ensures n < 0x7fff_ffff ==> r == n + 1
    ensures n == 0x7fff_ffff ==> r == -0x8000_0000
  {
    if n == 0x7fff_ffff then -0x8000_0000 else n + 1
  }

  datatype MountState = Unknown | Bucket | Downloading | OpenInUse | ClosedNotUsed

  datatype BucketBurnState = Unknown | Open | Starting | Compressing | Uploading | Purchasing | Done

  datatype FileEntry = FileEntry(filename: string, byteSize: UInt64)

  datatype RomInfo = RomInfo(title: string, author: string, tags: string, description: string)

  /** `new RomInfo()`: every field empty. */
  const EmptyRomInfo := RomInfo("", "", "", "")

  datatype DbUser = DbUser(
    id: string,
    username: string,
    bucketMountId: string,
    bucketBurnState: BucketBurnState,
    bucketNewRomCid: string)

  datatype DbMount = DbMount(id: string, path: string, expiryUtc: Ticks, state: MountState)

  datatype DbRom = DbRom(
    id: string,
    info: RomInfo,
    files: seq<FileEntry>,
    storageExpireUtc: Ticks,
    mountCounter: Int32,
    currentMountId: string)
  {
    /** `RomCid` is a property over `Id`. */
    function RomCid(): (cid: string)
      ensures cid == id
    {
      id
    }

    /** The `RomCid` setter writes `Id` and nothing else. */
    function WithRomCid(cid: string): (r: DbRom)
      ensures r.RomCid() == cid && r.id == cid
      ensures r.(id := id) == this
    {
      this.(id := cid)
    }
  }

  datatype DbPopContent = DbPopContent(id: string, romCids: seq<string>, tags: seq<string>)

  /** The entity types; each has its own directory and its own cache. */
  datatype Kind = UserKind | MountKind | RomKind | PopContentKind
  {
    /** `typeof(T).Name.ToLowerInvariant()` */
    function TypeName(): string {
      match this
      case UserKind => "dbuser"
      case MountKind => "dbmount"
      case RomKind => "dbrom"
      case PopContentKind => "dbpopcontent"
    }
  }

  lemma TypeNamesDistinct(a: Kind, b: Kind)
    ensures a.TypeName() == b.TypeName() <==> a == b
  {
  }

  datatype Key = Key(kind: Kind, id: string)

  datatype Entity =
    | UserRecord(user: DbUser)
    | MountRecord(mount: DbMount)
    | RomRecord(rom: DbRom)
    | PopRecord(pop: DbPopContent)
  {
    function Id(): string {
      match this
      case UserRecord(u) => u.id
      case MountRecord(m) => m.id
      case RomRecord(r) => r.id
      case PopRecord(p) => p.id
    }

    function KindOf(): Kind {
      match this
      case UserRecord(_) => UserKind
      case MountRecord(_) => MountKind
      case RomRecord(_) => RomKind
      case PopRecord(_) => PopContentKind
    }

    /** Where `Save` files the entity: its type name and its `Id`. */
    function StoreKey(): Key {
      Key(KindOf(), Id())
    }
  }

  /** The records by (type, id). Every write files a record under its own type
      and id; a read answers only a record filed that way. */
  type Store = map<Key, Entity>

  /** The record under `k` is filed under its own type and id. */
  predicate Holds(db: Store, k: Key) {
    k in db && db[k].StoreKey() == k
  }

  // --- reads: `Get<T>(id)` ---

  function FindUser(db: Store, id: string): (r: Option<DbUser>)
    ensures r.Some? <==> Holds(db, Key(UserKind, id))
    ensures r.Some? ==> db[Key(UserKind, id)] == UserRecord(r.value) && r.value.id == id
  {
    var k := Key(UserKind, id);
    if Holds(db, k) then Some(db[k].user) else None
  }

  function FindMount(db: Store, id: string): (r: Option<DbMount>)
    ensures r.Some? <==> Holds(db, Key(MountKind, id))
    ensures r.Some? ==> db[Key(MountKind, id)] == MountRecord(r.value) && r.value.id == id
  {
    var k := Key(MountKind, id);
    if Holds(db, k) then Some(db[k].mount) else None
  }

  function FindRom(db: Store, id: string): (r: Option<DbRom>)
    ensures r.Some? <==> Holds(db, Key(RomKind, id))
    ensures r.Some? ==> db[Key(RomKind, id)] == RomRecord(r.value) && r.value.id == id
  {
    var k := Key(RomKind, id);
    if Holds(db, k) then Some(db[k].rom) else None
  }

  function FindPop(db: Store, id: string): (r: Option<DbPopContent>)
    ensures r.Some? <==> Holds(db, Key(PopContentKind, id))
    ensures r.Some? ==> db[Key(PopContentKind, id)] == PopRecord(r.value) && r.value.id == id
  {
    var k := Key(PopContentKind, id);
    if Holds(db, k) then Some(db[k].pop) else None
  }

  // --- writes: `Save(e)` and `Delete<T>(id)` ---

  /** `Save`: an upsert under the entity's own type and id. */
  function Put(db: Store, e: Entity): (r: Store)
    ensures Holds(r, e.StoreKey()) && r[e.StoreKey()] == e
    ensures forall k :: k != e.StoreKey() ==> (k in r <==> k in db)
    ensures forall k :: k != e.StoreKey() && k in db ==> r[k] == db[k]
  {
    db[e.StoreKey() := e]
  }

  function PutUser(db: Store, u: DbUser): (r: Store)
    ensures FindUser(r, u.id) == Some(u)
  {
    Put(db, UserRecord(u))
  }

  function PutMount(db: Store, m: DbMount): (r: Store)
    ensures FindMount(r, m.id) == Some(m)
  {
    Put(db, MountRecord(m))
  }

  function PutRom(db: Store, rom: DbRom): (r: Store)
    ensures FindRom(r, rom.id) == Some(rom)
  {
    Put(db, RomRecord(rom))
  }

  /** `Delete<T>(id)`: the record of that type and id is gone, every other one stays. */
  function Remove(db: Store, kind: Kind, id: string): (r: Store)
    ensures Key(kind, id) !in r
    ensures forall k :: k != Key(kind, id) ==> (k in r <==> k in db)
    ensures forall k :: k != Key(kind, id) && k in db ==> r[k] == db[k]
  {
    db - {Key(kind, id)}
  }

  /** Saving twice under one key leaves one record, the latest. */
  lemma PutTwice(db: Store, a: Entity, b: Entity)
    requires a.StoreKey() == b.StoreKey()
    ensures Put(Put(db, a), b) == Put(db, b)
  {
  }

  /** A user, a mount, a ROM and a popular-content record may share an id
      and stay independent: writing one never changes a record of another type. */
  lemma KindsIndependent(db: Store, e: Entity, kind: Kind, id: string)
    requires kind != e.KindOf()
    ensures Key(kind, id) in Put(db, e) <==> Key(kind, id) in db
    ensures Key(kind, id) in db ==> Put(db, e)[Key(kind, id)] == db[Key(kind, id)]
    ensures Key(kind, id) in Remove(db, e.KindOf(), e.Id()) <==> Key(kind, id) in db
  {
  }

  /** The records of one type, by id. */
  ghost function RecordsOf(db: Store, kind: Kind): map<string, Entity> {
    map id | id in (set k | k in db && Holds(db, k) && k.kind == kind :: k.id) :: db[Key(kind, id)]
  }

  /** The records of one type are exactly the records filed under that type,
      each under its own id. */
  lemma RecordsOfAt(db: Store, kind: Kind, id: string)
    ensures id in RecordsOf(db, kind) <==> Holds(db, Key(kind, id))
    ensures id in RecordsOf(db, kind) ==>
      RecordsOf(db, kind)[id] == db[Key(kind, id)] && RecordsOf(db, kind)[id].KindOf() == kind && RecordsOf(db, kind)[id].Id() == id
  {
    if Holds(db, Key(kind, id)) {
      assert Key(kind, id) in db && Key(kind, id).kind == kind;
    }
  }

  /** Saving changes the records of the saved entity's type only, by one upsert. */
  lemma RecordsOfPut(db: Store, e: Entity, kind: Kind)
    ensures RecordsOf(Put(db, e), kind) ==
      if kind == e.KindOf() then RecordsOf(db, kind)[e.Id() := e] else RecordsOf(db, kind)
  {
  }

  /** Deleting changes the records of the deleted type only, by one removal. */
  lemma RecordsOfRemove(db: Store, k: Kind, id: string, kind: Kind)
    ensures RecordsOf(Remove(db, k, id), kind) ==
      if kind == k then RecordsOf(db, kind) - {id} else RecordsOf(db, kind)
  {
  }
}
