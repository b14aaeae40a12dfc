/**
 * server/Services/DatabaseService.cs: one JSON file per record under
 * `/database/<type name>/<id>`, fronted by one CapMap cache per type name.
 *
 * A `Table` is one type's directory together with its cache (what `GetMap`
 * returns for that type name). `Lookup` is what `Get<T>` answers (cache first,
 * then file); `Records` is what the files hold. While every cached record
 * agrees with its file (`Coherent`, kept by every save whose file write
 * succeeds) the two coincide.
 *
 * DatabaseService's Get, Save and Delete act on a store the four tables
 * `Represent` as the Find functions, Put and Remove act on a Store value:
 * Get answers the record the store holds while the caches agree with the
 * files, a save whose file write succeeds turns the store into `Put(db, e)`
 * and a delete turns it into `Remove(db, kind, id)`. Each call touches one
 * table; the other three are left alone by its frame.
 */
module Database {
  import opened Outcomes
  import opened Utils
  import opened Entities

  /** What a record file holds: a record, the JSON literal `null`, or text
      that does not deserialize. */
  datatype Content = Json(entity: Entity) | NullJson | Corrupt

  class Table {
    const kind: Kind
    /** The files of the type directory, by file name (the record id). */
    var files: map<string, Content>
    const cache: CapMap<string, Entity>

    ghost predicate Valid()
      reads this, cache
    {
      && cache.Valid()
      && (forall id :: id in cache.items ==> cache.items[id].StoreKey() == Key(kind, id))
      && (forall id :: id in files && files[id].Json? ==> files[id].entity.StoreKey() == Key(kind, id))
    }

    /** Every cached record is also the content of its file. */
    ghost predicate Coherent()
      reads this, cache
    {
      forall id :: id in cache.items ==> id in files && files[id] == Json(cache.items[id])
    }

    /** What `Get<T>(id)` answers: the cached object, else the file's record. */
    ghost function Lookup(id: string): Option<Entity>
      reads this, cache
    {
      if id in cache.items then Some(cache.items[id])
      else if id in files && files[id].Json? then Some(files[id].entity)
      else None
    }

    /** The records the files hold. */
    ghost function Records(): (m: map<string, Entity>)
      reads this
      ensures forall id :: id in m <==> id in files && files[id].Json?
    {
      map id | id in files && files[id].Json? :: files[id].entity
    }

    /** While the cache agrees with the files, `Get<T>` answers from the files. */
    lemma LookupIsRecord(id: string)
      requires Coherent()
      ensures Lookup(id) == (if id in Records() then Some(Records()[id]) else None)
    {
    }

    constructor (kind: Kind)
      ensures this.kind == kind && Valid() && Coherent() && files == map[]
      ensures fresh(cache) && cache.items == map[]
    {
      this.kind := kind;
      files := map[];
      cache := new CapMap();
    }

    /** `Get<T>(id)`: a cached record is returned as is. Otherwise the file is
        read; a record read is cached, a missing or unreadable file is deleted,
        and `null` is reported as absent. */
    method Get(id: string) returns (r: Option<Entity>)
      requires Valid()
      modifies this, cache
      ensures Valid()
      ensures r == old(Lookup(id))
      ensures r.Some? ==> r.value.StoreKey() == Key(kind, id)
      ensures Records() == old(Records())
      ensures old(Coherent()) ==> Coherent()
      ensures old(id !in cache.items && id in files && files[id].Corrupt?) ==> id !in files
    {
      var cached := cache.TryGetValue(id);
      if cached.Some? {
        return cached;
      }
      if id in files && files[id].Json? {
        var e := files[id].entity;
        cache.Set(id, e);
        r := Some(e);
        assert files == old(files);
      } else if id in files && files[id].NullJson? {
        r := None;
      } else {
        files := files - {id};
        r := None;
        assert Records() == old(Records());
      }
    }

    /** `Save(entity)`: the cache is updated first, then the file is written;
        a failed write is swallowed and leaves the old file in place. */
    method Save(e: Entity, writeOk: bool)
      requires Valid() && e.KindOf() == kind
      modifies this, cache
      ensures Valid()
      ensures Lookup(e.Id()) == Some(e) && cache.TryGetValue(e.Id()) == Some(e)
      ensures writeOk ==> files == old(files)[e.Id() := Json(e)]
      ensures writeOk ==> Records() == old(Records())[e.Id() := e]
      ensures !writeOk ==> files == old(files)
      ensures writeOk && old(Coherent()) ==> Coherent()
    {
      ghost var before := Records();
      cache.Set(e.Id(), e);
      assert e.StoreKey() == Key(kind, e.Id());
      if writeOk {
        files := files[e.Id() := Json(e)];
        assert Records() == before[e.Id() := e];
      }
    }

    /** `Delete<T>(id)`: the cache entry and the file are both gone. */
    method Delete(id: string)
      requires Valid()
      modifies this, cache
      ensures Valid()
      ensures Lookup(id).None?
      ensures files == old(files) - {id}
      ensures Records() == old(Records()) - {id}
      ensures old(Coherent()) ==> Coherent()
    {
      ghost var before := Records();
      cache.ClearKey(id);
      files := files - {id};
      assert Records() == before - {id};
    }

    /** `PassEntity`: the cached copy when there is one, else the file's record;
        `null` and unreadable files give nothing. */
    method PassEntity(id: string) returns (r: Option<Entity>)
      requires Valid()
      ensures r == Lookup(id)
    {
      r := cache.TryGetValue(id);
      if r.None? && id in files && files[id].Json? {
        r := Some(files[id].entity);
      }
    }

    /** `Iterate<T>(onEntity)`: the records handed to `onEntity`, in the order
        the directory lists its files. Each file is visited at most once; a file
        that fails to load is skipped without ending the pass. */
    method Iterate() returns (passed: seq<Entity>)
      requires Valid()
      ensures forall i :: 0 <= i < |passed| ==>
        passed[i].Id() in files && Lookup(passed[i].Id()) == Some(passed[i])
      ensures forall i, j :: 0 <= i < j < |passed| ==> passed[i].Id() != passed[j].Id()
      ensures forall id :: id in files && Lookup(id).Some? ==> Lookup(id).value in passed
    {
      var remaining := files.Keys;
      ghost var seen: set<string> := {};
      passed := [];
      while remaining != {}
        invariant remaining !! seen && remaining + seen == files.Keys
        invariant forall i :: 0 <= i < |passed| ==> passed[i].Id() in seen
        invariant forall i :: 0 <= i < |passed| ==> Lookup(passed[i].Id()) == Some(passed[i])
        invariant forall i, j :: 0 <= i < j < |passed| ==> passed[i].Id() != passed[j].Id()
        invariant forall id :: id in seen && Lookup(id).Some? ==> Lookup(id).value in passed
        decreases remaining
      {
        var id :| id in remaining;
        var entity := PassEntity(id);
        if entity.Some? {
          passed := passed + [entity.value];
        }
        remaining := remaining - {id};
        seen := seen + {id};
      }
    }
  }

  /** While a table's cache agrees with its files, Iterate hands over exactly
      the records the files hold, one per record. */
  lemma IterateCoversRecords(t: Table, passed: seq<Entity>)
    requires t.Valid() && t.Coherent()
    requires forall i :: 0 <= i < |passed| ==>
      passed[i].Id() in t.files && t.Lookup(passed[i].Id()) == Some(passed[i])
    requires forall id :: id in t.files && t.Lookup(id).Some? ==> t.Lookup(id).value in passed
    ensures forall e: Entity :: e in passed <==> (e.Id() in t.Records() && t.Records()[e.Id()] == e)
  {
    forall e: Entity | e.Id() in t.Records() && t.Records()[e.Id()] == e
      ensures e in passed
    {
      t.LookupIsRecord(e.Id());
    }
    forall e: Entity | e in passed
      ensures e.Id() in t.Records() && t.Records()[e.Id()] == e
    {
      var i :| 0 <= i < |passed| && passed[i] == e;
      t.LookupIsRecord(e.Id());
    }
  }

  /** Upserting a record into its type's records is `Put` on the store. */
  lemma SavedRecords(db: Store, e: Entity, before: map<string, Entity>, after: map<string, Entity>)
    requires before == RecordsOf(db, e.KindOf()) && after == before[e.Id() := e]
    ensures after == RecordsOf(Put(db, e), e.KindOf())
  {
    RecordsOfPut(db, e, e.KindOf());
  }

  /** Dropping an id from its type's records is `Remove` on the store. */
  lemma RemovedRecords(db: Store, kind: Kind, id: string, before: map<string, Entity>, after: map<string, Entity>)
    requires before == RecordsOf(db, kind) && after == before - {id}
    ensures after == RecordsOf(Remove(db, kind, id), kind)
  {
    RecordsOfRemove(db, kind, id, kind);
  }

  /** The four type directories and their caches. */
  class DatabaseService {
    const users: Table
    const mounts: Table
    const roms: Table
    const pops: Table

    /** `GetMap(typename)` and the type directory: both chosen by the type name. */
    function TableOf(kind: Kind): (t: Table)
      reads this
      ensures t in {users, mounts, roms, pops}
    {
      match kind
      case UserKind => users
      case MountKind => mounts
      case RomKind => roms
      case PopContentKind => pops
    }

    ghost function Repr(): set<object>
      reads this
    {
      {users, mounts, roms, pops, users.cache, mounts.cache, roms.cache, pops.cache}
    }

    ghost predicate Valid()
      reads this, Repr()
    {
      && Apart()
      && users.Valid() && mounts.Valid() && roms.Valid() && pops.Valid()
    }

    /** Each table is the one of its type, with a cache of its own. */
    ghost predicate Apart()
      reads this, Repr()
    {
      && users.kind == UserKind && mounts.kind == MountKind
      && roms.kind == RomKind && pops.kind == PopContentKind
      && users.cache != mounts.cache && users.cache != roms.cache && users.cache != pops.cache
      && mounts.cache != roms.cache && mounts.cache != pops.cache && roms.cache != pops.cache
    }

    ghost predicate Coherent()
      reads this, Repr()
    {
      users.Coherent() && mounts.Coherent() && roms.Coherent() && pops.Coherent()
    }

    /** The store is represented by the four tables: each holds the records of its type. */
    ghost predicate Represents(db: Store)
      reads this, Repr()
    {
      forall kind :: TableOf(kind).Records() == RecordsOf(db, kind)
    }

    constructor ()
      ensures Valid() && Coherent()
      ensures users.files == map[] && mounts.files == map[] && roms.files == map[] && pops.files == map[]
    {
      users := new Table(UserKind);
      mounts := new Table(MountKind);
      roms := new Table(RomKind);
      pops := new Table(PopContentKind);
    }

    /** Records of different types never share a directory or a cache, so the
        Get, Save and Delete of one type leave every other type untouched. */
    lemma TypesIndependent(a: Kind, b: Kind)
      requires Valid() && a != b
      ensures TableOf(a) != TableOf(b) && TableOf(a).cache != TableOf(b).cache
    {
    }

    /** No other type's table or cache is the table or cache of `kind`. */
    lemma OthersApart(kind: Kind)
      requires Apart()
      ensures TableOf(kind).kind == kind
      ensures forall k :: k != kind ==> TableOf(k) != TableOf(kind) && TableOf(k).cache != TableOf(kind).cache
    {
    }

    /** A store the tables represent holds, for each type, what that type's
        table holds. */
    lemma TableRecords(db: Store, kind: Kind)
      requires Represents(db)
      ensures TableOf(kind).Records() == RecordsOf(db, kind)
    {
    }

    /** While the tables agree with their caches and represent `db`, a table
        answers what `db` holds under its type. */
    lemma LookupInStore(db: Store, kind: Kind, id: string)
      requires Coherent() && Represents(db)
      ensures var a := TableOf(kind).Lookup(id);
        && (a.Some? <==> Holds(db, Key(kind, id)))
        && (a.Some? ==> a.value == db[Key(kind, id)])
    {
      TableOf(kind).LookupIsRecord(id);
      TableRecords(db, kind);
    }

    /** `Get<T>(id)`: the type's table answers. While the tables agree with
        their caches and represent `db`, the answer is the record `db` holds
        under that type and id, and nothing any `Find` sees changes. */
    method Get(kind: Kind, id: string, ghost db: Store) returns (r: Option<Entity>)
      requires Apart() && TableOf(kind).Valid()
      modifies TableOf(kind), TableOf(kind).cache
      ensures TableOf(kind).Valid()
      ensures r == old(TableOf(kind).Lookup(id))
      ensures old(Coherent()) ==> Coherent()
      ensures TableOf(kind).Records() == old(TableOf(kind).Records())
      ensures old(Coherent() && Represents(db)) ==>
        && (r.Some? <==> Holds(db, Key(kind, id)))
        && (r.Some? ==> r.value == db[Key(kind, id)])
    {
      var t := TableOf(kind);
      OthersApart(kind);
      ghost var found := Coherent() && Represents(db);
      if found {
        LookupInStore(db, kind, id);
      }
      r := t.Get(id);
    }

    /** `Save(entity)`: the entity's table saves it. A save whose file write
        succeeds turns a represented `db` into `Put(db, entity)` and keeps the
        caches in agreement; a failed write changes no file. */
    method Save(e: Entity, writeOk: bool, ghost db: Store)
      requires Apart() && TableOf(e.KindOf()).Valid()
      modifies TableOf(e.KindOf()), TableOf(e.KindOf()).cache
      ensures TableOf(e.KindOf()).Valid()
      ensures TableOf(e.KindOf()).Lookup(e.Id()) == Some(e)
      ensures !writeOk ==> TableOf(e.KindOf()).files == old(TableOf(e.KindOf()).files)
      ensures writeOk && old(Coherent()) ==> Coherent()
      ensures writeOk && old(Represents(db)) ==> Represents(Put(db, e))
    {
      var t := TableOf(e.KindOf());
      OthersApart(e.KindOf());
      ghost var represented := Represents(db);
      ghost var before := t.Records();
      t.Save(e, writeOk);
      if writeOk && represented {
        SavedRecords(db, e, before, t.Records());
        forall kind | kind != e.KindOf() ensures TableOf(kind).Records() == RecordsOf(Put(db, e), kind) {
          RecordsOfPut(db, e, kind);
        }
      }
    }

    /** `Delete<T>(id)`: the type's table forgets the record, turning a
        represented `db` into `Remove(db, kind, id)`. */
    method Delete(kind: Kind, id: string, ghost db: Store)
      requires Apart() && TableOf(kind).Valid()
      modifies TableOf(kind), TableOf(kind).cache
      ensures TableOf(kind).Valid()
      ensures TableOf(kind).Lookup(id).None?
      ensures old(Coherent()) ==> Coherent()
      ensures old(Represents(db)) ==> Represents(Remove(db, kind, id))
    {
      var t := TableOf(kind);
      OthersApart(kind);
      ghost var represented := Represents(db);
      ghost var before := t.Records();
      t.Delete(id);
      if represented {
        RemovedRecords(db, kind, id, before, t.Records());
        forall k | k != kind ensures TableOf(k).Records() == RecordsOf(Remove(db, kind, id), k) {
          RecordsOfRemove(db, kind, id, k);
        }
      }
    }
  }
}
