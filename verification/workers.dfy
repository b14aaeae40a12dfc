/**
 * server/Services/WorkerService.cs: the background pass over the store. A
 * service attaches a handler creator for one record type; the creators of a
 * type share one job. Every pass runs the jobs in the order they were first
 * attached. A job makes a fresh handler from each creator, initializes all
 * of them, hands every record of its type to every handler, record by record,
 * and then finishes all of them.
 *
 * The handlers themselves are the contexts of the cleanup, popular-content
 * and search services; here a job's run is recorded as the sequence of
 * calls it makes on its handlers, by handler index.
 */
module Workers {
  import opened Outcomes
  import opened Utils
  import opened Entities
  import opened Database

  /** `TimeSpan.FromMinutes(30.0)` between passes, in ticks. */
  const UpdateFrequency: nat := TicksPerHour / 2

  /** Which handler creator (`Func<IWorkHandler<T>>`) a service attached. */
  type CreatorId = string

  /** What a job does with a handler: make it, or call one of its methods. */
  datatype Call = Create | Initialize | OnEntity(entity: Entity) | Finish

  /** One call, on the handler made from creator number `handler`. */
  datatype Event = Event(call: Call, handler: int)

  // ---------------------------------------------------------------------
  // The calls of one run
  // ---------------------------------------------------------------------

  /** The same call on handlers 0 to k - 1, in order (a `foreach` over the
      handlers). */
  function Row(k: nat, call: Call): (r: seq<Event>)
    ensures |r| == k
    ensures forall j :: 0 <= j < k ==> r[j] == Event(call, j)
  {
    if k == 0 then [] else Row(k - 1, call) + [Event(call, k - 1)]
  }

  /** The Iterate callback over the records passed, in order: each record to
      every handler before the next record. */
  function OfferAll(n: nat, passed: seq<Entity>): seq<Event> {
    if passed == [] then []
    else OfferAll(n, passed[..|passed| - 1]) + Row(n, OnEntity(passed[|passed| - 1]))
  }

  /** Job.Run over the records passed, with `n` creators: make the handlers,
      initialize them all, offer the records, finish them all. */
  function RunTrace(n: nat, passed: seq<Entity>): seq<Event> {
    Row(n, Create) + Row(n, Initialize) + OfferAll(n, passed) + Row(n, Finish)
  }

  /** The phase an event belongs to. */
  function Phase(e: Event): (p: nat)
    ensures p <= 3
  {
    match e.call
    case Create => 0
    case Initialize => 1
    case OnEntity(_) => 2
    case Finish => 3
  }

  /** The method calls made on handler `i`, in order. */
  function CallsOn(trace: seq<Event>, i: int): (r: seq<Call>)
    ensures |r| <= |trace|
  {
    if trace == [] then []
    else
      var last := trace[|trace| - 1];
      CallsOn(trace[..|trace| - 1], i) + (if last.handler == i && !last.call.Create? then [last.call] else [])
  }

  /** The records passed, as calls. */
  function Offers(passed: seq<Entity>): (r: seq<Call>)
    ensures |r| == |passed|
    ensures forall k :: 0 <= k < |passed| ==> r[k] == OnEntity(passed[k])
  {
    if passed == [] then [] else Offers(passed[..|passed| - 1]) + [OnEntity(passed[|passed| - 1])]
  }

  lemma {:induction false} CallsOnAppend(a: seq<Event>, b: seq<Event>, i: int)
    ensures CallsOn(a + b, i) == CallsOn(a, i) + CallsOn(b, i)
  {
    if b == [] {
      assert a + b == a;
    } else {
      var b' := b[..|b| - 1];
      assert (a + b)[..|a + b| - 1] == a + b';
      assert (a + b)[|a + b| - 1] == b[|b| - 1];
      CallsOnAppend(a, b', i);
    }
  }

  /** In a row, handler `i` is called once if it is in the row and the call
      is not the making of handlers. */
  lemma {:induction false} CallsOnRow(k: nat, call: Call, i: int)
    ensures CallsOn(Row(k, call), i) == if 0 <= i < k && !call.Create? then [call] else []
  {
    if k > 0 {
      CallsOnRow(k - 1, call, i);
      CallsOnAppend(Row(k - 1, call), [Event(call, k - 1)], i);
      assert [Event(call, k - 1)][..0] == [];
    }
  }

  lemma {:induction false} CallsOnOfferAll(n: nat, passed: seq<Entity>, i: int)
    requires 0 <= i < n
    ensures CallsOn(OfferAll(n, passed), i) == Offers(passed)
  {
    if passed != [] {
      var init := passed[..|passed| - 1];
      var e := passed[|passed| - 1];
      CallsOnOfferAll(n, init, i);
      CallsOnAppend(OfferAll(n, init), Row(n, OnEntity(e)), i);
      CallsOnRow(n, OnEntity(e), i);
    }
  }

  /** Every handler of a run is initialized, is offered every record passed
      in the order they were passed, and is then finished; nothing else is
      called on it. */
  lemma RunTraceHandlerView(n: nat, passed: seq<Entity>, i: int)
    requires 0 <= i < n
    ensures CallsOn(RunTrace(n, passed), i) == [Initialize] + Offers(passed) + [Finish]
  {
    var made, started, offered, finished := Row(n, Create), Row(n, Initialize), OfferAll(n, passed), Row(n, Finish);
    CallsOnRow(n, Create, i);
    CallsOnRow(n, Initialize, i);
    CallsOnRow(n, Finish, i);
    CallsOnOfferAll(n, passed, i);
    CallsOnAppend(made, started, i);
    assert CallsOn(made + started, i) == [Initialize];
    CallsOnAppend(made + started, offered, i);
    assert CallsOn(made + started + offered, i) == [Initialize] + Offers(passed);
    CallsOnAppend(made + started + offered, finished, i);
  }

  lemma {:induction false} OfferAllPhase(n: nat, passed: seq<Entity>)
    ensures forall k :: 0 <= k < |OfferAll(n, passed)| ==> Phase(OfferAll(n, passed)[k]) == 2
  {
    if passed != [] {
      OfferAllPhase(n, passed[..|passed| - 1]);
    }
  }

  /** All handlers are made before any is initialized, all are initialized
      before any record is offered, and no handler is finished before every
      record has been offered to every handler. */
  lemma RunTracePhasesOrdered(n: nat, passed: seq<Entity>)
    ensures forall a, b :: 0 <= a < b < |RunTrace(n, passed)| ==>
      Phase(RunTrace(n, passed)[a]) <= Phase(RunTrace(n, passed)[b])
  {
    var t := RunTrace(n, passed);
    var offers := OfferAll(n, passed);
    OfferAllPhase(n, passed);
    var m := |offers|;
    forall k | 0 <= k < |t|
      ensures Phase(t[k]) == if k < n then 0 else if k < 2 * n then 1 else if k < 2 * n + m then 2 else 3
    {
      if 2 * n <= k < 2 * n + m {
        assert t[k] == offers[k - 2 * n];
      }
    }
  }

  // ---------------------------------------------------------------------
  // Jobs
  // ---------------------------------------------------------------------

  /** The records `Get<T>` would load from a table holding `files` and
      caching `cached`: the cached copy, else the file's record. */
  ghost function Loadable(files: map<string, Content>, cached: map<string, Entity>): map<string, Entity> {
    map id | id in files && (id in cached || files[id].Json?) :: if id in cached then cached[id] else files[id].entity
  }

  /** `Loadable` over a table's contents is what its `Lookup` answers for
      each of its files. */
  lemma LoadableIsLookup(table: Table, id: string)
    ensures var m := Loadable(table.files, table.cache.items);
      && (id in m <==> id in table.files && table.Lookup(id).Some?)
      && (id in m ==> m[id] == table.Lookup(id).value)
  {
  }

  /** What Iterate passes: the loadable records, each once, and nothing else. */
  ghost predicate PassesExactly(loadable: map<string, Entity>, passed: seq<Entity>) {
    && (forall e: Entity {:trigger e in passed} :: e in passed <==> e.Id() in loadable && loadable[e.Id()] == e)
    && (forall i, j :: 0 <= i < j < |passed| ==> passed[i].Id() != passed[j].Id())
  }

  /** A run with `n` handler creators over `passed`, which is exactly the
      `loadable` records. */
  ghost predicate RunOver(run: seq<Event>, n: nat, loadable: map<string, Entity>, passed: seq<Entity>) {
    run == RunTrace(n, passed) && PassesExactly(loadable, passed)
  }

  /** Job<T>: the creators attached for one record type, over that type's table. */
  class Job {
    const kind: Kind
    const table: Table
    var listeners: seq<CreatorId>

    constructor (kind: Kind, table: Table)
      ensures this.kind == kind && this.table == table && listeners == []
    {
      this.kind := kind;
      this.table := table;
      listeners := [];
    }

    /** AddHandlerCreator */
    method AddHandlerCreator(creator: CreatorId)
      modifies this`listeners
      ensures listeners == old(listeners) + [creator]
    {
      listeners := listeners + [creator];
    }

    /** Run: one handler per creator; the calls are those of RunTrace over
        what Iterate passed, which is every readable record of the table, each
        once. */
    method Run() returns (trace: seq<Event>, passed: seq<Entity>)
      requires table.Valid()
      ensures RunOver(trace, |listeners|, Loadable(table.files, table.cache.items), passed)
    {
      var n := |listeners|;
      var created := CallAll(n, Create);
      var initialized := CallAll(n, Initialize);
      passed := table.Iterate();
      var offered := OfferEach(n, passed);
      var finished := CallAll(n, Finish);
      trace := created + initialized + offered + finished;
      forall e: Entity | e in passed
        ensures e.Id() in Loadable(table.files, table.cache.items) && Loadable(table.files, table.cache.items)[e.Id()] == e
      {
        var i :| 0 <= i < |passed| && passed[i] == e;
        LoadableIsLookup(table, e.Id());
      }
      forall e: Entity | e.Id() in Loadable(table.files, table.cache.items) && Loadable(table.files, table.cache.items)[e.Id()] == e
        ensures e in passed
      {
        LoadableIsLookup(table, e.Id());
      }
    }
  }

  /** A `foreach` over the `n` handlers making the same call on each. */
  method CallAll(n: nat, call: Call) returns (row: seq<Event>)
    ensures row == Row(n, call)
  {
    row := [];
    var i := 0;
    while i < n
      invariant 0 <= i <= n && row == Row(i, call)
    {
      row := row + [Event(call, i)];
      i := i + 1;
    }
  }

  /** The Iterate callback: each record passed, in order, to every handler. */
  method OfferEach(n: nat, passed: seq<Entity>) returns (offered: seq<Event>)
    ensures offered == OfferAll(n, passed)
  {
    offered := [];
    var p := 0;
    while p < |passed|
      invariant 0 <= p <= |passed| && offered == OfferAll(n, passed[..p])
    {
      assert passed[..p + 1][..p] == passed[..p];
      var row := CallAll(n, OnEntity(passed[p]));
      offered := offered + row;
      p := p + 1;
    }
    assert passed[..p] == passed;
  }

  // ---------------------------------------------------------------------
  // The service
  // ---------------------------------------------------------------------

  lemma TableValid(db: DatabaseService, kind: Kind)
    requires db.Valid()
    ensures db.TableOf(kind).Valid()
  {
  }

  class WorkerService {
    const db: DatabaseService
    /** The jobs by record type. */
    var jobs: map<Kind, Job>
    /** The keys of `jobs` in the order they were added (the order the
        dictionary enumerates its values). */
    var order: seq<Kind>

    ghost predicate Valid()
      reads this, db
    {
      && (forall k :: k in jobs ==> jobs[k].kind == k && jobs[k].table == db.TableOf(k))
      && (forall k :: k in order <==> k in jobs)
      && (forall a, b :: 0 <= a < b < |order| ==> order[a] != order[b])
    }

    ghost function JobObjects(): set<Job>
      reads this
    {
      set k | k in jobs :: jobs[k]
    }

    constructor (db: DatabaseService)
      ensures Valid() && this.db == db && jobs == map[] && order == []
    {
      this.db := db;
      jobs := map[];
      order := [];
    }

    /** Attach: the creator joins the job of its record type, which is made
        (and queued last) on the first attach for that type. */
    method Attach(kind: Kind, creator: CreatorId)
      requires Valid()
      modifies this, JobObjects()
      ensures Valid()
      ensures kind in jobs && jobs[kind].listeners == (if kind in old(jobs) then old(jobs[kind].listeners) else []) + [creator]
      ensures kind in old(jobs) ==> jobs == old(jobs) && order == old(order)
      ensures kind !in old(jobs) ==> fresh(jobs[kind]) && jobs == old(jobs)[kind := jobs[kind]] && order == old(order) + [kind]
      ensures forall k :: k in old(jobs) && k != kind ==> jobs[k].listeners == old(jobs[k].listeners)
    {
      if kind in jobs {
        jobs[kind].AddHandlerCreator(creator);
      } else {
        var job := new Job(kind, db.TableOf(kind));
        job.AddHandlerCreator(creator);
        jobs := jobs[kind := job];
        order := order + [kind];
      }
    }

    /** A run of the job for `kind` that passed `passed`: RunTrace over those
        records, which are the loadable records of that type's table, every
        one of them and nothing else. */
    ghost predicate IsRunOf(run: seq<Event>, kind: Kind, passed: seq<Entity>)
      reads this, JobObjects(), db, db.Repr()
    {
      kind in jobs && RunOver(run, |jobs[kind].listeners|, Loadable(db.TableOf(kind).files, db.TableOf(kind).cache.items), passed)
    }

    /** The first `|runs|` jobs of `order` ran in turn; `passed[r]` is what
        run `r` passed. */
    ghost predicate RunsInOrder(runs: seq<seq<Event>>, passed: seq<seq<Entity>>)
      reads this, JobObjects(), db, db.Repr()
    {
      |runs| <= |order| && |passed| == |runs| && forall r :: 0 <= r < |runs| ==> IsRunOf(runs[r], order[r], passed[r])
    }

    /** A pass: one run per job, in `order`. */
    ghost predicate IsPass(runs: seq<seq<Event>>, passed: seq<seq<Entity>>)
      reads this, JobObjects(), db, db.Repr()
    {
      |runs| == |order| && RunsInOrder(runs, passed)
    }

    lemma RunsInOrderAppend(runs: seq<seq<Event>>, passed: seq<seq<Entity>>, run: seq<Event>, records: seq<Entity>)
      requires RunsInOrder(runs, passed) && |runs| < |order| && IsRunOf(run, order[|runs|], records)
      ensures RunsInOrder(runs + [run], passed + [records])
    {
    }

    /** Passes one after another, `passed[p]` holding what pass `p` passed. */
    ghost predicate ArePasses(passes: seq<seq<seq<Event>>>, passed: seq<seq<seq<Entity>>>)
      reads this, JobObjects(), db, db.Repr()
    {
      |passes| == |passed| && forall p :: 0 <= p < |passes| ==> IsPass(passes[p], passed[p])
    }

    lemma ArePassesAppend(passes: seq<seq<seq<Event>>>, passed: seq<seq<seq<Entity>>>,
                          next: seq<seq<Event>>, more: seq<seq<Entity>>)
      requires ArePasses(passes, passed) && IsPass(next, more)
      ensures ArePasses(passes + [next], passed + [more])
    {
    }

    /** UpdateAll: the jobs, as they are when the pass starts, run one after
        another in the order they were attached. */
    method UpdateAll() returns (runs: seq<seq<Event>>, ghost passed: seq<seq<Entity>>)
      requires Valid() && db.Valid()
      ensures IsPass(runs, passed)
    {
      var todo := order;
      runs := [];
      passed := [];
      while |runs| < |todo|
        invariant todo == order && RunsInOrder(runs, passed)
        decreases |todo| - |runs|
      {
        var kind := todo[|runs|];
        var job := jobs[kind];
        TableValid(db, kind);
        var trace, records := job.Run();
        RunsInOrderAppend(runs, passed, trace, records);
        runs := runs + [trace];
        passed := passed + [records];
      }
    }

    /** Worker: one pass at once, then one more each time the thirty-minute
        wait runs out, until the wait is ended by cancellation; `periods` is
        how many waits ran out before that. */
    method Worker(periods: nat) returns (passes: seq<seq<seq<Event>>>, ghost passed: seq<seq<seq<Entity>>>)
      requires Valid() && db.Valid()
      ensures |passes| == periods + 1 && ArePasses(passes, passed)
    {
      var first, records := UpdateAll();
      passes := [first];
      passed := [records];
      var waited := 0;
      while waited < periods
        invariant 0 <= waited <= periods && |passes| == waited + 1 && ArePasses(passes, passed)
      {
        var next, more := UpdateAll();
        ArePassesAppend(passes, passed, next, more);
        passes := passes + [next];
        passed := passed + [more];
        waited := waited + 1;
      }
    }
  }
}
