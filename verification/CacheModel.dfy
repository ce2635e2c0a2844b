/**
 A table, the two-level cache in front of it, and the operations of CachedConn.
 The cache library is reduced to a contract: a key holds a value until a time; a take
 returns a live value and otherwise queries, stores what it found and returns it; a
 query that finds nothing stores a placeholder.
 */
module CacheModel {
  import opened Wrappers

  type Id = int
  type Seconds = int

  /** A row with its primary key, its value in each unique index it is in, and the rest. */
  datatype Row = Row(id: Id, unique: map<nat, string>, data: string)

  type Table = map<Id, Row>

  datatype Key = PrimaryKey(id: Id) | IndexKey(index: nat, value: string)

  /** What a key can hold: the not-found placeholder, a primary key, or a row. */
  datatype Cached = NotFound | Primary(id: Id) | RowOf(row: Row)

  datatype Entry = Entry(value: Cached, expires: Seconds)

  datatype World = World(table: Table, cache: map<Key, Entry>, now: Seconds)

  const GAP: Seconds := 5   // cacheSafeGapBetweenIndexAndPrimary

  // ---------- The table ----------

  predicate Holds(row: Row, index: nat, value: string)
  {
    index in row.unique && row.unique[index] == value
  }

  /** What the database enforces: rows sit under their primary key and unique indexes are unique. */
  ghost predicate ValidTable(t: Table)
  {
    && (forall id <- t :: t[id].id == id)
    && (forall a, b, i, v :: a in t && b in t && Holds(t[a], i, v) && Holds(t[b], i, v) ==> a == b)
  }

  /** The uncached query behind a key. */
  function Answer(t: Table, k: Key): (r: Cached)
    requires ValidTable(t)
    ensures k.IndexKey? && r.Primary? ==> r.id in t && Holds(t[r.id], k.index, k.value)
    ensures k.IndexKey? ==> !r.RowOf?
    ensures k.IndexKey? && r.NotFound? ==> forall id <- t :: !Holds(t[id], k.index, k.value)
  {
    match k
    case PrimaryKey(id) => if id in t then RowOf(t[id]) else NotFound
    case IndexKey(i, v) =>
      if exists id <- t :: Holds(t[id], i, v) then
        var id :| id in t && Holds(t[id], i, v);
        Primary(id)
      else NotFound
  }

  /** The row a query by key returns without a cache. */
  function Uncached(t: Table, k: Key): Option<Row>
    requires ValidTable(t)
  {
    match Answer(t, k)
    case NotFound => None
    case RowOf(row) => Some(row)
    case Primary(id) => Some(t[id])
  }

  /** The keys that can cache something about a row. */
  function RowKeys(row: Row): set<Key>
  {
    {PrimaryKey(row.id)} + set i | i in row.unique :: IndexKey(i, row.unique[i])
  }

  lemma RowKeysExactly(row: Row, k: Key)
    ensures k in RowKeys(row) <==>
              match k case PrimaryKey(id) => id == row.id case IndexKey(i, v) => Holds(row, i, v)
  {
  }

  /** Without a cache a query by primary key finds the row there, and one by index the row with the value. */
  lemma UncachedExactly(t: Table, k: Key, row: Row)
    requires ValidTable(t)
    ensures Uncached(t, k) == Some(row) <==>
              row.id in t && t[row.id] == row
              && match k case PrimaryKey(id) => row.id == id case IndexKey(i, v) => Holds(row, i, v)
  {
    if k.IndexKey? && row.id in t && t[row.id] == row && Holds(row, k.index, k.value) {
      assert Holds(t[row.id], k.index, k.value);
      assert Answer(t, k).Primary?;
    }
  }

  // ---------- Operations ----------

  predicate Live(w: World, k: Key)
  {
    k in w.cache && w.now < w.cache[k].expires
  }

  function Set(w: World, k: Key, v: Cached, ttl: nat): World
  {
    w.(cache := w.cache[k := Entry(v, w.now + ttl)])
  }

  /** TakeCtx on a primary key; an entry that is not a row fails to decode and counts as a miss. */
  function TakePrimary(w: World, id: Id, ttl: nat, missTtl: nat): (World, Option<Row>)
  {
    var k := PrimaryKey(id);
    if Live(w, k) && w.cache[k].value.RowOf? then (w, Some(w.cache[k].value.row))
    else if Live(w, k) && w.cache[k].value.NotFound? then (w, None)
    else if id in w.table then (Set(w, k, RowOf(w.table[id]), ttl), Some(w.table[id]))
    else (Set(w, k, NotFound, missTtl), None)
  }

  /** QueryRowIndexCtx: fill is the time between storing the row and storing the index entry. */
  function QueryIndex(w: World, k: Key, ttl: nat, missTtl: nat, fill: nat): (World, Option<Row>)
    requires k.IndexKey? && ValidTable(w.table)
  {
    if Live(w, k) && w.cache[k].value.Primary? then
      TakePrimary(w, w.cache[k].value.id, ttl, missTtl)
    else if Live(w, k) && w.cache[k].value.NotFound? then (w, None)
    else match Answer(w.table, k)
      case Primary(id) =>
        var stored := Set(w, PrimaryKey(id), RowOf(w.table[id]), ttl + GAP);
        (Set(stored.(now := w.now + fill), k, Primary(id), ttl), Some(w.table[id]))
      case _ => (Set(w, k, NotFound, missTtl), None)
  }

  function Delete(w: World, keys: set<Key>): World
  {
    w.(cache := w.cache - keys)
  }

  /** A statement: the table after it, or None when it fails and is rolled back. */
  type Sql = Table -> Option<Table>

  /** ExecCtx with key deletes that succeed: run the statement, then forget the keys. */
  function Exec(w: World, sql: Sql, keys: set<Key>): World
  {
    match sql(w.table)
    case None => w
    case Some(t) => Delete(w.(table := t), keys)
  }

  function AllKeys(rows: seq<Row>): set<Key>
  {
    set row, k | row in rows && k in RowKeys(row) :: k
  }

  /** BatchExecCtx: without old rows the statement is not run at all. */
  function BatchExec(w: World, olds: seq<Row>, sql: Sql): World
  {
    if olds == [] then w else Exec(w, sql, AllKeys(olds))
  }

  // ---------- Coherence ----------

  ghost predicate Coherent(w: World)
    requires ValidTable(w.table)
  {
    forall k :: Live(w, k) ==> w.cache[k].value == Answer(w.table, k)
  }

  lemma IndexAnswer(t: Table, k: Key, id: Id)
    requires ValidTable(t) && k.IndexKey? && id in t && Holds(t[id], k.index, k.value)
    ensures Answer(t, k) == Primary(id)
  {
  }

  lemma TakePrimaryIsTransparent(w: World, id: Id, ttl: nat, missTtl: nat)
    requires ValidTable(w.table) && Coherent(w)
    ensures var (w', r) := TakePrimary(w, id, ttl, missTtl);
            w'.table == w.table && Coherent(w') && r == Uncached(w.table, PrimaryKey(id))
  {
  }

  lemma QueryIndexIsTransparent(w: World, k: Key, ttl: nat, missTtl: nat, fill: nat)
    requires k.IndexKey? && ValidTable(w.table) && Coherent(w)
    ensures var (w', r) := QueryIndex(w, k, ttl, missTtl, fill);
            w'.table == w.table && Coherent(w') && r == Uncached(w.table, k)
  {
    if Live(w, k) {
      if w.cache[k].value.Primary? {
        TakePrimaryIsTransparent(w, w.cache[k].value.id, ttl, missTtl);
      }
    } else {
      var (w', r) := QueryIndex(w, k, ttl, missTtl, fill);
      forall j | Live(w', j)
        ensures w'.cache[j].value == Answer(w.table, j)
      {
        if w'.cache[j] != Entry(Answer(w.table, j), w'.cache[j].expires) {
          assert Live(w, j);
        }
      }
    }
  }

  // ---------- Which keys a write must name ----------

  /** A row of a that b does not have in the same form. */
  ghost predicate Differs(a: Table, b: Table, id: Id)
  {
    id in a && !(id in b && b[id] == a[id])
  }

  /** keys holds the keys of every touched row, as it was and as it is. */
  ghost predicate Covers(keys: set<Key>, before: Table, after: Table)
  {
    && (forall id :: Differs(before, after, id) ==> RowKeys(before[id]) <= keys)
    && (forall id :: Differs(after, before, id) ==> RowKeys(after[id]) <= keys)
  }

  lemma ChangedAnswersAreTouchedKeys(before: Table, after: Table, k: Key)
    requires ValidTable(before) && ValidTable(after) && Answer(before, k) != Answer(after, k)
    ensures || (exists id :: Differs(before, after, id) && k in RowKeys(before[id]))
            || (exists id :: Differs(after, before, id) && k in RowKeys(after[id]))
  {
  }

  /** Forgetting keys after a write leaves every coherent cache coherent. */
  ghost predicate SafeToForget(keys: set<Key>, before: Table, after: Table)
    requires ValidTable(before) && ValidTable(after)
  {
    forall w: World :: w.table == before && Coherent(w) ==> Coherent(Delete(w.(table := after), keys))
  }

  lemma ForgetChangedAnswersExactly(keys: set<Key>, before: Table, after: Table)
    requires ValidTable(before) && ValidTable(after)
    ensures SafeToForget(keys, before, after)
            <==> forall k :: Answer(before, k) != Answer(after, k) ==> k in keys
  {
    if k :| Answer(before, k) != Answer(after, k) && k !in keys {
      var w := World(before, map[k := Entry(Answer(before, k), 1)], 0);
      assert Coherent(w) && Live(Delete(w.(table := after), keys), k);
    }
    if forall k :: Answer(before, k) != Answer(after, k) ==> k in keys {
      forall w: World | w.table == before && Coherent(w)
        ensures Coherent(Delete(w.(table := after), keys))
      {
        forall k | Live(Delete(w.(table := after), keys), k)
          ensures w.cache[k].value == Answer(after, k)
        {
          assert Live(w, k);
        }
      }
    }
  }

  lemma CoveringKeysAreSafe(keys: set<Key>, before: Table, after: Table)
    requires ValidTable(before) && ValidTable(after) && Covers(keys, before, after)
    ensures SafeToForget(keys, before, after)
  {
    forall k | Answer(before, k) != Answer(after, k)
      ensures k in keys
    {
      ChangedAnswersAreTouchedKeys(before, after, k);
    }
    ForgetChangedAnswersExactly(keys, before, after);
  }

  /**
   BatchExecCtx takes its keys from the old rows alone. That is safe for every coherent cache
   exactly when no row has, after the write, a key that none of the old rows had.
   */
  lemma BatchIsSafeExactly(olds: seq<Row>, before: Table, after: Table)
    requires ValidTable(before) && ValidTable(after)
    requires forall id :: Differs(before, after, id) ==> before[id] in olds
    ensures SafeToForget(AllKeys(olds), before, after)
            <==> forall id :: Differs(after, before, id) ==> RowKeys(after[id]) <= AllKeys(olds)
  {
    ForgetChangedAnswersExactly(AllKeys(olds), before, after);
    if forall id :: Differs(after, before, id) ==> RowKeys(after[id]) <= AllKeys(olds) {
      CoveringKeysAreSafe(AllKeys(olds), before, after);
    }
    if id, k :| Differs(after, before, id) && k in RowKeys(after[id]) && k !in AllKeys(olds) {
      match k {
        case PrimaryKey(_) =>
        case IndexKey(i, v) =>
          IndexAnswer(after, k, id);
          assert id in before ==> Differs(before, after, id) && k !in RowKeys(before[id]);
      }
      assert Answer(before, k) != Answer(after, k);
    }
  }

  /** A batch that renames "a" to "b" leaves a cached not-found for "b" in place. */
  lemma BatchCanHideARow()
    ensures exists w: World, olds: seq<Row>, sql: Sql, k: Key ::
      && ValidTable(w.table) && Coherent(w) && k.IndexKey?
      && var w' := BatchExec(w, olds, sql);
         ValidTable(w'.table) && Uncached(w'.table, k).Some? && QueryIndex(w', k, 1, 1, 0).1 == None
  {
    var wasRow, isRow := Row(1, map[0 := "a"], ""), Row(1, map[0 := "b"], "");
    var k := IndexKey(0, "b");
    var w := World(map[1 := wasRow], map[k := Entry(NotFound, 60)], 0);
    var sql: Sql := (t: Table) => Some(t[1 := isRow]);
    var w' := BatchExec(w, [wasRow], sql);
    assert w'.table == map[1 := isRow];
    assert "b"[0] != "a"[0];
    assert k !in AllKeys([wasRow]);
    assert Coherent(w);
    IndexAnswer(w'.table, k, 1);
    assert QueryIndex(w', k, 1, 1, 0).1 == None;
  }

  // ---------- Runs ----------

  datatype Op =
    | ByIndex(key: Key, ttl: nat, missTtl: nat, fill: nat)
    | ById(id: Id, ttl: nat, missTtl: nat)
    | Write(sql: Sql, keys: set<Key>)
    | Batch(sql: Sql, olds: seq<Row>)
    | Tick(seconds: nat)

  ghost predicate GoodWrite(t: Table, sql: Sql, keys: set<Key>)
  {
    sql(t).Some? ==> ValidTable(sql(t).value) && Covers(keys, t, sql(t).value)
  }

  ghost predicate Allowed(t: Table, op: Op)
  {
    match op
    case ByIndex(k, _, _, _) => k.IndexKey?
    case Write(sql, keys) => GoodWrite(t, sql, keys)
    case Batch(sql, olds) => olds == [] || GoodWrite(t, sql, AllKeys(olds))
    case _ => true
  }

  /** One operation with the cache: the world after it and the rows it returned. */
  function StepCached(w: World, op: Op): (World, seq<Option<Row>>)
    requires ValidTable(w.table) && (op.ByIndex? ==> op.key.IndexKey?)
  {
    match op
    case ByIndex(k, ttl, missTtl, fill) =>
      var (w', r) := QueryIndex(w, k, ttl, missTtl, fill); (w', [r])
    case ById(id, ttl, missTtl) =>
      var (w', r) := TakePrimary(w, id, ttl, missTtl); (w', [r])
    case Write(sql, keys) => (Exec(w, sql, keys), [])
    case Batch(sql, olds) => (BatchExec(w, olds, sql), [])
    case Tick(d) => (w.(now := w.now + d), [])
  }

  /** The same operation on the table alone. */
  function StepPlain(t: Table, op: Op): (Table, seq<Option<Row>>)
    requires ValidTable(t)
  {
    match op
    case ByIndex(k, _, _, _) => (t, [Uncached(t, k)])
    case ById(id, _, _) => (t, [Uncached(t, PrimaryKey(id))])
    case Write(sql, _) => (match sql(t) case None => t case Some(t') => t', [])
    case Batch(sql, olds) =>
      (if olds == [] then t else match sql(t) case None => t case Some(t') => t', [])
    case Tick(_) => (t, [])
  }

  ghost predicate AllowedRun(t: Table, ops: seq<Op>)
    requires ValidTable(t)
    decreases |ops|
  {
    ops == [] ||
    (Allowed(t, ops[0]) && ValidTable(StepPlain(t, ops[0]).0) && AllowedRun(StepPlain(t, ops[0]).0, ops[1..]))
  }

  ghost function RunPlain(t: Table, ops: seq<Op>): (Table, seq<Option<Row>>)
    requires ValidTable(t) && AllowedRun(t, ops)
    decreases |ops|
  {
    if ops == [] then (t, [])
    else
      var (t1, r1) := StepPlain(t, ops[0]);
      var (t2, r2) := RunPlain(t1, ops[1..]);
      (t2, r1 + r2)
  }

  lemma StepIsTransparent(w: World, op: Op)
    requires ValidTable(w.table) && Coherent(w) && Allowed(w.table, op)
    ensures var (w', r) := StepCached(w, op);
            && ValidTable(w'.table) && Coherent(w') && (w'.table, r) == StepPlain(w.table, op)
  {
    match op
    case ByIndex(k, ttl, missTtl, fill) => QueryIndexIsTransparent(w, k, ttl, missTtl, fill);
    case ById(id, ttl, missTtl) => TakePrimaryIsTransparent(w, id, ttl, missTtl);
    case Write(sql, keys) =>
      if sql(w.table).Some? {
        CoveringKeysAreSafe(keys, w.table, sql(w.table).value);
      }
    case Batch(sql, olds) =>
      if olds != [] && sql(w.table).Some? {
        CoveringKeysAreSafe(AllKeys(olds), w.table, sql(w.table).value);
      }
    case Tick(_) =>
      var w' := StepCached(w, op).0;
      assert forall k :: Live(w', k) ==> Live(w, k);
  }

  ghost function RunCached(w: World, ops: seq<Op>): (World, seq<Option<Row>>)
    requires ValidTable(w.table) && Coherent(w) && AllowedRun(w.table, ops)
    decreases |ops|
  {
    if ops == [] then (w, [])
    else
      StepIsTransparent(w, ops[0]);
      var (w1, r1) := StepCached(w, ops[0]);
      var (w2, r2) := RunCached(w1, ops[1..]);
      (w2, r1 + r2)
  }

  /** Every run returns, query by query, what it returns with no cache at all. */
  lemma {:induction false} CachedRunsReturnUncachedRows(w: World, ops: seq<Op>)
    requires ValidTable(w.table) && Coherent(w) && AllowedRun(w.table, ops)
    ensures RunCached(w, ops).1 == RunPlain(w.table, ops).1
    ensures RunCached(w, ops).0.table == RunPlain(w.table, ops).0
    ensures ValidTable(RunCached(w, ops).0.table) && Coherent(RunCached(w, ops).0)
    decreases |ops|
  {
    if ops != [] {
      StepIsTransparent(w, ops[0]);
      CachedRunsReturnUncachedRows(StepCached(w, ops[0]).0, ops[1..]);
    }
  }

  // ---------- The gap between index and primary entries ----------

  ghost predicate SingleIndex(t: Table)
  {
    forall id <- t, i <- t[id].unique, j <- t[id].unique :: i == j
  }

  ghost predicate PointsAt(w: World, k: Key, id: Id)
  {
    k.IndexKey? && Live(w, k) && w.cache[k].value == Primary(id)
  }

  /** Every live index entry for a row is outlived by an entry of the row itself. */
  ghost predicate Outlived(w: World, id: Id)
  {
    forall k :: PointsAt(w, k, id) ==>
      PrimaryKey(id) in w.cache && w.cache[k].expires <= w.cache[PrimaryKey(id)].expires
  }

  /**
   How queries by index are paced: their expiries lie between lo and hi, storing the row and then the
   index entry takes at most maxFill, and single says whether every row has only one unique index.
   */
  datatype Pace = Pace(lo: nat, hi: nat, maxFill: nat, single: bool)

  predicate SafePace(c: Pace)
  {
    c.maxFill <= GAP && (c.single || c.hi <= c.lo + GAP)
  }

  /** An operation keeps the pace, and deletes a row's primary key only together with its other keys. */
  ghost predicate Paced(t: Table, op: Op, c: Pace, id: Id)
  {
    && (c.single ==> SingleIndex(t))
    && match op
       case ByIndex(_, ttl, _, fill) => c.lo <= ttl <= c.hi && fill <= c.maxFill
       case Write(_, keys) => PrimaryKey(id) in keys && id in t ==> RowKeys(t[id]) <= keys
       case Batch(_, olds) => PrimaryKey(id) in AllKeys(olds) && id in t ==> RowKeys(t[id]) <= AllKeys(olds)
       case _ => true
  }

  ghost predicate PacedRun(t: Table, ops: seq<Op>, c: Pace, id: Id)
    requires ValidTable(t) && AllowedRun(t, ops)
    decreases |ops|
  {
    ops == [] || (Paced(t, ops[0], c, id) && PacedRun(StepPlain(t, ops[0]).0, ops[1..], c, id))
  }

  /** No live index entry for a row lives longer than an entry stored now could. */
  ghost predicate Bounded(w: World, id: Id, hi: nat)
  {
    forall k :: PointsAt(w, k, id) ==> w.cache[k].expires <= w.now + hi
  }

  lemma PointersAreRowKeys(w: World, k: Key, id: Id)
    requires ValidTable(w.table) && Coherent(w) && PointsAt(w, k, id)
    ensures id in w.table && k in RowKeys(w.table[id])
  {
    assert Answer(w.table, k) == Primary(id);
  }

  lemma OnePointer(w: World, j: Key, k: Key, id: Id)
    requires ValidTable(w.table) && Coherent(w) && SingleIndex(w.table)
    requires PointsAt(w, j, id) && k.IndexKey? && Answer(w.table, k) == Primary(id)
    ensures j == k
  {
  }

  /**
   Filling a miss keeps a row's index entries outlived by the row exactly when it takes no longer than
   the gap and no other live index entry of the row outlives the row entry it stores.
   */
  lemma FillKeepsPairExactly(w: World, k: Key, ttl: nat, missTtl: nat, fill: nat, id: Id)
    requires k.IndexKey? && ValidTable(w.table) && Coherent(w) && ttl > 0
    requires Outlived(w, id) && !Live(w, k) && Answer(w.table, k) == Primary(id)
    ensures Outlived(QueryIndex(w, k, ttl, missTtl, fill).0, id)
            <==> fill <= GAP
                 && forall j :: PointsAt(w, j, id) && w.now + fill < w.cache[j].expires ==>
                      w.cache[j].expires <= w.now + ttl + GAP
  {
    var w' := QueryIndex(w, k, ttl, missTtl, fill).0;
    assert PointsAt(w', k, id);
    forall j | j != k
      ensures PointsAt(w', j, id) <==> PointsAt(w, j, id) && w.now + fill < w.cache[j].expires
    {
    }
  }

  lemma QueryIndexKeepsPair(w: World, k: Key, ttl: nat, missTtl: nat, fill: nat, c: Pace, id: Id)
    requires k.IndexKey? && ValidTable(w.table) && Coherent(w) && SafePace(c)
    requires (c.single ==> SingleIndex(w.table)) && c.lo <= ttl <= c.hi && fill <= c.maxFill
    requires Outlived(w, id) && Bounded(w, id, c.hi)
    ensures var w' := QueryIndex(w, k, ttl, missTtl, fill).0; Outlived(w', id) && Bounded(w', id, c.hi)
  {
    var w' := QueryIndex(w, k, ttl, missTtl, fill).0;
    forall j | PointsAt(w', j, id)
      ensures PrimaryKey(id) in w'.cache && w'.cache[j].expires <= w'.cache[PrimaryKey(id)].expires
      ensures w'.cache[j].expires <= w'.now + c.hi
    {
      if j != k || w'.cache == w.cache {
        assert PointsAt(w, j, id);
        if c.single && !Live(w, k) && Answer(w.table, k) == Primary(id) {
          OnePointer(w, j, k, id);
        }
      } else if Live(w, k) {
        assert PointsAt(w, k, id);
      }
    }
  }

  /** Deleting keeps pointers only to rows whose entry it keeps as well. */
  lemma DeleteKeepsPair(w: World, t: Table, keys: set<Key>, id: Id, hi: nat)
    requires ValidTable(w.table) && Coherent(w) && Outlived(w, id) && Bounded(w, id, hi)
    requires PrimaryKey(id) in keys && id in w.table ==> RowKeys(w.table[id]) <= keys
    ensures var w' := Delete(w.(table := t), keys); Outlived(w', id) && Bounded(w', id, hi)
  {
    var w' := Delete(w.(table := t), keys);
    forall j | PointsAt(w', j, id)
      ensures PointsAt(w, j, id) && PrimaryKey(id) !in keys
    {
      assert PointsAt(w, j, id);
      PointersAreRowKeys(w, j, id);
    }
  }

  lemma StepKeepsPair(w: World, op: Op, c: Pace, id: Id)
    requires ValidTable(w.table) && Coherent(w) && Allowed(w.table, op)
    requires SafePace(c) && Paced(w.table, op, c, id) && Outlived(w, id) && Bounded(w, id, c.hi)
    ensures var w' := StepCached(w, op).0; Outlived(w', id) && Bounded(w', id, c.hi)
  {
    match op
    case ByIndex(k, ttl, missTtl, fill) => QueryIndexKeepsPair(w, k, ttl, missTtl, fill, c, id);
    case Write(sql, keys) =>
      if sql(w.table).Some? {
        DeleteKeepsPair(w, sql(w.table).value, keys, id, c.hi);
      }
    case Batch(sql, olds) =>
      if olds != [] && sql(w.table).Some? {
        DeleteKeepsPair(w, sql(w.table).value, AllKeys(olds), id, c.hi);
      }
    case _ =>
      var w' := StepCached(w, op).0;
      forall j | PointsAt(w', j, id)
        ensures PointsAt(w, j, id) && w'.cache[j] == w.cache[j]
        ensures PrimaryKey(id) in w'.cache && w.cache[PrimaryKey(id)] == w'.cache[PrimaryKey(id)]
      {
        assert PointsAt(w, j, id);
        PointersAreRowKeys(w, j, id);
      }
  }

  /** After every run at a safe pace a live index entry leads to a live row entry, and no query follows it. */
  lemma {:induction false} LiveIndexHasLiveRow(w: World, ops: seq<Op>, c: Pace, id: Id, k: Key)
    requires ValidTable(w.table) && Coherent(w) && AllowedRun(w.table, ops)
    requires SafePace(c) && PacedRun(w.table, ops, c, id) && Outlived(w, id) && Bounded(w, id, c.hi)
    ensures var w' := RunCached(w, ops).0;
            && Outlived(w', id)
            && (PointsAt(w', k, id) ==>
                  && Live(w', PrimaryKey(id)) && ValidTable(w'.table)
                  && forall ttl, missTtl, fill ::
                       QueryIndex(w', k, ttl, missTtl, fill) == (w', Uncached(w'.table, PrimaryKey(id))))
    decreases |ops|
  {
    if ops == [] {
      if PointsAt(w, k, id) {
        assert Live(w, PrimaryKey(id));
        PointersAreRowKeys(w, k, id);
      }
    } else {
      StepIsTransparent(w, ops[0]);
      StepKeepsPair(w, ops[0], c, id);
      LiveIndexHasLiveRow(StepCached(w, ops[0]).0, ops[1..], c, id, k);
    }
  }

  // ---------- What a lookup leaves behind ----------

  /** The cache is as it was but for some keys. */
  ghost predicate SameBut(w: World, w': World, keys: set<Key>)
  {
    forall k :: k !in keys ==>
      (k in w'.cache <==> k in w.cache) && (k in w.cache ==> w'.cache[k] == w.cache[k])
  }

  /** Whatever happens to the table, a lookup is repeated from the cache until it expires, and then no more. */
  lemma LookupIsCached(w: World, id: Id, ttl: nat, missTtl: nat, t: Table, wait: nat)
    requires ValidTable(w.table) && ValidTable(t) && !Live(w, PrimaryKey(id))
    ensures var (w', rows) := StepCached(w, ById(id, ttl, missTtl));
            var later := w'.(table := t, now := w.now + wait);
            && rows == [if id in w.table then Some(w.table[id]) else None]
            && w'.table == w.table && w'.now == w.now && SameBut(w, w', {PrimaryKey(id)})
            && if wait < (if id in w.table then ttl else missTtl)
               then StepCached(later, ById(id, ttl, missTtl)) == (later, rows)
               else StepCached(later, ById(id, ttl, missTtl)).1 == [if id in t then Some(t[id]) else None]
  {
  }

  /** So is a lookup by index, from when its entry is stored; what it found is stored by primary key as well. */
  lemma IndexLookupIsCached(w: World, k: Key, ttl: nat, missTtl: nat, fill: nat, t: Table, wait: nat)
    requires k.IndexKey? && ValidTable(w.table) && ValidTable(t) && !Live(w, k)
    ensures var (w', rows) := StepCached(w, ByIndex(k, ttl, missTtl, fill));
            var row := Uncached(w.table, k);
            var later := w'.(table := t, now := w'.now + wait);
            && rows == [row] && w'.table == w.table && w'.now == w.now + (if row.Some? then fill else 0)
            && SameBut(w, w', if row.Some? then {k, PrimaryKey(row.value.id)} else {k})
            && (if wait < (if row.Some? then ttl else missTtl)
                then fill + wait < ttl + 5 || row.None? ==>
                       StepCached(later, ByIndex(k, ttl, missTtl, fill)) == (later, rows)
                else StepCached(later, ByIndex(k, ttl, missTtl, fill)).1 == [Uncached(t, k)])
            && (row.Some? && fill + wait < ttl + 5 ==>
                  StepCached(later, ById(row.value.id, ttl, missTtl)) == (later, rows))
  {
  }

  /** A live index entry whose row is not cached leads to a lookup of the row, stored as such a lookup is. */
  lemma IndexHitLooksUpRow(w: World, k: Key, ttl: nat, missTtl: nat, fill: nat, id: Id)
    requires ValidTable(w.table) && PointsAt(w, k, id)
    ensures StepCached(w, ByIndex(k, ttl, missTtl, fill)) == StepCached(w, ById(id, ttl, missTtl))
  {
  }

  /** A clock tick lets time pass and nothing else. */
  lemma TicksPass(w: World, d: nat)
    requires ValidTable(w.table)
    ensures StepCached(w, Tick(d)) == (World(w.table, w.cache, w.now + d), [])
  {
  }

  // ---------- Which paces keep the pair ----------

  function EmptyCache(t: Table): World
  {
    World(t, map[], 0)
  }

  /** After a run from an empty cache the row's entry is live if this index entry for it is. */
  ghost predicate PairHolds(t: Table, ops: seq<Op>, k: Key, id: Id)
    requires ValidTable(t) && AllowedRun(t, ops)
  {
    var w := RunCached(EmptyCache(t), ops).0;
    PointsAt(w, k, id) ==> Live(w, PrimaryKey(id))
  }

  ghost predicate PairLaw(c: Pace)
  {
    forall t: Table, ops: seq<Op>, k: Key, id: Id ::
      ValidTable(t) && AllowedRun(t, ops) && PacedRun(t, ops, c, id) ==> PairHolds(t, ops, k, id)
  }

  /** A query or a tick in front of a run. */
  lemma RunFirst(w: World, op: Op, rest: seq<Op>, c: Pace, id: Id)
    requires op.ByIndex? || op.Tick?
    requires ValidTable(w.table) && Coherent(w) && Allowed(w.table, op) && AllowedRun(w.table, rest)
    requires Paced(w.table, op, c, id) && PacedRun(w.table, rest, c, id)
    ensures var w', ops := StepCached(w, op).0, [op] + rest;
            && w'.table == w.table && Coherent(w')
            && AllowedRun(w.table, ops) && PacedRun(w.table, ops, c, id)
            && RunCached(w, ops).0 == RunCached(w', rest).0
  {
    assert ([op] + rest)[1..] == rest;
    StepIsTransparent(w, op);
  }

  /** A wait until the row's entry has expired, but not an index entry for it. */
  lemma WaitBreaks(w: World, c: Pace, k: Key, id: Id) returns (wait: seq<Op>)
    requires ValidTable(w.table) && Coherent(w) && (c.single ==> SingleIndex(w.table)) && PointsAt(w, k, id)
    requires PrimaryKey(id) in w.cache && w.cache[PrimaryKey(id)].expires < w.cache[k].expires
    ensures AllowedRun(w.table, wait) && PacedRun(w.table, wait, c, id)
    ensures var w' := RunCached(w, wait).0; PointsAt(w', k, id) && !Live(w', PrimaryKey(id))
  {
    var late := w.cache[PrimaryKey(id)].expires - w.now;
    var tick := Tick(if late > 0 then late else 0);
    RunFirst(w, tick, [], c, id);
    wait := [tick] + [];
    assert RunCached(w, wait).0 == StepCached(w, tick).0;
  }

  lemma Breaks(t: Table, ops: seq<Op>, c: Pace, k: Key, id: Id)
    requires ValidTable(t) && AllowedRun(t, ops) && PacedRun(t, ops, c, id)
    requires var w := RunCached(EmptyCache(t), ops).0; PointsAt(w, k, id) && !Live(w, PrimaryKey(id))
    ensures !PairLaw(c)
  {
    assert !PairHolds(t, ops, k, id);
  }

  /** A fill slower than the gap: when the row entry has expired, the index entry has not. */
  lemma SlowFillBreaksThePair(c: Pace)
    requires c.lo <= c.hi && c.hi > 0 && c.maxFill > GAP
    ensures !PairLaw(c)
  {
    var k := IndexKey(0, "a");
    var t: Table := map[1 := Row(1, map[0 := "a"], "")];
    var w, fill := EmptyCache(t), ByIndex(k, c.hi, 1, c.maxFill);
    IndexAnswer(t, k, 1);
    RunFirst(w, fill, [], c, 1);
    var w1 := StepCached(w, fill).0;
    var wait := WaitBreaks(w1, c, k, 1);
    RunFirst(w, fill, wait, c, 1);
    Breaks(t, [fill] + wait, c, k, 1);
  }

  /** What filling a miss leaves in the cache. */
  lemma Filled(w: World, k: Key, ttl: nat, missTtl: nat, fill: nat, id: Id)
    requires k.IndexKey? && ValidTable(w.table) && k !in w.cache
    requires id in w.table && Holds(w.table[id], k.index, k.value)
    ensures StepCached(w, ByIndex(k, ttl, missTtl, fill)).0 ==
            World(w.table,
                  w.cache[PrimaryKey(id) := Entry(RowOf(w.table[id]), w.now + ttl + GAP)]
                         [k := Entry(Primary(id), w.now + fill + ttl)],
                  w.now + fill)
  {
    IndexAnswer(w.table, k, id);
  }

  /** Two fills of one row: its entry has the second expiry, and the first index entry the first. */
  lemma TwoFills(w: World, k1: Key, ttl1: nat, k2: Key, ttl2: nat, id: Id)
    requires ValidTable(w.table) && w.cache == map[] && k1.IndexKey? && k2.IndexKey? && k1 != k2 && id in w.table
    requires Holds(w.table[id], k1.index, k1.value) && Holds(w.table[id], k2.index, k2.value)
    ensures var w1 := StepCached(w, ByIndex(k1, ttl1, 1, 0)).0;
            && w1.table == w.table && k2 !in w1.cache
            && var w2 := StepCached(w1, ByIndex(k2, ttl2, 1, 0)).0;
               && k1 in w2.cache && w2.cache[k1] == Entry(Primary(id), w.now + ttl1)
               && PrimaryKey(id) in w2.cache && w2.cache[PrimaryKey(id)].expires == w.now + ttl2 + GAP
               && w2.now == w.now
  {
    Filled(w, k1, ttl1, 1, 0, id);
    Filled(StepCached(w, ByIndex(k1, ttl1, 1, 0)).0, k2, ttl2, 1, 0, id);
  }

  /** A second fill with an earlier expiry shortens the row entry that the first index entry needs. */
  lemma SpreadBreaksThePair(c: Pace)
    requires c.lo + GAP < c.hi && !c.single
    ensures !PairLaw(c)
  {
    var k1, k2 := IndexKey(0, "a"), IndexKey(1, "b");
    var t: Table := map[1 := Row(1, map[0 := "a", 1 := "b"], "")];
    var w, long, short := EmptyCache(t), ByIndex(k1, c.hi, 1, 0), ByIndex(k2, c.lo, 1, 0);
    TwoFills(w, k1, c.hi, k2, c.lo, 1);
    RunFirst(w, long, [], c, 1);
    var w1 := StepCached(w, long).0;
    RunFirst(w1, short, [], c, 1);
    var wait := WaitBreaks(StepCached(w1, short).0, c, k1, 1);
    RunFirst(w1, short, wait, c, 1);
    RunFirst(w, long, [short] + wait, c, 1);
    Breaks(t, [long] + ([short] + wait), c, k1, 1);
  }

  /**
   The law of the pair holds over all runs exactly at the safe paces: fills take no longer than the gap,
   and expiries spread by no more than it unless rows have a single unique index.
   */
  lemma PairLawExactly(c: Pace)
    requires c.lo <= c.hi && c.hi > 0
    ensures PairLaw(c) <==> c.maxFill <= 5 && (c.single || c.hi <= c.lo + 5)
  {
    if SafePace(c) {
      forall t: Table, ops: seq<Op>, k: Key, id: Id
        | ValidTable(t) && AllowedRun(t, ops) && PacedRun(t, ops, c, id)
        ensures PairHolds(t, ops, k, id)
      {
        LiveIndexHasLiveRow(EmptyCache(t), ops, c, id, k);
      }
    } else if c.maxFill > GAP {
      SlowFillBreaksThePair(c);
    } else {
      SpreadBreaksThePair(c);
    }
  }
}
