/** CachedConn as an object: the cache and the table are changed step by step. */
module CachedConnObject {
  import opened Wrappers
  import opened CacheModel

  class CachedConn {
    var table: Table
    var cache: map<Key, Entry>
    var now: Seconds

    ghost function View(): World
      reads this
    {
      World(table, cache, now)
    }

    constructor (t: Table, start: Seconds)
      ensures View() == World(t, map[], start)
    {
      table, cache, now := t, map[], start;
    }

    method SetWithExpire(k: Key, v: Cached, ttl: nat)
      modifies this`cache
      ensures View() == Set(old(View()), k, v, ttl)
    {
      cache := cache[k := Entry(v, now + ttl)];
    }

    method TakeRow(id: Id, ttl: nat, missTtl: nat) returns (row: Option<Row>)
      modifies this`cache
      ensures (View(), row) == TakePrimary(old(View()), id, ttl, missTtl)
      ensures old(ValidTable(table) && Coherent(View())) ==> Coherent(View()) && row == Uncached(table, PrimaryKey(id))
    {
      if ValidTable(table) && Coherent(View()) {
        TakePrimaryIsTransparent(View(), id, ttl, missTtl);
      }
      var k := PrimaryKey(id);
      if k in cache && now < cache[k].expires {
        match cache[k].value {
          case RowOf(r) => return Some(r);
          case NotFound => return None;
          case Primary(_) =>
        }
      }
      if id in table {
        SetWithExpire(k, RowOf(table[id]), ttl);
        row := Some(table[id]);
      } else {
        SetWithExpire(k, NotFound, missTtl);
        row := None;
      }
    }

    /** QueryRowIndexCtx; the time the callback takes is the parameter fill. */
    method QueryRowIndexCtx(k: Key, ttl: nat, missTtl: nat, fill: nat) returns (row: Option<Row>)
      requires k.IndexKey? && ValidTable(table)
      modifies this`cache, this`now
      ensures (View(), row) == QueryIndex(old(View()), k, ttl, missTtl, fill)
      ensures old(Coherent(View())) ==> Coherent(View()) && row == Uncached(table, k)
    {
      if Coherent(View()) {
        QueryIndexIsTransparent(View(), k, ttl, missTtl, fill);
      }
      var primaryKey: Option<Id> := None;
      var found := false;
      if k in cache && now < cache[k].expires && cache[k].value.Primary? {
        primaryKey := Some(cache[k].value.id);
      } else if k in cache && now < cache[k].expires && cache[k].value.NotFound? {
        return None;
      } else {
        var answer := Answer(table, k);
        if !answer.Primary? {
          SetWithExpire(k, NotFound, missTtl);
          return None;
        }
        primaryKey := Some(answer.id);
        row := Some(table[answer.id]);
        found := true;
        SetWithExpire(PrimaryKey(answer.id), RowOf(table[answer.id]), ttl + GAP);
        now := now + fill;
        SetWithExpire(k, Primary(answer.id), ttl);
      }
      if found {
        return;
      }
      row := TakeRow(primaryKey.value, ttl, missTtl);
    }

    method DelCacheCtx(keys: seq<Key>)
      modifies this`cache
      ensures View() == Delete(old(View()), set k | k in keys)
      ensures cache == map k | k in old(cache) && k !in keys :: old(cache)[k]
    {
      for i := 0 to |keys|
        invariant cache == old(cache) - set k | k in keys[..i]
      {
        cache := cache - {keys[i]};
      }
      assert keys[..|keys|] == keys;
    }

    method ExecCtx(sql: Sql, keys: seq<Key>) returns (ok: bool)
      modifies this`cache, this`table
      ensures View() == Exec(old(View()), sql, set k | k in keys)
      ensures ok == sql(old(table)).Some?
      ensures !ok ==> table == old(table) && cache == old(cache)
      ensures ok ==> Some(table) == sql(old(table)) && cache == map k | k in old(cache) && k !in keys :: old(cache)[k]
      ensures old(ValidTable(table) && Coherent(View())) && GoodWrite(old(table), sql, set k | k in keys)
              ==> ValidTable(table) && Coherent(View())
    {
      if ValidTable(table) && Coherent(View()) && GoodWrite(table, sql, set k | k in keys) {
        StepIsTransparent(View(), Write(sql, set k | k in keys));
      }
      match sql(table)
      case None => ok := false;
      case Some(t) =>
        table := t;
        DelCacheCtx(keys);
        ok := true;
    }

    method BatchExecCtx(olds: seq<Row>, sql: Sql, cacheKeys: Row -> seq<Key>) returns (ok: bool)
      requires forall row, k :: k in cacheKeys(row) <==> k in RowKeys(row)
      modifies this`cache, this`table
      ensures View() == BatchExec(old(View()), olds, sql)
      ensures ok == (olds == [] || sql(old(table)).Some?)
      ensures olds == [] || !ok ==> table == old(table) && cache == old(cache)
      ensures olds != [] && ok ==>
                && Some(table) == sql(old(table))
                && cache == map k | k in old(cache) && (forall row <- olds :: k !in cacheKeys(row)) :: old(cache)[k]
    {
      if |olds| == 0 {
        return true;
      }
      var keys := CacheKeysOf(olds, cacheKeys);
      assert (set k | k in keys) == AllKeys(olds);
      ok := ExecCtx(sql, keys);
    }
  }

  /** getCacheKeysByMultiData: each key of each row, once. */
  method CacheKeysOf(rows: seq<Row>, cacheKeys: Row -> seq<Key>) returns (keys: seq<Key>)
    ensures forall k :: k in keys <==> exists row <- rows :: k in cacheKeys(row)
    ensures forall i, j :: 0 <= i < j < |keys| ==> keys[i] != keys[j]
  {
    var all: seq<Key> := [];
    for i := 0 to |rows|
      invariant forall k :: k in all <==> exists row <- rows[..i] :: k in cacheKeys(row)
    {
      assert rows[..i + 1] == rows[..i] + [rows[i]];
      all := all + cacheKeys(rows[i]);
    }
    assert rows[..|rows|] == rows;
    keys := UniqueKeys(all);
  }

  /** The same keys without repetition, in whatever order the map yields them. */
  method UniqueKeys(keys: seq<Key>) returns (unique: seq<Key>)
    ensures forall k :: k in unique <==> k in keys
    ensures forall i, j :: 0 <= i < j < |unique| ==> unique[i] != unique[j]
  {
    var keySet: set<Key> := {};
    for i := 0 to |keys|
      invariant forall k :: k in keySet <==> k in keys[..i]
    {
      keySet := keySet + {keys[i]};
    }
    assert keys[..|keys|] == keys;
    unique := [];
    while keySet != {}
      invariant forall k :: k in keys <==> k in keySet || k in unique
      invariant forall k <- unique :: k !in keySet
      invariant forall i, j :: 0 <= i < j < |unique| ==> unique[i] != unique[j]
      decreases |keySet|
    {
      var k :| k in keySet;
      keySet := keySet - {k};
      unique := unique + [k];
    }
  }
}
