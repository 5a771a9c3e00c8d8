/** The query memory cache: query results kept in memory under a hash of
    the query, with a second index from table names to the hashes stored
    for that table so that a write to a table can drop them. */
module Database {
  import opened Wrappers

  /** The parts of a query builder the cache looks at. The SQL text, the
      bindings and the connection name only feed the hash. */
  datatype Query = Query(from: string, sql: string, bindings: seq<string>, connection: string)

  /** Every hash in `cache` is listed under some table of `tableMap`. */
  ghost predicate Indexed<R>(cache: map<string, R>, tableMap: map<string, seq<string>>)
  {
    forall h :: h in cache ==> exists t :: t in tableMap && h in tableMap[t]
  }

  /** The map without the keys listed in `hashes`. */
  function Without<R>(m: map<string, R>, hashes: seq<string>): (r: map<string, R>)
    ensures forall h :: h in r <==> h in m && h !in hashes
    ensures forall h :: h in r ==> r[h] == m[h]
  {
    map h | h in m && h !in hashes :: m[h]
  }

  /** The hashes listed for a table, none when it has no entry. */
  function Listed(tableMap: map<string, seq<string>>, table: string): seq<string>
  {
    if table in tableMap then tableMap[table] else []
  }

  /** Dropping the hashes of one table and its entry keeps every remaining
      hash listed: a hash that was listed only under that table is gone. */
  lemma ForgetKeepsIndexed<R>(cache: map<string, R>, tableMap: map<string, seq<string>>, table: string)
    requires Indexed(cache, tableMap) && table in tableMap
    ensures Indexed(Without(cache, tableMap[table]), tableMap - {table})
  {
    var c := Without(cache, tableMap[table]);
    var m := tableMap - {table};
    forall h | h in c ensures exists t :: t in m && h in m[t] {
      var t :| t in tableMap && h in tableMap[t];
      assert t != table;
      assert t in m && h in m[t];
    }
  }

  /** Storing a hash and listing it under the query's table keeps every
      hash listed. */
  lemma PutKeepsIndexed<R>(cache: map<string, R>, tableMap: map<string, seq<string>>, table: string, hash: string, results: R)
    requires Indexed(cache, tableMap)
    ensures Indexed(cache[hash := results], tableMap[table := Listed(tableMap, table) + [hash]])
  {
    var c := cache[hash := results];
    var m := tableMap[table := Listed(tableMap, table) + [hash]];
    forall h | h in c ensures exists t :: t in m && h in m[t] {
      if h == hash {
        assert h in m[table];
      } else {
        var t :| t in tableMap && h in tableMap[t];
        if t == table {
          assert h in m[table];
        } else {
          assert h in m[t];
        }
      }
    }
  }

  class MemoryCache<R> {
    /** Cached results by query hash. */
    var cache: map<string, R>
    /** The hashes stored for each table, in the order they were stored. */
    var tableMap: map<string, seq<string>>
    var enabled: bool
    /** The hash of a query (md5 over the connection name, the SQL and the
        bindings in the source). */
    const hash: Query -> string

    ghost predicate Valid()
      reads this
    {
      Indexed(cache, tableMap)
    }

    constructor(hash: Query -> string)
      ensures Valid()
      ensures cache == map[] && tableMap == map[] && enabled
      ensures this.hash == hash
    {
      cache := map[];
      tableMap := map[];
      enabled := true;
      this.hash := hash;
    }

    /** enabled(): sets the flag when given a value and returns the flag;
        the cached results stay as they are. */
    method Enabled(switch: Option<bool>) returns (r: bool)
      modifies this
      ensures enabled == (if switch.Some? then switch.value else old(enabled))
      ensures r == enabled
      ensures cache == old(cache) && tableMap == old(tableMap)
    {
      if switch.Some? {
        enabled := switch.value;
      }
      return enabled;
    }

    /** has(): the cache is on and holds results under the query's hash. */
    function Has(query: Query): (r: bool)
      reads this
      ensures r ==> enabled
      ensures enabled ==> (r <==> hash(query) in cache)
    {
      enabled && hash(query) in cache
    }

    /** get(): the results stored for the query, None (PHP null) when the
        cache does not have it. */
    function Get(query: Query): (r: Option<R>)
      reads this
      ensures r.Some? <==> Has(query)
      ensures !enabled ==> r.None?
      ensures r.Some? ==> hash(query) in cache && r.value == cache[hash(query)]
    {
      if Has(query) then Some(cache[hash(query)]) else None
    }

    /** put(): while enabled, stores the results under the query's hash and
        appends the hash to the list of the query's table; while disabled,
        does nothing. */
    method Put(query: Query, results: R)
      requires Valid()
      modifies this
      ensures Valid()
      ensures enabled == old(enabled)
      ensures !enabled ==> cache == old(cache) && tableMap == old(tableMap)
      ensures enabled ==> cache == old(cache)[hash(query) := results]
      ensures enabled ==> tableMap == old(tableMap)[query.from := Listed(old(tableMap), query.from) + [hash(query)]]
      ensures enabled ==> Has(query) && Get(query) == Some(results)
    {
      if !enabled {
        return;
      }
      var h := hash(query);
      PutKeepsIndexed(cache, tableMap, query.from, h, results);
      cache := cache[h := results];
      tableMap := tableMap[query.from := Listed(tableMap, query.from) + [h]];
    }

    /** forget(): drops every result listed for the table and the table's
        entry; a table without an entry leaves everything as it is. */
    method Forget(table: string)
      requires Valid()
      modifies this
      ensures Valid()
      ensures enabled == old(enabled)
      ensures table !in old(tableMap) ==> cache == old(cache) && tableMap == old(tableMap)
      ensures table in old(tableMap) ==> cache == Without(old(cache), old(tableMap)[table])
      ensures tableMap == old(tableMap) - {table}
      ensures forall q :: hash(q) in Listed(old(tableMap), table) ==> !Has(q)
    {
      if table !in tableMap {
        return;
      }
      var hashes := tableMap[table];
      ForgetKeepsIndexed(cache, tableMap, table);
      for i := 0 to |hashes|
        invariant cache == Without(old(cache), hashes[..i])
        invariant tableMap == old(tableMap) && enabled == old(enabled)
      {
        assert hashes[..i + 1] == hashes[..i] + [hashes[i]];
        cache := cache - {hashes[i]};
      }
      assert hashes[..|hashes|] == hashes;
      tableMap := tableMap - {table};
    }

    /** flush(): empties the cache and the table index; the flag stays. */
    method Flush()
      modifies this
      ensures Valid()
      ensures cache == map[] && tableMap == map[]
      ensures enabled == old(enabled)
    {
      cache := map[];
      tableMap := map[];
    }
  }
}
