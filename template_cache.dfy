/**
 * The in-process template cache (`TEMPLATE_CACHE`, `TEMPLATE_CACHE_TS`) behind
 * `get_template` and `reload_templates`.
 *
 * The database is a loader `db`: `db(id)` is what `load_template_from_db(id)` returns
 * at the time of the call (None for a failed connection or a missing row). The clock
 * reading stored in the time stamp is a parameter. The ghost counter `dbReads` counts
 * the loader calls, so that a cache hit can be told apart from a database read.
 */
module TemplateCache {
  import opened Wrappers
  import opened Generator

  class Cache {
    var entries: map<int, Template>
    var stamp: int
    ghost var dbReads: nat

    constructor ()
      ensures entries == map[] && stamp == 0 && dbReads == 0
    {
      entries := map[];
      stamp := 0;
      dbReads := 0;
    }

    /** Every cached template is what the database holds for its id. */
    ghost predicate Coherent(db: int -> Option<Template>)
      reads this
    {
      forall id :: id in entries ==> db(id) == Some(entries[id])
    }

    /** A cached id is answered from the cache with no database read. Otherwise the
      * database is read once; a template found there is cached and stamps the cache,
      * a None result is returned and not cached. */
    method Get(id: int, db: int -> Option<Template>, clock: int) returns (r: Option<Template>)
      modifies this
      ensures old(id in entries) ==>
        r == Some(old(entries[id])) && entries == old(entries) && stamp == old(stamp) &&
        dbReads == old(dbReads)
      ensures !old(id in entries) ==> r == db(id) && dbReads == old(dbReads) + 1
      ensures !old(id in entries) && r.Some? ==>
        entries == old(entries)[id := r.value] && stamp == clock
      ensures !old(id in entries) && r.None? ==> entries == old(entries) && stamp == old(stamp)
      ensures old(Coherent(db)) ==> Coherent(db) && r == db(id)
    {
      if id in entries {
        return Some(entries[id]);
      }
      r := db(id);
      dbReads := dbReads + 1;
      if r.Some? {
        entries := entries[id := r.value];
        stamp := clock;
      }
    }

    /** `reload_templates`: the cache is emptied and stamped. */
    method Reload(clock: int)
      modifies this
      ensures entries == map[] && stamp == clock && dbReads == old(dbReads)
      ensures forall db: int -> Option<Template> :: Coherent(db)
    {
      entries := map[];
      stamp := clock;
    }
  }
}
