/**
 * The elements cache shared by the interaction tools
 * (src/services/tools_cache_manager.py): a manager object holding a
 * reference to a dictionary from element ids to element records, and the
 * one shared manager every lookup returns.
 *
 * Dictionaries are objects, so replacing the manager's dictionary and
 * clearing it in place are different things: a dictionary obtained earlier
 * is emptied by a clear but untouched by a replace.
 */
module ElementsCache {
  import opened Optional
  import opened Locator

  /** A Python dict from element ids to element records. */
  class Dict {
    var entries: map<Value, Record>

    constructor (m: map<Value, Record>)
      ensures entries == m
    {
      entries := m;
    }

    /** `d[k] = v`. */
    method Store(k: Value, v: Record)
      modifies this
      ensures entries == old(entries)[k := v]
    {
      entries := entries[k := v];
    }

    /** `d.clear()`. */
    method Clear()
      modifies this
      ensures entries == map[]
    {
      entries := map[];
    }
  }

  class ElementsCacheManager {
    var cache: Dict

    /** A fresh manager starts with an empty dictionary of its own. */
    constructor ()
      ensures fresh(cache) && cache.entries == map[]
    {
      cache := new Dict(map[]);
    }

    /** The current dictionary itself, not a copy. */
    method GetCache() returns (c: Dict)
      ensures c == cache
    {
      c := cache;
    }

    /** Replaces the dictionary by reference: the old one is left as it was. */
    method SetCache(c: Dict)
      modifies this
      ensures cache == c
    {
      cache := c;
    }

    /** Empties the current dictionary in place. */
    method ClearCache()
      modifies cache
      ensures cache.entries == map[]
    {
      cache.Clear();
    }

    /** The record stored under `k`, or None. */
    method GetElement(k: Value) returns (r: Option<Record>)
      ensures r.Some? <==> k in cache.entries
      ensures r.Some? ==> r.value == cache.entries[k]
    {
      if k in cache.entries {
        r := Some(cache.entries[k]);
      } else {
        r := None;
      }
    }
  }

  /** The class-level `_instance` slot of the singleton. */
  class Registry {
    var instance: ElementsCacheManager?

    constructor ()
      ensures instance == null
    {
      instance := null;
    }

    /**
     * get_elements_cache: the first call creates the manager with an empty
     * cache; every later call returns that same manager with its cache as it
     * was (the `hasattr` guard of `__init__` always finds `_cache`).
     */
    method GetElementsCache() returns (m: ElementsCacheManager)
      modifies this
      ensures instance == m
      ensures old(instance) != null ==> m == old(instance) && m.cache == old(m.cache)
      ensures old(instance) == null ==> fresh(m) && fresh(m.cache) && m.cache.entries == map[]
    {
      if instance == null {
        instance := new ElementsCacheManager();
      }
      m := instance;
    }
  }

  /** A dictionary obtained before a clear is the one cleared. */
  method ClearEmptiesEarlierHandles(m: ElementsCacheManager) returns (earlier: Dict)
    modifies m.cache
    ensures earlier == m.cache && earlier.entries == map[]
  {
    earlier := m.GetCache();
    m.ClearCache();
  }

  /** A dictionary obtained before a replace keeps its entries. */
  method SetLeavesEarlierHandles(m: ElementsCacheManager, c: Dict) returns (earlier: Dict)
    modifies m
    ensures earlier == old(m.cache) && earlier.entries == old(m.cache.entries)
    ensures m.cache == c && m.cache.entries == old(c.entries)
  {
    earlier := m.GetCache();
    m.SetCache(c);
  }

  /** Two handles obtained from the registry are one object, so a replace
      through one is seen through the other. */
  method SharedInstance(reg: Registry, c: Dict) returns (first: ElementsCacheManager, second: ElementsCacheManager)
    modifies reg, reg.instance
    ensures first == second && second.cache == c
  {
    first := reg.GetElementsCache();
    second := reg.GetElementsCache();
    first.SetCache(c);
  }
}
