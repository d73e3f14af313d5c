/** The browser's `localStorage` and the `cache.js` helpers over it. The
    store keeps JSON texts; here a text is represented by the value it
    encodes, so `JSON.parse(JSON.stringify(v)) == v` holds by construction. */
module Storage {
  import opened Wrappers

  /** A coordinate pair `[lat, lon]`, kept as it was received. */
  datatype LatLon = LatLon(lat: real, lon: real)

  /** The JSON values the caches hold: `null` or a `[lat, lon]` array. */
  datatype Json = Null | Pair(coords: LatLon)

  /** `localStorage`: a string-keyed store whose entries change in place. */
  class Store {
    var items: map<string, Json>

    constructor ()
      ensures items == map[]
    {
      items := map[];
    }

    /** `setItem`: the entry for `key` becomes `value`, nothing else changes. */
    method SetItem(key: string, value: Json)
      modifies this
      ensures items == old(items)[key := value]
    {
      items := items[key := value];
    }

    /** `getItem`: the stored entry, or `null` when there is none. */
    method GetItem(key: string) returns (r: Option<Json>)
      ensures r.Some? <==> key in items
      ensures r.Some? ==> r.value == items[key]
    {
      if key in items {
        r := Some(items[key]);
      } else {
        r := None;
      }
    }
  }

  /** What `getGeoCache` reads for `key`: the stored value, and `null` for a
      missing entry (a stored text is never empty, so it is never falsy). */
  function Cached(items: map<string, Json>, key: string): (v: Json)
    ensures key !in items ==> v == Null
    ensures v.Pair? ==> key in items && items[key] == v
  {
    if key in items then items[key] else Null
  }

  /** What a `localStorage` call throws when the browser refuses it (a full
      quota, storage disabled). The helpers of cache.js do not catch it. */
  datatype StorageError = StorageThrew

  /** `addGeoCache` of cache.js: stores `value` under `key`. When `setItem`
      throws (`fails`), the store is left as it was and the error reaches
      the caller. */
  method AddGeoCache(store: Store, key: string, value: Json, fails: bool) returns (r: Result<(), StorageError>)
    modifies store
    ensures r.Err? <==> fails
    ensures !fails ==> store.items == old(store.items)[key := value]
    ensures fails ==> store.items == old(store.items)
  {
    if fails {
      return Err(StorageThrew);
    }
    store.SetItem(key, value);
    r := Ok(());
  }

  /** `getGeoCache` of cache.js: reads `key`, changing nothing. When
      `getItem` throws (`fails`), the error reaches the caller. */
  method GetGeoCache(store: Store, key: string, fails: bool) returns (r: Result<Json, StorageError>)
    ensures r.Err? <==> fails
    ensures r.Ok? ==> r.value == Cached(store.items, key)
  {
    if fails {
      return Err(StorageThrew);
    }
    var cached := store.GetItem(key);
    if cached.Some? {
      r := Ok(cached.value);
    } else {
      r := Ok(Null);
    }
  }

  /** A value written is the value read back. */
  lemma ReadAfterWrite(items: map<string, Json>, key: string, value: Json)
    ensures Cached(items[key := value], key) == value
  {
  }

  /** A write leaves every other key as it was. */
  lemma WriteLeavesOthers(items: map<string, Json>, key: string, value: Json, other: string)
    requires other != key
    ensures Cached(items[key := value], other) == Cached(items, other)
  {
  }

  /** The last write to a key wins. */
  lemma LastWriterWins(items: map<string, Json>, key: string, first: Json, second: Json)
    ensures items[key := first][key := second] == items[key := second]
  {
  }
}
