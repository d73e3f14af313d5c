/** The cache-first geocoding of location names, in its three versions:
    `geocode` of script.js, `getCoordiantes` / `fetchAndSetToCache` of
    js/funcs.js and `fetchCoordiantes` of js/infra/nominatium_fetchCoord.js.
    The Nominatim request is not modelled: its outcome is an input. */
module Geocode {
  import opened Wrappers
  import opened Storage
  import opened Translate

  /** What the Nominatim search gave: a thrown error (network or JSON),
      no usable candidate, or the coordinates of the first candidate. */
  datatype Answer = Failure | NoResult | Found(first: LatLon)

  /** One lookup: its result, the store afterwards, and whether the
      network was asked. */
  datatype Outcome = Outcome(result: Option<LatLon>, items: map<string, Json>, fetched: bool)

  /** The key under which script.js and js/funcs.js look a name up. */
  function GeoKey(name: string): (key: string)
    ensures |key| == |name| + 4 && key != name
  {
    "geo_" + name
  }

  /** A result as JSON: the pair, or `null`. */
  function Encode(r: Option<LatLon>): (v: Json)
    ensures v.Pair? <==> r.Some?
    ensures r.Some? ==> v.coords == r.value
  {
    match r
    case Some(c) => Pair(c)
    case None => Null
  }

  /** The coordinates in an answer, if any. */
  function Coordinates(answer: Answer): (r: Option<LatLon>)
    ensures r.Some? <==> answer.Found?
    ensures answer.Found? ==> r.value == answer.first
  {
    if answer.Found? then Some(answer.first) else None
  }

  // ---------------------------------------------------------------- script.js

  /** `geocode(name)`: the static `coord` table first; on a miss the answer,
      stored under `"geo_"+name` only when it has coordinates. The write
      sits inside the `try`: when `setItem` throws (`writeFails`), the
      coordinates are dropped and null is returned. */
  function GeocodeSpec(coord: map<string, LatLon>, items: map<string, Json>, name: string, answer: Answer, writeFails: bool): (out: Outcome)
    ensures out.result.Some? <==> GeoKey(name) in coord || (answer.Found? && !writeFails)
    ensures forall key :: key != GeoKey(name) ==> Cached(out.items, key) == Cached(items, key)
  {
    var key := GeoKey(name);
    if key in coord then Outcome(Some(coord[key]), items, false)
    else match answer
      case Found(c) =>
        if writeFails then Outcome(None, items, true)
        else Outcome(Some(c), items[key := Pair(c)], true)
      case _ => Outcome(None, items, true)
  }

  method Geocode(coord: map<string, LatLon>, storage: Store, name: string, answer: Answer, writeFails: bool)
    returns (r: Option<LatLon>, fetched: bool)
    modifies storage
    ensures Outcome(r, storage.items, fetched) == GeocodeSpec(coord, old(storage.items), name, answer, writeFails)
  {
    var key := GeoKey(name);
    if key in coord {
      return Some(coord[key]), false;
    }
    fetched := true;
    match answer {
      case Found(c) =>
        if writeFails {
          r := None;
        } else {
          storage.SetItem(key, Pair(c));
          r := Some(c);
        }
      case _ =>
        r := None;
    }
  }

  /** A name in the static table is answered from it: no request, no write. */
  lemma GeocodeStaticHit(coord: map<string, LatLon>, items: map<string, Json>, name: string, answer: Answer, writeFails: bool)
    requires GeoKey(name) in coord
    ensures GeocodeSpec(coord, items, name, answer, writeFails) == Outcome(Some(coord[GeoKey(name)]), items, false)
  {
  }

  /** A successful request whose write goes through returns the first
      candidate and stores it under `"geo_"+name`; an empty answer, an
      error, or a write that throws returns null and stores nothing. */
  lemma GeocodeMiss(coord: map<string, LatLon>, items: map<string, Json>, name: string, answer: Answer, writeFails: bool)
    requires GeoKey(name) !in coord
    ensures var out := GeocodeSpec(coord, items, name, answer, writeFails);
      && out.fetched
      && (!writeFails ==> out.result == Coordinates(answer))
      && (answer.Found? && !writeFails ==> Cached(out.items, GeoKey(name)) == Pair(answer.first))
      && (!answer.Found? || writeFails ==> out.result == None && out.items == items)
  {
  }

  /** `geocode` never reads what it stores: the outcome does not depend on
      the store, so a name missing from the static table is requested again
      on every call, however often it was stored. */
  lemma GeocodeIgnoresStore(coord: map<string, LatLon>, items: map<string, Json>, other: map<string, Json>, name: string, answer: Answer, writeFails: bool)
    ensures GeocodeSpec(coord, items, name, answer, writeFails).result == GeocodeSpec(coord, other, name, answer, writeFails).result
    ensures GeocodeSpec(coord, items, name, answer, writeFails).fetched == GeocodeSpec(coord, other, name, answer, writeFails).fetched
  {
  }

  // ---------------------------------------------------------------- js/funcs.js

  /** `getCoordiantes(ruName)`: translate, look `"geo_"+name` up in the
      static tier and then in the persistent one; on a miss
      `fetchAndSetToCache(name)` asks the network and writes the result,
      even `null`, under the bare `name`. Neither cache.js helper catches a
      storage error, so a `getItem` that throws (`readFails`) or a `setItem`
      that throws (`writeFails`) rejects the lookup with the store as it
      was. */
  function CoordinatesSpec(statics: map<string, LatLon>, items: map<string, Json>, dict: Dictionary, ruName: string,
                           answer: Answer, readFails: bool, writeFails: bool): (out: Result<Outcome, StorageError>)
    ensures var key := GeoKey(TranslateLocation(dict, ruName));
      out.Err? <==> key !in statics && (readFails || (Cached(items, key).Null? && writeFails))
    ensures out.Ok? ==> forall key :: key != TranslateLocation(dict, ruName) ==> Cached(out.value.items, key) == Cached(items, key)
  {
    var name := TranslateLocation(dict, ruName);
    var key := GeoKey(name);
    if key in statics then Ok(Outcome(Some(statics[key]), items, false))
    else if readFails then Err(StorageThrew)
    else match Cached(items, key)
      case Pair(c) => Ok(Outcome(Some(c), items, false))
      case Null =>
        var r := Coordinates(answer);
        if writeFails then Err(StorageThrew) else Ok(Outcome(r, items[name := Encode(r)], true))
  }

  /** `fetchAndSetToCache(name)`: request, write the result under `name`;
      a throwing write rejects. */
  method FetchAndSetToCache(store: Store, name: string, answer: Answer, writeFails: bool) returns (r: Result<Option<LatLon>, StorageError>)
    modifies store
    ensures r.Err? <==> writeFails
    ensures r.Ok? ==> r.value == Coordinates(answer)
    ensures !writeFails ==> store.items == old(store.items)[name := Encode(Coordinates(answer))]
    ensures writeFails ==> store.items == old(store.items)
  {
    var c := Coordinates(answer);
    var written := AddGeoCache(store, name, Encode(c), writeFails);
    if written.Err? {
      return Err(written.error);
    }
    r := Ok(c);
  }

  method GetCoordinates(statics: map<string, LatLon>, store: Store, dict: Dictionary, ruName: string,
                        answer: Answer, readFails: bool, writeFails: bool)
    returns (r: Result<Option<LatLon>, StorageError>, fetched: bool)
    modifies store
    ensures var spec := CoordinatesSpec(statics, old(store.items), dict, ruName, answer, readFails, writeFails);
      && (r.Ok? <==> spec.Ok?)
      && (spec.Ok? ==> Outcome(r.value, store.items, fetched) == spec.value)
      && (spec.Err? ==> store.items == old(store.items))
  {
    var name := TranslateLocation(dict, ruName);
    var key := GeoKey(name);
    if key in statics {
      return Ok(Some(statics[key])), false;
    }
    var cached := GetGeoCache(store, key, readFails);
    if cached.Err? {
      return Err(cached.error), false;
    }
    if cached.value.Pair? {
      return Ok(Some(cached.value.coords)), false;
    }
    r := FetchAndSetToCache(store, name, answer, writeFails);
    fetched := true;
  }

  /** The static tier is consulted before the persistent one, and a hit in
      either answers without a request or a write. A static hit never
      touches the store, so no storage error can reject it. */
  lemma TiersInOrder(statics: map<string, LatLon>, items: map<string, Json>, dict: Dictionary, ruName: string,
                     answer: Answer, readFails: bool, writeFails: bool)
    ensures var key := GeoKey(TranslateLocation(dict, ruName));
      && (key in statics ==>
            CoordinatesSpec(statics, items, dict, ruName, answer, readFails, writeFails) == Ok(Outcome(Some(statics[key]), items, false)))
      && (key !in statics && !readFails && Cached(items, key).Pair? ==>
            CoordinatesSpec(statics, items, dict, ruName, answer, readFails, writeFails) == Ok(Outcome(Some(Cached(items, key).coords), items, false)))
  {
  }

  /** A miss in both tiers asks the network and writes its result, even
      `null`, under the bare name; a throwing write rejects instead. */
  lemma CoordinatesMiss(statics: map<string, LatLon>, items: map<string, Json>, dict: Dictionary, ruName: string,
                        answer: Answer, writeFails: bool)
    requires GeoKey(TranslateLocation(dict, ruName)) !in statics
    requires Cached(items, GeoKey(TranslateLocation(dict, ruName))) == Null
    ensures var name := TranslateLocation(dict, ruName);
      CoordinatesSpec(statics, items, dict, ruName, answer, false, writeFails) ==
        if writeFails then Err(StorageThrew)
        else Ok(Outcome(Coordinates(answer), items[name := Encode(Coordinates(answer))], true))
  {
  }

  /** The lookup sees the Russian name only through its translation. */
  lemma TranslatesFirst(statics: map<string, LatLon>, items: map<string, Json>, dict: Dictionary, a: string, b: string,
                        answer: Answer, readFails: bool, writeFails: bool)
    requires TranslateLocation(dict, a) == TranslateLocation(dict, b)
    ensures CoordinatesSpec(statics, items, dict, a, answer, readFails, writeFails) == CoordinatesSpec(statics, items, dict, b, answer, readFails, writeFails)
  {
  }

  /** As written, the result of a request is stored under `name` but looked
      up under `"geo_"+name`: after a successful request the same location
      is requested again. */
  lemma AsWrittenRefetches(statics: map<string, LatLon>, items: map<string, Json>, dict: Dictionary, ruName: string, c: LatLon, again: Answer)
    requires GeoKey(TranslateLocation(dict, ruName)) !in statics
    requires Cached(items, GeoKey(TranslateLocation(dict, ruName))) == Null
    ensures var first := CoordinatesSpec(statics, items, dict, ruName, Found(c), false, false);
      && first.Ok? && first.value.fetched && first.value.result == Some(c)
      && var second := CoordinatesSpec(statics, first.value.items, dict, ruName, again, false, false);
      second.Ok? && second.value.fetched
  {
    var name := TranslateLocation(dict, ruName);
    var first := CoordinatesSpec(statics, items, dict, ruName, Found(c), false, false);
    assert first.value.items == items[name := Pair(c)];
    assert Cached(first.value.items, GeoKey(name)) == Null;
  }

  /** The evidently intended `getCoordiantes`: the result is written under
      the key it is looked up by. Storage errors reject as before. */
  function CoordinatesCorrected(statics: map<string, LatLon>, items: map<string, Json>, dict: Dictionary, ruName: string,
                                answer: Answer, readFails: bool, writeFails: bool): (out: Result<Outcome, StorageError>)
    ensures var key := GeoKey(TranslateLocation(dict, ruName));
      out.Err? <==> key !in statics && (readFails || (Cached(items, key).Null? && writeFails))
    ensures out.Ok? ==> forall key :: key != GeoKey(TranslateLocation(dict, ruName)) ==> Cached(out.value.items, key) == Cached(items, key)
  {
    var key := GeoKey(TranslateLocation(dict, ruName));
    if key in statics then Ok(Outcome(Some(statics[key]), items, false))
    else if readFails then Err(StorageThrew)
    else match Cached(items, key)
      case Pair(c) => Ok(Outcome(Some(c), items, false))
      case Null =>
        var r := Coordinates(answer);
        if writeFails then Err(StorageThrew) else Ok(Outcome(r, items[key := Encode(r)], true))
  }

  /** With the key corrected, a successful request is answered from the
      persistent tier the next time, with the same coordinates. */
  lemma CorrectedSecondLookupHits(statics: map<string, LatLon>, items: map<string, Json>, dict: Dictionary, ruName: string,
                                  c: LatLon, again: Answer, writeFails: bool)
    requires GeoKey(TranslateLocation(dict, ruName)) !in statics
    requires Cached(items, GeoKey(TranslateLocation(dict, ruName))) == Null
    ensures var first := CoordinatesCorrected(statics, items, dict, ruName, Found(c), false, false);
      && first.Ok? && first.value.fetched && first.value.result == Some(c)
      && CoordinatesCorrected(statics, first.value.items, dict, ruName, again, false, writeFails) == Ok(Outcome(Some(c), first.value.items, false))
  {
  }

  // ---------------------------------------------------------------- nominatium_fetchCoord.js

  /** The key the Nominatim helpers store a name under. */
  function CoordKey(key: string): (k: string)
    ensures |k| == |key| + 6 && k != key
  {
    key + "_coord"
  }

  /** `getGeoCache` of the Nominatim helpers: a storage error reads as a miss. */
  function CoordCached(items: map<string, Json>, key: string, readFails: bool): Json {
    if readFails then Null else Cached(items, CoordKey(key))
  }

  /** `addGeoCache` of the Nominatim helpers: a storage error is swallowed. */
  function CoordWrite(items: map<string, Json>, key: string, value: Json, writeFails: bool): map<string, Json> {
    if writeFails then items else items[CoordKey(key) := value]
  }

  method AddCoordCache(store: Store, key: string, value: Json, writeFails: bool)
    modifies store
    ensures store.items == CoordWrite(old(store.items), key, value, writeFails)
  {
    if !writeFails {
      store.SetItem(CoordKey(key), value);
    }
  }

  method GetCoordCache(store: Store, key: string, readFails: bool) returns (v: Json)
    ensures v == CoordCached(store.items, key, readFails)
  {
    if readFails {
      return Null;
    }
    var cached := store.GetItem(CoordKey(key));
    v := if cached.Some? then cached.value else Null;
  }

  /** `fetchCoordiantes(ruName)`: the stored pair if there is one; otherwise
      the request, whose coordinates are stored and returned, while an empty
      answer or an error returns null and stores nothing. */
  function FetchSpec(items: map<string, Json>, ruName: string, answer: Answer, readFails: bool, writeFails: bool): (out: Outcome)
    ensures forall key :: key != CoordKey(ruName) ==> Cached(out.items, key) == Cached(items, key)
  {
    match CoordCached(items, ruName, readFails)
    case Pair(c) => Outcome(Some(c), items, false)
    case Null =>
      match answer
      case Found(c) => Outcome(Some(c), CoordWrite(items, ruName, Pair(c), writeFails), true)
      case _ => Outcome(None, items, true)
  }

  method FetchCoordinates(store: Store, ruName: string, answer: Answer, readFails: bool, writeFails: bool)
    returns (r: Option<LatLon>, fetched: bool)
    modifies store
    ensures Outcome(r, store.items, fetched) == FetchSpec(old(store.items), ruName, answer, readFails, writeFails)
  {
    var cached := GetCoordCache(store, ruName, readFails);
    if cached.Pair? {
      return Some(cached.coords), false;
    }
    fetched := true;
    match answer {
      case Found(c) =>
        AddCoordCache(store, ruName, Pair(c), writeFails);
        r := Some(c);
      case _ =>
        r := None;
    }
  }

  /** A stored pair is returned without a request. */
  lemma FetchHit(items: map<string, Json>, ruName: string, answer: Answer, writeFails: bool, c: LatLon)
    requires Cached(items, CoordKey(ruName)) == Pair(c)
    ensures FetchSpec(items, ruName, answer, false, writeFails) == Outcome(Some(c), items, false)
  {
  }

  /** On a miss, an empty answer or an error returns null and writes nothing. */
  lemma FetchFailureWritesNothing(items: map<string, Json>, ruName: string, answer: Answer, readFails: bool, writeFails: bool)
    requires CoordCached(items, ruName, readFails) == Null && !answer.Found?
    ensures FetchSpec(items, ruName, answer, readFails, writeFails) == Outcome(None, items, true)
  {
  }

  /** After a successful request whose write went through, the next lookup
      of the same name hits with the same coordinates and asks nothing. */
  lemma FetchThenHit(items: map<string, Json>, ruName: string, c: LatLon, readFails: bool, again: Answer, writeFails: bool)
    requires CoordCached(items, ruName, readFails) == Null
    ensures var first := FetchSpec(items, ruName, Found(c), readFails, false);
      && first.fetched && first.result == Some(c)
      && Cached(first.items, CoordKey(ruName)) == Pair(c)
      && FetchSpec(first.items, ruName, again, false, writeFails) == Outcome(Some(c), first.items, false)
  {
  }

  /** A failing read behaves as a miss: the result and the request are those
      of an empty store. */
  lemma ReadFailureIsMiss(items: map<string, Json>, ruName: string, answer: Answer, writeFails: bool)
    ensures FetchSpec(items, ruName, answer, true, writeFails).result == FetchSpec(map[], ruName, answer, false, writeFails).result
    ensures FetchSpec(items, ruName, answer, true, writeFails).fetched
  {
  }

  /** A failing write changes nothing but the store: the coordinates are
      still returned. */
  lemma WriteFailureIsSilent(items: map<string, Json>, ruName: string, answer: Answer, readFails: bool)
    ensures FetchSpec(items, ruName, answer, readFails, true).items == items
    ensures FetchSpec(items, ruName, answer, readFails, true).result == FetchSpec(items, ruName, answer, readFails, false).result
  {
  }
}
