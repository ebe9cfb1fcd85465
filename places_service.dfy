/** The post-processing `find_places` applies to the elements the Overpass
    service returns: choose coordinates, keep named elements, measure the
    distance, drop what cannot be measured, sort by distance and truncate. */
module PlacesService {
  import opened Wrappers
  import opened Sorting

  const DefaultRadius: int := 3000
  const DefaultLimit: int := 20

  type Tags = map<string, string>

  /** The `center` object of an area feature. */
  datatype Center = Center(lat: Option<real>, lon: Option<real>)

  /** One element of the provider's `elements` list; every field may be absent. */
  datatype Element = Element(
    id: Option<int>,
    lat: Option<real>,
    lon: Option<real>,
    center: Option<Center>,
    tags: Option<Tags>)

  /** The decoded JSON body of a successful request; `elements` may be missing. */
  datatype Reply = Reply(elements: Option<seq<Element>>)

  /** One place of the result: the dict `find_places` appends for each kept element. */
  datatype Place = Place(
    id: Option<int>,
    name: string,
    tags: Tags,
    lat: Option<real>,
    lon: Option<real>,
    distance: Option<real>)

  /** The great-circle distance in metres between two points, left uninterpreted. */
  type Haversine = (real, real, real, real) -> real

  /** Python truthiness of an optional number: present and non-zero. */
  predicate Truthy(x: Option<real>) {
    x.Some? && x.value != 0.0
  }

  /** `(el.get("center") or {}).get("lat")`. */
  function CenterLat(el: Element): Option<real> {
    if el.center.Some? then el.center.value.lat else None
  }

  /** `(el.get("center") or {}).get("lon")`. */
  function CenterLon(el: Element): Option<real> {
    if el.center.Some? then el.center.value.lon else None
  }

  /** `el.get("lat") or <center lat>`: the element's own latitude when truthy. */
  function ChosenLat(el: Element): Option<real> {
    if Truthy(el.lat) then el.lat else CenterLat(el)
  }

  /** `el.get("lon") or <center lon>`. */
  function ChosenLon(el: Element): Option<real> {
    if Truthy(el.lon) then el.lon else CenterLon(el)
  }

  /** `el.get("tags") or {}`. */
  function TagsOf(el: Element): Tags {
    if el.tags.Some? then el.tags.value else map[]
  }

  /** `tags.get("name")`. */
  function NameOf(tags: Tags): Option<string> {
    if "name" in tags then Some(tags["name"]) else None
  }

  /** What one pass of the loop appends for `el`; `None` where it `continue`s. */
  function Entry(el: Element, lat: real, lon: real, haversine: Haversine): (r: Option<Place>)
    ensures r.Some? <==> el.tags.Some? && "name" in el.tags.value && el.tags.value["name"] != ""
    ensures r.Some? ==> r.value.id == el.id && el.tags == Some(r.value.tags)
    ensures r.Some? ==> r.value.name == r.value.tags["name"] && r.value.name != ""
    ensures r.Some? ==> r.value.lat == ChosenLat(el) && r.value.lon == ChosenLon(el)
    ensures r.Some? ==> (r.value.distance.Some? <==> Truthy(ChosenLat(el)) && Truthy(ChosenLon(el)))
    ensures r.Some? && r.value.distance.Some? ==>
      r.value.distance.value == haversine(lat, lon, ChosenLat(el).value, ChosenLon(el).value)
  {
    var tags := TagsOf(el);
    var name := NameOf(tags);
    if name.None? || name.value == "" then None
    else
      var latEl, lonEl := ChosenLat(el), ChosenLon(el);
      var dist := if Truthy(latEl) && Truthy(lonEl)
                  then Some(haversine(lat, lon, latEl.value, lonEl.value)) else None;
      Some(Place(el.id, name.value, tags, latEl, lonEl, dist))
  }

  /** The `results` list the loop builds from `elements`. */
  function Entries(elements: seq<Element>, lat: real, lon: real, haversine: Haversine): (r: seq<Place>)
    ensures |r| <= |elements|
  {
    if elements == [] then []
    else
      var e := Entry(elements[|elements| - 1], lat, lon, haversine);
      Entries(elements[..|elements| - 1], lat, lon, haversine) + (if e.Some? then [e.value] else [])
  }

  /** `[r for r in results if r.get("distance_m") is not None]`. */
  function Measured(results: seq<Place>): (r: seq<Place>)
    ensures |r| <= |results|
  {
    if results == [] then []
    else
      var last := results[|results| - 1];
      Measured(results[..|results| - 1]) + (if last.distance.Some? then [last] else [])
  }

  /** The sort key `x["distance_m"]`; entries without a distance never reach the sort. */
  function DistanceKey(p: Place): real {
    if p.distance.Some? then p.distance.value else 0.0
  }

  /** Python's `s[:n]`: a negative `n` counts from the end. */
  function SliceTo<T>(s: seq<T>, n: int): (r: seq<T>)
    ensures |r| <= |s| && r == s[..|r|]
    ensures 0 <= n ==> |r| == if n < |s| then n else |s|
    ensures n < 0 ==> |r| == if |s| + n < 0 then 0 else |s| + n
  {
    if 0 <= n then (if n < |s| then s[..n] else s)
    else if |s| + n < 0 then [] else s[..|s| + n]
  }

  /** `elements` with its default: a reply without the key has none. */
  function ElementsOf(reply: Reply): seq<Element> {
    if reply.elements.Some? then reply.elements.value else []
  }

  /** The measured entries, stably sorted by distance. */
  function Ranking(elements: seq<Element>, lat: real, lon: real, haversine: Haversine): seq<Place> {
    Sort(Measured(Entries(elements, lat, lon, haversine)), DistanceKey)
  }

  /** The list `find_places` returns for a successful request. */
  function Ranked(elements: seq<Element>, lat: real, lon: real, haversine: Haversine, limit: int): seq<Place> {
    SliceTo(Ranking(elements, lat, lon, haversine), limit)
  }

  /** `find_places` once the request is made: `reply` is `None` when it raised a
      `RequestException`. The radius only shapes the request. */
  method FindPlaces(lat: real, lon: real, reply: Option<Reply>, haversine: Haversine,
                    radius: int := DefaultRadius, limit: int := DefaultLimit)
    returns (r: Option<seq<Place>>)
    ensures reply.None? <==> r.None?
    ensures reply.Some? ==> r == Some(Ranked(ElementsOf(reply.value), lat, lon, haversine, limit))
    ensures r.Some? ==> SortedBy(r.value, DistanceKey)
    ensures r.Some? && 0 <= limit ==> |r.value| <= limit
    ensures r.Some? ==> forall p :: p in r.value ==>
      && p.name != ""
      && NameOf(p.tags) == Some(p.name)
      && p.distance.Some?
      && Truthy(p.lat) && Truthy(p.lon)
      && p.distance.value == haversine(lat, lon, p.lat.value, p.lon.value)
    ensures reply.Some? && ElementsOf(reply.value) == [] ==> r == Some([])
  {
    if reply.None? {
      return None;
    }
    var elements := ElementsOf(reply.value);
    var results: seq<Place> := [];
    for i := 0 to |elements|
      invariant results == Entries(elements[..i], lat, lon, haversine)
    {
      var el := elements[i];
      var latEl := ChosenLat(el);
      var lonEl := ChosenLon(el);
      var tags := TagsOf(el);
      var name := NameOf(tags);
      assert elements[..i + 1][..i] == elements[..i];
      if name.None? || name.value == "" {
        continue;
      }
      var dist := if Truthy(latEl) && Truthy(lonEl)
                  then Some(haversine(lat, lon, latEl.value, lonEl.value)) else None;
      results := results + [Place(el.id, name.value, tags, latEl, lonEl, dist)];
    }
    assert elements[..|elements|] == elements;
    results := Measured(results);
    results := Sort(results, DistanceKey);
    r := Some(SliceTo(results, limit));
    RankedProperties(elements, lat, lon, haversine, limit);
  }

  /** A zero latitude counts as missing: the center's latitude is used instead. */
  lemma ZeroLatitudeFallsBack(el: Element)
    requires el.lat == Some(0.0)
    ensures ChosenLat(el) == CenterLat(el)
  {
  }

  /** Every entry of the loop's list comes from one of the elements, and every
      element that passes the name test contributes its entry. */
  lemma {:induction false} EntriesFromElements(elements: seq<Element>, lat: real, lon: real, haversine: Haversine)
    ensures forall p :: p in Entries(elements, lat, lon, haversine) ==>
      exists j :: 0 <= j < |elements| && Entry(elements[j], lat, lon, haversine) == Some(p)
    ensures forall j :: 0 <= j < |elements| && Entry(elements[j], lat, lon, haversine).Some? ==>
      Entry(elements[j], lat, lon, haversine).value in Entries(elements, lat, lon, haversine)
  {
    if elements != [] {
      var front := elements[..|elements| - 1];
      EntriesFromElements(front, lat, lon, haversine);
      forall p | p in Entries(elements, lat, lon, haversine)
        ensures exists j :: 0 <= j < |elements| && Entry(elements[j], lat, lon, haversine) == Some(p)
      {
        if p in Entries(front, lat, lon, haversine) {
          var j :| 0 <= j < |front| && Entry(front[j], lat, lon, haversine) == Some(p);
          assert elements[j] == front[j];
        } else {
          assert Entry(elements[|elements| - 1], lat, lon, haversine) == Some(p);
        }
      }
      forall j | 0 <= j < |elements| && Entry(elements[j], lat, lon, haversine).Some?
        ensures Entry(elements[j], lat, lon, haversine).value in Entries(elements, lat, lon, haversine)
      {
        if j < |front| {
          assert elements[j] == front[j];
        }
      }
    }
  }

  /** The filter keeps exactly the entries that carry a distance. */
  lemma {:induction false} MeasuredKeepsDistances(results: seq<Place>)
    ensures forall p :: p in Measured(results) <==> p in results && p.distance.Some?
  {
    if results != [] {
      var front := results[..|results| - 1];
      MeasuredKeepsDistances(front);
      assert results == front + [results[|results| - 1]];
    }
  }

  /** A place reaches the ranking exactly when some element yields it with a
      distance: a non-empty name and truthy chosen coordinates. */
  lemma RankingMembers(elements: seq<Element>, lat: real, lon: real, haversine: Haversine)
    ensures forall p :: p in Ranking(elements, lat, lon, haversine) <==>
      p.distance.Some? && exists j :: 0 <= j < |elements| && Entry(elements[j], lat, lon, haversine) == Some(p)
  {
    var entries := Entries(elements, lat, lon, haversine);
    var measured := Measured(entries);
    EntriesFromElements(elements, lat, lon, haversine);
    MeasuredKeepsDistances(entries);
    forall p ensures p in Ranking(elements, lat, lon, haversine) <==> p in measured {
      assert p in Ranking(elements, lat, lon, haversine) <==> p in multiset(Ranking(elements, lat, lon, haversine));
      assert p in measured <==> p in multiset(measured);
    }
  }

  /** The ranking is a permutation of the measured entries, ordered by distance,
      and entries at equal distance keep the order of the input elements. */
  lemma RankingIsStableSort(elements: seq<Element>, lat: real, lon: real, haversine: Haversine)
    ensures var measured := Measured(Entries(elements, lat, lon, haversine));
      && multiset(Ranking(elements, lat, lon, haversine)) == multiset(measured)
      && SortedBy(Ranking(elements, lat, lon, haversine), DistanceKey)
      && forall d :: WithKey(Ranking(elements, lat, lon, haversine), DistanceKey, d) == WithKey(measured, DistanceKey, d)
  {
    var measured := Measured(Entries(elements, lat, lon, haversine));
    SortSorted(measured, DistanceKey);
    forall d ensures WithKey(Ranking(elements, lat, lon, haversine), DistanceKey, d) == WithKey(measured, DistanceKey, d) {
      SortStable(measured, DistanceKey, d);
    }
  }

  /** The result is the first `limit` places of the ranking: no place left out
      is nearer than a place kept. */
  lemma RankedTakesNearest(elements: seq<Element>, lat: real, lon: real, haversine: Haversine, limit: int)
    requires 0 <= limit
    ensures var all, r := Ranking(elements, lat, lon, haversine), Ranked(elements, lat, lon, haversine, limit);
      && r == all[..|r|]
      && |r| == (if limit < |all| then limit else |all|)
      && forall i, j :: 0 <= i < |r| <= j < |all| ==> DistanceKey(r[i]) <= DistanceKey(all[j])
  {
    RankingIsStableSort(elements, lat, lon, haversine);
  }

  /** What every returned place satisfies. */
  lemma RankedProperties(elements: seq<Element>, lat: real, lon: real, haversine: Haversine, limit: int)
    ensures var r := Ranked(elements, lat, lon, haversine, limit);
      && SortedBy(r, DistanceKey)
      && (0 <= limit ==> |r| <= limit)
      && forall p :: p in r ==>
        && p.name != ""
        && NameOf(p.tags) == Some(p.name)
        && p.distance.Some?
        && Truthy(p.lat) && Truthy(p.lon)
        && p.distance.value == haversine(lat, lon, p.lat.value, p.lon.value)
        && exists j :: 0 <= j < |elements| && Entry(elements[j], lat, lon, haversine) == Some(p)
  {
    var all := Ranking(elements, lat, lon, haversine);
    var r := Ranked(elements, lat, lon, haversine, limit);
    RankingIsStableSort(elements, lat, lon, haversine);
    RankingMembers(elements, lat, lon, haversine);
    forall p | p in r
      ensures p in all
    {
      assert r == all[..|r|];
    }
  }
}
