/** The places child agent: geocode the place, ask for places within a radius
    of its coordinates, and wrap the answer. */
module PlacesAgents {
  import opened Wrappers
  import opened GeocodeService
  import opened AgentResults
  import PlacesService
  import Sorting

  /** The places tool at given coordinates and radius: `None` when the request
      failed, otherwise the (possibly empty) ranked list. */
  type PlacesTool = (real, real, int) -> Option<seq<PlacesService.Place>>

  class PlacesAgent {
    const search: Search
    const places: PlacesTool

    constructor(search: Search, places: PlacesTool)
      ensures this.search == search && this.places == places
    {
      this.search := search;
      this.places := places;
    }

    /** `PlacesAgent.handle`. Unlike the weather agent it fails only on `None`:
        an empty list is a successful answer. */
    function Handle(place: string, radius: int := PlacesService.DefaultRadius): (r: AgentResult<seq<PlacesService.Place>>)
      ensures Geocode(place, search).None? <==> r == Failure(PlaceNotFound)
      ensures place == "" ==> r == Failure(PlaceNotFound)
      ensures r == Failure(PlacesUnavailable) <==>
        Geocode(place, search).Some? &&
        places(Geocode(place, search).value.lat, Geocode(place, search).value.lon, radius).None?
      ensures r.Failure? ==> r.error == PlaceNotFound || r.error == PlacesUnavailable
      ensures r.Success? ==>
        && Geocode(place, search) == Some(r.location)
        && places(r.location.lat, r.location.lon, radius) == Some(r.payload)
    {
      match Geocode(place, search)
      case None => Failure(PlaceNotFound)
      case Some(geo) =>
        match places(geo.lat, geo.lon, radius)
        case None => Failure(PlacesUnavailable)
        case Some(results) => Success(geo, results)
    }
  }

  /** An empty list from a found place is a success carrying no places. */
  lemma EmptyListIsSuccess(a: PlacesAgent, place: string, radius: int)
    requires Geocode(place, a.search).Some?
    requires var g := Geocode(place, a.search).value; a.places(g.lat, g.lon, radius) == Some([])
    ensures a.Handle(place, radius) == Success(Geocode(place, a.search).value, [])
  {
  }

  /** When the place is not found the places tool is never consulted. */
  lemma PlacesToolNotCalledWhenNotFound(a: PlacesAgent, b: PlacesAgent, place: string, radius: int)
    requires a.search == b.search
    requires Geocode(place, a.search).None?
    ensures a.Handle(place, radius) == b.Handle(place, radius) == Failure(PlaceNotFound)
  {
  }

  /** The places tool is asked only about the geocoded coordinates and the
      caller's radius. */
  lemma PlacesAsksGeocodedPoint(a: PlacesAgent, b: PlacesAgent, place: string, radius: int)
    requires a.search == b.search
    requires Geocode(place, a.search).Some?
    requires var g := Geocode(place, a.search).value; a.places(g.lat, g.lon, radius) == b.places(g.lat, g.lon, radius)
    ensures a.Handle(place, radius) == b.Handle(place, radius)
  {
  }

  /** When the places tool is `find_places` over the provider's replies (the
      LangChain wrapper passes the agent's coordinates and radius and keeps the
      default limit), a successful answer is ranked: sorted by distance, within
      the limit, and every place measured from the geocoded location. */
  lemma RankedToolAnswer(a: PlacesAgent, place: string, radius: int,
                         reply: (real, real, int) -> Option<PlacesService.Reply>,
                         haversine: PlacesService.Haversine)
    requires forall la, lo, rad ::
               a.places(la, lo, rad) ==
               if reply(la, lo, rad).Some?
               then Some(PlacesService.Ranked(PlacesService.ElementsOf(reply(la, lo, rad).value), la, lo, haversine, PlacesService.DefaultLimit))
               else None
    ensures var r := a.Handle(place, radius);
      r.Success? ==>
        && Sorting.SortedBy(r.payload, PlacesService.DistanceKey)
        && |r.payload| <= PlacesService.DefaultLimit
        && forall p :: p in r.payload ==>
             && p.name != ""
             && p.distance.Some? && p.lat.Some? && p.lon.Some?
             && p.distance.value == haversine(r.location.lat, r.location.lon, p.lat.value, p.lon.value)
    ensures a.Handle(place, radius) == Failure(PlacesUnavailable) <==>
      Geocode(place, a.search).Some? &&
      reply(Geocode(place, a.search).value.lat, Geocode(place, a.search).value.lon, radius).None?
  {
    var g := Geocode(place, a.search);
    if g.Some? {
      var rep := reply(g.value.lat, g.value.lon, radius);
      if rep.Some? {
        PlacesService.RankedProperties(PlacesService.ElementsOf(rep.value), g.value.lat, g.value.lon, haversine, PlacesService.DefaultLimit);
      }
    }
  }
}
