/** `geocode_place`: a place name to the first match the Nominatim service
    returns, or `None`. The HTTP request is the `search` parameter. */
module GeocodeService {
  import opened Wrappers

  /** One entry of Nominatim's JSON answer, coordinates already parsed. */
  datatype Match = Match(lat: real, lon: real, displayName: Option<string>)

  /** The dict `geocode_place` returns; `raw` is the match it was built from. */
  datatype GeoLocation = GeoLocation(lat: real, lon: real, displayName: Option<string>, raw: Match)

  /** The search request: `None` when it raised a `RequestException`,
      otherwise the decoded list of matches. */
  type Search = string -> Option<seq<Match>>

  function Geocode(place: string, search: Search): (r: Option<GeoLocation>)
    ensures place == "" ==> r.None?
    ensures r.None? <==> place == "" || search(place).None? || search(place) == Some([])
    ensures r.Some? ==>
      var first := search(place).value[0];
      r.value == GeoLocation(first.lat, first.lon, first.displayName, first)
  {
    if place == "" then None
    else
      match search(place)
      case None => None
      case Some(data) =>
        if data == [] then None
        else Some(GeoLocation(data[0].lat, data[0].lon, data[0].displayName, data[0]))
  }
}
