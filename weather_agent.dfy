/** The weather child agent: geocode the place, ask for the current weather
    at its coordinates, and wrap the answer. */
module WeatherAgents {
  import opened Wrappers
  import opened GeocodeService
  import opened AgentResults

  /** The simplified current-weather dict of `get_current_weather`. */
  datatype WeatherReading = WeatherReading(
    temperature: Option<real>,
    windSpeed: Option<real>,
    windDirection: Option<real>,
    weatherCode: Option<int>,
    time: Option<string>)

  /** The weather tool at given coordinates: `None` when the request or the
      `current_weather` field failed. */
  type WeatherTool = (real, real) -> Option<WeatherReading>

  class WeatherAgent {
    const search: Search
    const weather: WeatherTool

    constructor(search: Search, weather: WeatherTool)
      ensures this.search == search && this.weather == weather
    {
      this.search := search;
      this.weather := weather;
    }

    /** `WeatherAgent.handle`. The geocode result and the reading are dicts with
        fixed keys, so Python's falsiness test on them is the test for `None`. */
    function Handle(place: string): (r: AgentResult<WeatherReading>)
      ensures Geocode(place, search).None? <==> r == Failure(PlaceNotFound)
      ensures place == "" ==> r == Failure(PlaceNotFound)
      ensures r == Failure(WeatherUnavailable) <==>
        Geocode(place, search).Some? &&
        weather(Geocode(place, search).value.lat, Geocode(place, search).value.lon).None?
      ensures r.Failure? ==> r.error == PlaceNotFound || r.error == WeatherUnavailable
      ensures r.Success? ==>
        && Geocode(place, search) == Some(r.location)
        && weather(r.location.lat, r.location.lon) == Some(r.payload)
    {
      match Geocode(place, search)
      case None => Failure(PlaceNotFound)
      case Some(geo) =>
        match weather(geo.lat, geo.lon)
        case None => Failure(WeatherUnavailable)
        case Some(reading) => Success(geo, reading)
    }
  }

  /** When the place is not found the weather tool is never consulted: agents
      that differ only in their weather tool give the same answer. */
  lemma WeatherToolNotCalledWhenNotFound(a: WeatherAgent, b: WeatherAgent, place: string)
    requires a.search == b.search
    requires Geocode(place, a.search).None?
    ensures a.Handle(place) == b.Handle(place) == Failure(PlaceNotFound)
  {
  }

  /** The weather tool is asked only about the geocoded coordinates: tools
      that agree there give the same answer. */
  lemma WeatherAsksGeocodedPoint(a: WeatherAgent, b: WeatherAgent, place: string)
    requires a.search == b.search
    requires Geocode(place, a.search).Some?
    requires var g := Geocode(place, a.search).value; a.weather(g.lat, g.lon) == b.weather(g.lat, g.lon)
    ensures a.Handle(place) == b.Handle(place)
  {
  }
}
