/** The orchestrator: classify the query, call the child agents it asks for
    with the same place phrase, and collect their answers in one dict. */
module ParentAgents {
  import opened Wrappers
  import opened Parser
  import opened GeocodeService
  import opened AgentResults
  import WeatherAgents
  import PlacesAgents
  import PlacesService

  /** A value of the response dict. */
  datatype Field =
    | Text(text: string)
    | WeatherAnswer(weather: AgentResult<WeatherAgents.WeatherReading>)
    | PlacesAnswer(places: AgentResult<seq<PlacesService.Place>>)

  /** The keys a response dict may use: "query", "place", "weather", "places"
      and "error". */
  datatype Key = Query | Place | Weather | Places | Error

  type Response = map<Key, Field>

  class ParentAgent {
    const weatherAgent: WeatherAgents.WeatherAgent
    const placesAgent: PlacesAgents.PlacesAgent

    /** Both child agents geocode through the same service. */
    constructor(search: Search, weather: WeatherAgents.WeatherTool, places: PlacesAgents.PlacesTool)
      ensures fresh(weatherAgent) && fresh(placesAgent)
      ensures weatherAgent.search == search && weatherAgent.weather == weather
      ensures placesAgent.search == search && placesAgent.places == places
    {
      weatherAgent := new WeatherAgents.WeatherAgent(search, weather);
      placesAgent := new PlacesAgents.PlacesAgent(search, places);
    }

    /** `ParentAgent.handle`. */
    method Handle(userInput: string) returns (response: Response)
      ensures var text := Normalize(Some(userInput));
        && Query in response && response[Query] == Text(userInput)
        && Place in response && response[Place] == Text(PlaceOf(text))
        && (Weather in response <==> WantsWeather(text))
        && (Places in response <==> WantsPlaces(text))
        && (Weather in response ==>
              response[Weather] == WeatherAnswer(weatherAgent.Handle(PlaceOf(text))))
        && (Places in response ==>
              response[Places] == PlacesAnswer(placesAgent.Handle(PlaceOf(text), PlacesService.DefaultRadius)))
      ensures response.Keys <= {Query, Place, Weather, Places}
      ensures Weather in response || Places in response
      ensures Error !in response
      ensures Normalize(Some(userInput)) == "" ==>
        && response[Weather] == WeatherAnswer(Failure(PlaceNotFound))
        && response[Places] == PlacesAnswer(Failure(PlaceNotFound))
    {
      var wantWeather, wantPlaces, place := ParseQuery(Some(userInput));

      response := map[Query := Text(userInput), Place := Text(place)];

      if wantWeather {
        var weatherResult := weatherAgent.Handle(place);
        response := response[Weather := WeatherAnswer(weatherResult)];
      }

      if wantPlaces {
        var placesResult := placesAgent.Handle(place);
        response := response[Places := PlacesAnswer(placesResult)];
      }
    }
  }
}
