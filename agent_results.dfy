/** What a child agent answers: `{"error": message}` or
    `{"location": geo, <payload key>: payload}`, never a mix of the two. */
module AgentResults {
  import opened GeocodeService

  const PlaceNotFound: string := "I don't think this place exists."
  const WeatherUnavailable: string := "Weather service unavailable."
  const PlacesUnavailable: string := "Places service unavailable."

  datatype AgentResult<+P> = Failure(error: string) | Success(location: GeoLocation, payload: P)
}
