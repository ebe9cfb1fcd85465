# Multi-Agent Tourism Planner — verified model of the core

The planner answers a free-text travel question such as "weather and places
in Paris". Its core has five parts:

- a keyword **query classifier** (`parse_query`). It normalizes the query and
  decides whether the user wants the weather, nearby places, or both. It also
  extracts the place phrase that follows "in " or "at ".
- a **places service** (`find_places`). It turns the elements returned by
  the Overpass service into a ranked list. It keeps named elements, picks the
  element's own coordinates or its centre, measures the distance, drops what
  cannot be measured, sorts stably by distance and truncates to a limit.
- a **weather agent** and a **places agent**. Each one geocodes the place
  phrase, asks its provider about the coordinates, and answers with either an
  error or the location and the payload.
- a **parent agent** (the orchestrator). It classifies the query, calls the
  child agents that the flags ask for with the same place phrase, and collects
  their answers in one response dict.

The Dafny modules follow that structure:

- `PyStr` holds the Python string operations the classifier uses.
- `Parser` is the classifier.
- `Sorting` is Python's stable `list.sort`.
- `PlacesService` is the places service.
- `GeocodeService` is the `geocode_place` contract the agents consume.
- `AgentResults` holds the agents' shared result type and error messages.
- `WeatherAgents` and `PlacesAgents` are the child agents.
- `ParentAgents` is the orchestrator.

Every network request is a parameter of the model:

- the Nominatim search is a function `Search` from a place name to an optional
  list of matches;
- the weather tool is a function from coordinates to an optional reading;
- the places tool is a function from coordinates and radius to an optional
  list of places;
- `find_places` receives the decoded Overpass reply, or `None` when the
  request raised.

The haversine distance is an uninterpreted function parameter.

Facts about the code that the model keeps:

- **Place extraction uses plain substrings.** Keywords and prepositions are
  matched with Python's `in`, not as whole words. So "rain in paris" gives the
  place "in paris", because the "in " at the end of "rain" is found first
  (`Parser.RainInParis`).
- **The `if candidate` fallback never fires.** Normalized text is stripped, so
  every occurrence of "in " or "at " has a non-space character after it
  (`Parser.CandidateNonEmpty`).
- **Each agent geocodes the place itself.** The parent agent does not resolve
  the place once and pass the location down.
- **The response never has an `"error"` key.** The `ParentAgent.handle`
  docstring (project/agents/parent_agent.py:16) mentions one, but the code
  never adds it (`ParentAgents.ParentAgent.Handle`).
- **A negative `limit` counts from the end.** `find_places` truncates with
  Python's `results[:limit]`, so a negative limit drops entries from the end.
  The bound `len(result) <= limit` is proved for `limit >= 0`.

## Model

| member | source | states |
|---|---|---|
| PyStr.TrimStartSpec | project/utils/parser.py:36 | `lstrip` leaves a suffix that does not start with whitespace, and everything it removed is whitespace |
| PyStr.TrimEndSpec | project/utils/parser.py:36 | `rstrip` leaves a prefix that does not end with whitespace, and everything it removed is whitespace |
| PyStr.StripSpec | project/utils/parser.py:36 | `strip` leaves a stripped string no longer than its input, which is empty exactly when the input is all whitespace |
| PyStr.StripKeepsTail | project/utils/parser.py:49 | a string whose last character is not whitespace strips to a non-empty suffix of itself |
| PyStr.TrimEndOfStripped | project/utils/parser.py:49 | `rstrip` is the identity on a string that does not end with whitespace |
| PyStr.StripIdempotent | project/utils/parser.py:49 | `strip` is the identity on already stripped text |
| PyStr.LowerChar | project/utils/parser.py:36 | ASCII upper-case letters become lower-case and every other character is kept; whitespace stays whitespace |
| PyStr.LowerSpec | project/utils/parser.py:36 | `lower` keeps the length, maps each character, leaves no upper-case ASCII letter, and keeps stripped text stripped |
| PyStr.FindFromSpec | project/utils/parser.py:48 | the search returns the first occurrence at or after the start index, and `None` exactly when there is none |
| PyStr.ContainsSpec | project/utils/parser.py:37-38 | `pat in text` holds exactly when `pat` occurs at some index of `text` |
| PyStr.After | project/utils/parser.py:49 | `split(pat, 1)[1]` is no longer than the text minus the pattern |
| Parser.NormalizeSpec | project/utils/parser.py:36 | normalized text is stripped and has no upper-case ASCII letter; a missing query normalizes to "" |
| Parser.PlaceOfCases | project/utils/parser.py:46-52 | the place is the candidate after "in ", else the candidate after "at ", else the whole text, where a candidate counts only when it is non-empty |
| Parser.ParseQuery | project/utils/parser.py:30-54 | the flags are the keyword tests after the default-both policy and the place is `PlaceOf` of the normalized text; at least one flag is set; neither family gives both flags; one family alone gives exactly its flag; empty text gives both flags and an empty place |
| Parser.ExtractPlace | project/utils/parser.py:46-52 | the loop over the prepositions computes `PlaceOf` of the text |
| Parser.EmptyText | project/utils/parser.py:37-52 | "" mentions no keyword of either family and its place is "" |
| Parser.EmptyQuery | project/utils/parser.py:36-52 | a missing or all-whitespace query normalizes to "", asks for both services and has the empty place |
| Parser.CandidateNonEmpty | project/utils/parser.py:48-51 | in stripped text, the stripped rest after a preposition ending in a space is non-empty and is a suffix of the text |
| Parser.PlaceAfterIn | project/utils/parser.py:47-52 | when "in " occurs the place is the stripped text after its first occurrence, even when "at " occurs earlier |
| Parser.PlaceAfterAt | project/utils/parser.py:47-52 | without "in ", an "at " makes the place the stripped text after its first occurrence |
| Parser.PlaceWithoutPreposition | project/utils/parser.py:46-52 | without either preposition the place is the whole normalized text |
| Parser.PlaceIsSuffix | project/utils/parser.py:46-52 | the place is a suffix of the normalized text, empty exactly when that text is |
| Parser.RainInParis | project/utils/parser.py:47-49 | substring matching finds the "in " inside "rain", so "rain in paris" gives the place "in paris" |
| Sorting.WithKey | project/services/places_service.py:63 | the entries with a given key form a subsequence no longer than the input |
| Sorting.Insert | project/services/places_service.py:63 | inserting one entry adds exactly it to the multiset of entries |
| Sorting.Sort | project/services/places_service.py:63 | the sort keeps the length and is a permutation of its input |
| Sorting.InsertSorted | project/services/places_service.py:63 | inserting into a sorted list keeps it sorted |
| Sorting.WithKeySnoc | project/services/places_service.py:63 | appending one entry appends it to its key's subsequence and leaves the other keys' subsequences alone |
| Sorting.InsertWithKey | project/services/places_service.py:63 | inserting places the new entry after every entry that shares its key |
| Sorting.SortSorted | project/services/places_service.py:63 | the sort orders its result by non-decreasing key |
| Sorting.SortStable | project/services/places_service.py:63 | the sort is stable: for every key, the entries carrying it keep their input order |
| PlacesService.Entry | project/services/places_service.py:45-59 | an element yields an entry exactly when its tags carry a non-empty name; the entry keeps id, tags and name, takes the chosen coordinates, and has the haversine distance exactly when both coordinates are truthy |
| PlacesService.Entries | project/services/places_service.py:43-59 | the loop yields at most one entry per element |
| PlacesService.Measured | project/services/places_service.py:62 | the filter never lengthens the list |
| PlacesService.SliceTo | project/services/places_service.py:64 | Python's `s[:n]` is a prefix whose length is `min(n, len)` for `n >= 0` and `max(len + n, 0)` for negative `n` |
| PlacesService.FindPlaces | project/services/places_service.py:38-66 | a failed request gives `None` and only it does; a reply gives the sorted, truncated ranking; every place has a non-empty name equal to its tag, a distance, truthy coordinates and the haversine distance from the query point; no elements gives `[]` |
| PlacesService.ZeroLatitudeFallsBack | project/services/places_service.py:45 | a zero latitude counts as missing and the centre's latitude is used |
| PlacesService.EntriesFromElements | project/services/places_service.py:43-59 | every entry comes from some element, and every element that passes the name test contributes its entry |
| PlacesService.MeasuredKeepsDistances | project/services/places_service.py:62 | the filter keeps exactly the entries with a distance |
| PlacesService.RankingMembers | project/services/places_service.py:43-63 | a place is ranked exactly when some element yields it with a distance |
| PlacesService.RankingIsStableSort | project/services/places_service.py:62-63 | the ranking is a permutation of the measured entries, sorted by distance, and ties keep element order |
| PlacesService.RankedTakesNearest | project/services/places_service.py:62-64 | with a limit of at least 0 the result is the first `min(limit, n)` ranked places, and no left-out place is nearer than a kept one |
| PlacesService.RankedProperties | project/services/places_service.py:43-64 | the result is sorted, within the limit, and each place is a named, measured entry of some element |
| GeocodeService.Geocode | project/services/geocode_service.py:7-38 | there is no location exactly when the place is empty, the request failed or the match list is empty; otherwise the location is built from the first match |
| WeatherAgents.WeatherAgent.constructor | project/agents/weather_agent.py:8-10 | the agent keeps the geocoder and weather tool it is given |
| WeatherAgents.WeatherAgent.Handle | project/agents/weather_agent.py:12-24 | the place-not-found error occurs exactly when geocoding fails, including for the empty place; the weather-unavailable error occurs exactly when the place is found and the tool fails; there is no other error; success carries the geocoded location and the reading at its coordinates |
| WeatherAgents.WeatherToolNotCalledWhenNotFound | project/agents/weather_agent.py:14-16 | when the place is not found the weather tool plays no part in the answer |
| WeatherAgents.WeatherAsksGeocodedPoint | project/agents/weather_agent.py:18-24 | the answer depends on the weather tool only at the geocoded coordinates |
| PlacesAgents.PlacesAgent.constructor | project/agents/places_agent.py:8-10 | the agent keeps the geocoder and places tool it is given |
| PlacesAgents.PlacesAgent.Handle | project/agents/places_agent.py:12-23 | the place-not-found error occurs exactly when geocoding fails; the places-unavailable error occurs exactly when the place is found and the tool gives `None`; there is no other error; success carries the location and the tool's list for the caller's radius |
| PlacesAgents.EmptyListIsSuccess | project/agents/places_agent.py:19-23 | an empty list from a found place is a success with no places, not an error |
| PlacesAgents.PlacesToolNotCalledWhenNotFound | project/agents/places_agent.py:13-15 | when the place is not found the places tool plays no part in the answer |
| PlacesAgents.PlacesAsksGeocodedPoint | project/agents/places_agent.py:17-23 | the answer depends on the places tool only at the geocoded coordinates and the given radius |
| PlacesAgents.RankedToolAnswer | project/agents/places_agent.py:19-23 | when the places tool is `find_places` with its default limit, a success is sorted by distance, has at most 20 places, each measured from the geocoded point, and places-unavailable happens exactly when the request fails |
| ParentAgents.ParentAgent.constructor | project/agents/parent_agent.py:9-11 | the parent agent owns two fresh child agents that geocode through the same service |
| ParentAgents.ParentAgent.Handle | project/agents/parent_agent.py:13-30 | the response holds the query and the place phrase; it holds the weather answer exactly when the weather flag is set and the places answer exactly when the places flag is set, each the child agent's answer for that place phrase (the places agent at the default radius); no other key is used, at least one answer is present, and an empty query gets place-not-found from both agents |

## Left out

- The user interface (`project/app.py`) and the LangChain tool wrappers. The wrappers pass coordinates as a `"lat|lon|radius"` string and parse it back; the model passes the numbers directly. Formatting a float and parsing it back is not modelled.
- HTTP, timeouts, JSON decoding and the Overpass query text. Each provider is a function parameter whose `None` stands for a raised `RequestException`.
- The haversine trigonometry. Floating point is not modelled in Dafny's reals, so the distance is an uninterpreted parameter.
- `float()` failing on a malformed `lat`/`lon` in a Nominatim match. Such a `ValueError` escapes `geocode_place`; the model's matches carry coordinates that are already parsed.
- An `elements` value that is JSON `null` or not a list. The model's reply either has a list of elements or lacks the key.
- The renaming of the weather provider's fields and the `raw` copy of `current_weather`. A reading is a record of optional fields, and the weather tool's `None` stands for a missing or empty `current_weather`.
- Concurrency and async (`_arun`). The code runs the agents one after the other.
- PyStr.LowerChar: only ASCII letters are lowered. Python's `str.lower()` also maps non-ASCII letters (and can change a string's length), which the model does not capture.
- PlacesService.FindPlaces: the radius only shapes the request text. Since the reply is a parameter, the contract does not mention the radius.
- PlacesService.FindPlaces: the sort assumes the distances have a total order. Python's `float` ordering with NaN is not modelled.
