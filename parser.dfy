/** The keyword-driven query classifier: which services a free-text query
    asks for, and which place it names. */
module Parser {
  import opened Wrappers
  import opened PyStr

  const WeatherKeywords: set<string> :=
    {"weather", "temperature", "forecast", "rain", "snow", "sunny"}

  const PlacesKeywords: set<string> :=
    {"place", "places", "sights", "attractions", "things to do", "tourist",
     "tourism", "restaurants", "hotels"}

  /** The prepositions tried, in this order, to find the place phrase. */
  const Prepositions: seq<string> := ["in ", "at "]

  /** `(query or "").strip().lower()`. */
  function Normalize(query: Option<string>): string {
    Lower(Strip(query.GetOr("")))
  }

  /** Normalized text has no whitespace at either end and no upper-case
      ASCII letter; a missing query normalizes to "". */
  lemma NormalizeSpec(query: Option<string>)
    ensures var text := Normalize(query);
      && IsStripped(text)
      && (forall i :: 0 <= i < |text| ==> !('A' <= text[i] <= 'Z'))
      && (query.None? ==> text == "")
  {
    StripSpec(query.GetOr(""));
    LowerSpec(Strip(query.GetOr("")));
  }

  /** Some keyword of the family is a substring of `text`. */
  predicate Mentions(text: string, keywords: set<string>) {
    exists k | k in keywords :: Contains(text, k)
  }

  /** The weather flag after the default policy: set by a weather keyword, or
      when no keyword of either family occurs. */
  predicate WantsWeather(text: string) {
    Mentions(text, WeatherKeywords) || !Mentions(text, PlacesKeywords)
  }

  /** The places flag after the default policy. */
  predicate WantsPlaces(text: string) {
    Mentions(text, PlacesKeywords) || !Mentions(text, WeatherKeywords)
  }

  /** What `place` holds after the loop has tried the prepositions `pres` in
      order: the stripped text after the first preposition that occurs and
      leaves a non-empty candidate, otherwise the whole text. */
  function PlaceFrom(text: string, pres: seq<string>): string {
    if pres == [] then text
    else if Contains(text, pres[0]) && Strip(After(text, pres[0])) != []
    then Strip(After(text, pres[0]))
    else PlaceFrom(text, pres[1..])
  }

  /** The place phrase of a normalized query. */
  function PlaceOf(text: string): string {
    PlaceFrom(text, Prepositions)
  }

  /** `PlaceOf` with both prepositions spelled out. */
  lemma PlaceOfCases(text: string)
    ensures PlaceOf(text) ==
      if Contains(text, "in ") && Strip(After(text, "in ")) != [] then Strip(After(text, "in "))
      else if Contains(text, "at ") && Strip(After(text, "at ")) != [] then Strip(After(text, "at "))
      else text
  {
    var rest := Prepositions[1..];
    assert rest == ["at "] && rest[0] == "at " && rest[1..] == [];
    assert PlaceFrom(text, rest[1..]) == text;
    assert PlaceFrom(text, rest) ==
      if Contains(text, "at ") && Strip(After(text, "at ")) != [] then Strip(After(text, "at ")) else text;
  }

  /** `parse_query`: the two intent flags and the place phrase. */
  method ParseQuery(query: Option<string>) returns (wantWeather: bool, wantPlaces: bool, place: string)
    ensures var text := Normalize(query);
      && wantWeather == WantsWeather(text)
      && wantPlaces == WantsPlaces(text)
      && place == PlaceOf(text)
    ensures wantWeather || wantPlaces
    ensures var text := Normalize(query);
      !Mentions(text, WeatherKeywords) && !Mentions(text, PlacesKeywords) ==> wantWeather && wantPlaces
    ensures var text := Normalize(query);
      Mentions(text, WeatherKeywords) && !Mentions(text, PlacesKeywords) ==> wantWeather && !wantPlaces
    ensures var text := Normalize(query);
      !Mentions(text, WeatherKeywords) && Mentions(text, PlacesKeywords) ==> !wantWeather && wantPlaces
    ensures Normalize(query) == "" ==> wantWeather && wantPlaces && place == ""
  {
    var text := Lower(Strip(query.GetOr("")));
    assert text == Normalize(query);
    wantWeather := Mentions(text, WeatherKeywords);
    wantPlaces := Mentions(text, PlacesKeywords);

    if !wantWeather && !wantPlaces {
      wantWeather := true;
      wantPlaces := true;
    }

    place := ExtractPlace(text);
    if text == "" {
      EmptyText();
    }
  }

  /** The loop of `parse_query` that picks the place phrase: the first
      preposition that occurs and leaves a non-empty candidate decides it. */
  method ExtractPlace(text: string) returns (place: string)
    ensures place == PlaceOf(text)
  {
    place := text;
    var i := 0;
    while i < |Prepositions|
      invariant 0 <= i <= |Prepositions|
      invariant place == text
      invariant PlaceOf(text) == PlaceFrom(text, Prepositions[i..])
    {
      var pre := Prepositions[i];
      if Contains(text, pre) {
        var candidate := Strip(After(text, pre));
        if candidate != [] {
          place := candidate;
          break;
        }
      }
      assert Prepositions[i..][1..] == Prepositions[i + 1..];
      i := i + 1;
    }
  }

  /** An empty query asks for both services and names the empty place. */
  lemma EmptyText()
    ensures !Mentions("", WeatherKeywords) && !Mentions("", PlacesKeywords)
    ensures PlaceOf("") == ""
  {
    forall k | k != [] ensures !Contains("", k) {
      assert !OccursAt("", k, 0);
    }
  }

  /** A missing query and an all-whitespace query both normalize to "". */
  lemma {:induction false} EmptyQuery(query: Option<string>)
    requires query.None? || forall i :: 0 <= i < |query.value| ==> IsSpace(query.value[i])
    ensures Normalize(query) == ""
    ensures WantsWeather(Normalize(query)) && WantsPlaces(Normalize(query))
    ensures PlaceOf(Normalize(query)) == ""
  {
    StripSpec(query.GetOr(""));
    LowerSpec(Strip(query.GetOr("")));
    EmptyText();
  }

  /** In stripped text every occurrence of a preposition ending in a space
      leaves a non-empty candidate, so the `if candidate` fallback never fires. */
  lemma CandidateNonEmpty(text: string, pre: string)
    requires IsStripped(text)
    requires pre != [] && IsSpace(pre[|pre| - 1])
    requires Contains(text, pre)
    ensures Strip(After(text, pre)) != []
    ensures var c := Strip(After(text, pre)); |c| <= |text| && c == text[|text| - |c|..]
  {
    FindFromSpec(text, pre, 0);
    var k := Find(text, pre).value;
    assert text[k + |pre| - 1] == pre[|pre| - 1];
    var tail := After(text, pre);
    assert tail != [] && tail[|tail| - 1] == text[|text| - 1];
    StripKeepsTail(tail);
  }

  /** When "in " occurs the place is the stripped text after its first
      occurrence, even if "at " occurs earlier. */
  lemma PlaceAfterIn(text: string)
    requires IsStripped(text)
    requires Contains(text, "in ")
    ensures PlaceOf(text) == Strip(After(text, "in "))
  {
    PlaceOfCases(text);
    CandidateNonEmpty(text, "in ");
  }

  /** Without "in ", the place is the stripped text after the first "at ". */
  lemma PlaceAfterAt(text: string)
    requires IsStripped(text)
    requires !Contains(text, "in ") && Contains(text, "at ")
    ensures PlaceOf(text) == Strip(After(text, "at "))
  {
    PlaceOfCases(text);
    CandidateNonEmpty(text, "at ");
  }

  /** Without either preposition the place is the whole normalized text. */
  lemma PlaceWithoutPreposition(text: string)
    requires !Contains(text, "in ") && !Contains(text, "at ")
    ensures PlaceOf(text) == text
  {
    PlaceOfCases(text);
  }

  /** The place is always a suffix of the normalized text, and it is empty
      exactly when that text is. */
  lemma PlaceIsSuffix(text: string)
    requires IsStripped(text)
    ensures var p := PlaceOf(text); |p| <= |text| && p == text[|text| - |p|..]
    ensures PlaceOf(text) == [] <==> text == []
  {
    PlaceOfCases(text);
    if Contains(text, "in ") {
      CandidateNonEmpty(text, "in ");
    } else if Contains(text, "at ") {
      CandidateNonEmpty(text, "at ");
    }
  }

  /** Matching is on raw substrings: the "in " that ends "rain" is found first. */
  lemma RainInParis()
    ensures PlaceOf("rain in paris") == "in paris"
  {
    var text := "rain in paris";
    assert text[0] == 'r' && text[1] == 'a';
    assert OccursAt(text, "in ", 2);
    assert Find(text, "in ") == Some(2);
    assert After(text, "in ") == "in paris";
    StripIdempotent("in paris");
    PlaceOfCases(text);
  }
}
