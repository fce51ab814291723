/** The chatbot's formatting handlers (`set_reminder`, `schedule_event`,
    `get_recommendations`) and the input check at the top of `get_weather`. */
module Handlers {
  import opened PyStr

  const ReminderPrefix: string := "Reminder set: "
  const EventPrefix: string := "Event scheduled: "
  const RestaurantsKey: string := "restaurants"
  const RestaurantsText: string :=
    "Here are some recommended restaurants: Restaurant A, Restaurant B, Restaurant C."
  const NoRecommendations: string := "No recommendations available for this category."
  const EmptyCityMessage: string := "City name cannot be empty."

  /** The static recommendation table: one entry. */
  const Recommendations: map<string, string> := map[RestaurantsKey := RestaurantsText]

  /** `set_reminder`: the fixed prefix followed by the reminder text, which can be
      read back from the response. Nothing is stored. */
  function SetReminder(text: string): (r: string)
    ensures IsPrefix(ReminderPrefix, r) && r[|ReminderPrefix|..] == text
  {
    ReminderPrefix + text
  }

  /** `schedule_event`: the fixed prefix followed by the event details, which can
      be read back from the response. Nothing is stored. */
  function ScheduleEvent(details: string): (r: string)
    ensures IsPrefix(EventPrefix, r) && r[|EventPrefix|..] == details
  {
    EventPrefix + details
  }

  /** Different reminders give different confirmations, and likewise for events. */
  lemma ConfirmationsInjective(a: string, b: string)
    ensures SetReminder(a) == SetReminder(b) ==> a == b
    ensures ScheduleEvent(a) == ScheduleEvent(b) ==> a == b
  {
    assert SetReminder(a)[|ReminderPrefix|..] == a;
    assert SetReminder(b)[|ReminderPrefix|..] == b;
    assert ScheduleEvent(a)[|EventPrefix|..] == a;
    assert ScheduleEvent(b)[|EventPrefix|..] == b;
  }

  /** `get_recommendations`: the restaurant text exactly for the key
      "restaurants"; every other key, near misses included, gets the fixed
      no-recommendations text. */
  function GetRecommendations(key: string): (r: string)
    ensures r == RestaurantsText <==> key == RestaurantsKey
    ensures key != RestaurantsKey ==> r == NoRecommendations
  {
    assert RestaurantsText != NoRecommendations by {
      assert |RestaurantsText| == 80 && |NoRecommendations| == 47;
    }
    if key in Recommendations then Recommendations[key] else NoRecommendations
  }

  /** How `get_weather` proceeds after checking its argument: it either answers
      at once, or goes on to query the weather provider for `city`. */
  datatype WeatherStart = Refused(message: string) | Lookup(city: string)

  /** The guard at the top of `get_weather`: a city that is empty or all
      whitespace is refused with a fixed message; otherwise the query uses the
      city with its surrounding whitespace cut off. */
  function GetWeather(city: string): (r: WeatherStart)
    ensures r.Refused? <==> AllSpace(city)
    ensures r.Refused? ==> r.message == EmptyCityMessage
    ensures r.Lookup? ==> r.city != [] && exists i, j :: TrimmedAt(city, i, j) && r.city == city[i..j]
  {
    StripEmptyIff(city);
    var c := Strip(city);
    if c == [] then Refused(EmptyCityMessage) else Lookup(c)
  }

  /** A city that is already stripped passes the guard unchanged (or is refused
      when empty), so stripping it a second time does no harm. */
  lemma GetWeatherOfStripped(city: string)
    requires city == [] || (!IsSpace(city[0]) && !IsSpace(city[|city| - 1]))
    ensures GetWeather(city) == if city == [] then Refused(EmptyCityMessage) else Lookup(city)
  {
    StripFixed(city);
    StripEmptyIff(city);
  }
}
