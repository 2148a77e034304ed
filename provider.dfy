/**
  The wttr.in `format=j1` response as the pipeline receives it, already
  decoded from JSON: every leaf is text, numbers included, and the lists
  are whatever length the provider sent. Both src/event_handler.rs
  (`WeatherResponse` ... `ValueWrapper`) and src/infrastructure/weather_api.rs
  (`ApiResponse` ... `ApiValueWrapper`) declare these same records; they
  are written once here.
*/
module Provider {
  import Wrappers

  datatype ValueWrapper = ValueWrapper(value: string)

  datatype CurrentCondition = CurrentCondition(
    tempC: string,
    feelsLikeC: string,
    humidity: string,
    weatherDesc: seq<ValueWrapper>,
    windspeedKmph: string,
    winddir16Point: string,
    precipMM: string,
    uvIndex: string,
    pressure: string,
    visibility: string)

  datatype Astronomy = Astronomy(sunrise: string, sunset: string, moonPhase: string)

  datatype Hourly = Hourly(
    time: string,
    tempC: string,
    chanceOfRain: string,
    weatherDesc: seq<ValueWrapper>)

  datatype Weather = Weather(
    date: string,
    maxtempC: string,
    mintempC: string,
    avgtempC: string,
    astronomy: seq<Astronomy>,
    hourly: seq<Hourly>)

  datatype Response = Response(currentCondition: seq<CurrentCondition>, weather: seq<Weather>)

  /**
    The first-element reads both renderers make, each of which panics in
    the source when its list is empty; the model reports which one.
  */
  datatype IncompleteData =
    | NoCurrentCondition    // current_condition[0]
    | NoWeather             // weather[0]
    | NoAstronomy           // weather[0].astronomy[0]
    | NoCurrentDescription  // current_condition[0].weatherDesc[0]
    | NoHourlyDescription   // weather[0].hourly[i].weatherDesc[0]

  /** Every hourly entry carries at least one description. */
  predicate HourlyDescribed(hs: seq<Hourly>) {
    forall i :: 0 <= i < |hs| ==> |hs[i].weatherDesc| > 0
  }

  /** Every list the renderers index at 0 is non-empty. */
  predicate Complete(raw: Response) {
    && |raw.currentCondition| > 0
    && |raw.weather| > 0
    && |raw.weather[0].astronomy| > 0
    && |raw.currentCondition[0].weatherDesc| > 0
    && HourlyDescribed(raw.weather[0].hourly)
  }

  /**
    The first empty list in the order the source reads them; `None` when
    the response is complete.
  */
  function FirstGap(raw: Response): (gap: Wrappers.Option<IncompleteData>)
    ensures gap.None? <==> Complete(raw)
  {
    if |raw.currentCondition| == 0 then Wrappers.Some(NoCurrentCondition)
    else if |raw.weather| == 0 then Wrappers.Some(NoWeather)
    else if |raw.weather[0].astronomy| == 0 then Wrappers.Some(NoAstronomy)
    else if |raw.currentCondition[0].weatherDesc| == 0 then Wrappers.Some(NoCurrentDescription)
    else if !HourlyDescribed(raw.weather[0].hourly) then Wrappers.Some(NoHourlyDescription)
    else Wrappers.None
  }

  /** The first element of a list, if it has one. */
  function FirstOnly<T>(xs: seq<T>): seq<T> {
    if |xs| == 0 then [] else [xs[0]]
  }

  /** Every hourly entry cut down to its first description. */
  function HourlyFirsts(hs: seq<Hourly>): (r: seq<Hourly>)
    ensures |r| == |hs|
    ensures forall i :: 0 <= i < |hs| ==> r[i] == hs[i].(weatherDesc := FirstOnly(hs[i].weatherDesc))
  {
    seq(|hs|, i requires 0 <= i < |hs| => hs[i].(weatherDesc := FirstOnly(hs[i].weatherDesc)))
  }

  /**
    The response cut down to what the renderers read: the first current
    condition with its first description, and the first day with its first
    astronomy record and every hourly entry with its first description.
  */
  function FirstsOnly(raw: Response): Response {
    Response(
      if |raw.currentCondition| == 0 then []
      else [raw.currentCondition[0].(weatherDesc := FirstOnly(raw.currentCondition[0].weatherDesc))],
      if |raw.weather| == 0 then []
      else [raw.weather[0].(astronomy := FirstOnly(raw.weather[0].astronomy),
                            hourly := HourlyFirsts(raw.weather[0].hourly))])
  }
}
