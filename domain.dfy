/**
  The typed weather model (src/domain/weather.rs). Every record is a value
  built once and only read afterwards. Rust's fixed-width integer fields
  become subset types of `int` with the same ranges; the `f32`
  precipitation is kept as its bit pattern and never computed with.
*/
module Domain {

  /** Rust `i8`. */
  type I8 = x: int | -128 <= x <= 127

  /** Rust `u8`. */
  type U8 = x: int | 0 <= x <= 255

  /** Rust `u16`. */
  type U16 = x: int | 0 <= x <= 65535

  /** Rust `f32`, as its IEEE 754 bit pattern; `F32(0)` is `0.0`. */
  datatype F32 = F32(bits: bv32)

  const ZeroF32: F32 := F32(0)

  datatype WeatherReport = WeatherReport(
    location: string,
    date: string,
    current: CurrentWeather,
    daily: DailyForecast,
    hourly: seq<HourlyForecast>)  // provider order, possibly empty

  datatype CurrentWeather = CurrentWeather(
    description: string,
    temperature: Temperature,
    humidity: U8,  // a percentage by intent; the type allows up to 255
    wind: Wind,
    precipitationMm: F32,
    uvIndex: U8,
    pressureHpa: U16,
    visibilityKm: U8)

  datatype Temperature = Temperature(celsius: I8, feelsLike: I8)

  datatype Wind = Wind(speedKmh: U16, direction: string)

  datatype DailyForecast = DailyForecast(
    tempMin: I8,
    tempMax: I8,
    tempAvg: I8,
    astronomy: Astronomy)

  datatype Astronomy = Astronomy(sunrise: string, sunset: string, moonPhase: string)

  datatype HourlyForecast = HourlyForecast(
    hour: string,
    temperature: I8,
    chanceOfRain: U8,
    description: string)
}
