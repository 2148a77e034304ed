/**
  The Discord message for a typed report (`format_weather_report` in
  src/presentation/formatter.rs). The text templates are functions of the
  already-rendered field texts, so that the legacy renderer in
  src/event_handler.rs, which prints the same templates from raw provider
  text, shares them.
*/
module Formatter {
  import opened RustText
  import opened Domain

  // ---------------------------------------------------------------------
  // The templates
  // ---------------------------------------------------------------------

  /** The header line: location and date inserted as they are. */
  function HeaderLine(location: string, date: string): string {
    "# :sunny: Météo " + location + " — " + date + "\n\n"
  }

  /** The "Actuellement" paragraph, one `format!` with ten fields. */
  function CurrentParagraph(
    description: string, celsius: string, feelsLike: string, humidity: string,
    windSpeed: string, windDirection: string, precipitation: string,
    uvIndex: string, pressure: string, visibility: string): string
  {
    CurrentTitle
    + SummaryLine(description, celsius, feelsLike)
    + AirLine(humidity, windSpeed, windDirection)
    + DetailsLine(precipitation, uvIndex, pressure, visibility)
  }

  const CurrentTitle: string := "## Actuellement\n"

  function SummaryLine(description: string, celsius: string, feelsLike: string): string {
    "**" + description + "** | **" + (celsius + "°C") + "** (ressenti " + feelsLike + "°C)\n"
  }

  function AirLine(humidity: string, windSpeed: string, windDirection: string): string {
    "Humidité : " + humidity + "% · Vent : " + windSpeed + " km/h " + windDirection + "\n"
  }

  function DetailsLine(precipitation: string, uvIndex: string, pressure: string, visibility: string): string {
    "Précipitations : " + precipitation + " mm · UV : " + uvIndex
    + " · Pression : " + pressure + " hPa · Visibilité : " + visibility + " km\n\n"
  }

  /** The "Journée" paragraph, one `format!` with six fields. */
  function DayParagraph(
    tempMin: string, tempMax: string, tempAvg: string,
    sunrise: string, sunset: string, moonPhase: string): string
  {
    DayTitle + TemperaturesLine(tempMin, tempMax, tempAvg) + SkyLine(sunrise, sunset, moonPhase)
  }

  const DayTitle: string := "## Journée\n"

  function TemperaturesLine(tempMin: string, tempMax: string, tempAvg: string): string {
    ":arrow_down: **" + tempMin + "°C** — :arrow_up: **" + tempMax + "°C** (moy. " + tempAvg + "°C)\n"
  }

  function SkyLine(sunrise: string, sunset: string, moonPhase: string): string {
    ":sunrise: " + sunrise + " · :city_sunset: " + sunset + " · :crescent_moon: " + moonPhase + "\n\n"
  }

  /** The heading of the hourly section, which also opens the code block. */
  const TableHeading: string := "## Prévisions horaires\n```\n"

  /** `format!("{:<7} {:>5}  {:>6}  {}\n", "Heure", "Temp", "Pluie", "Conditions")`. */
  function ColumnHeader(): string {
    PadRight("Heure", 7) + " " + PadLeft("Temp", 5) + "  " + PadLeft("Pluie", 6) + "  " + "Conditions" + "\n"
  }

  /** `format!("{}\n", "-".repeat(50))`. */
  function Separator(): string {
    Repeat('-', 50) + "\n"
  }

  const ClosingFence: string := "```"

  /** Everything of the hourly section that comes before the rows. */
  function TableTop(): string {
    TableHeading + ColumnHeader() + Separator()
  }

  /** The four texts one table row shows. */
  datatype Cells = Cells(hour: string, temperature: string, rain: string, description: string)

  /** `format!("{:<7} {:>4}°C  {:>4}%   {}\n", hour, temperature, rain, description)`. */
  function TableRow(c: Cells): string {
    PadRight(c.hour, 7) + " " + PadLeft(c.temperature, 4) + "°C  " + PadLeft(c.rain, 4) + "%   "
    + c.description + "\n"
  }

  /** The rows, one per entry, in the order of the entries. */
  function TableRows(cs: seq<Cells>): string {
    if cs == [] then [] else TableRows(cs[..|cs| - 1]) + TableRow(cs[|cs| - 1])
  }

  /** Appending three texts in turn appends their concatenation. */
  lemma ConcatAssoc(x: string, a: string, b: string, c: string)
    ensures x + a + b + c == x + (a + b + c)
  {
  }

  lemma TableRowsSnoc(cs: seq<Cells>, c: Cells)
    ensures TableRows(cs + [c]) == TableRows(cs) + TableRow(c)
  {
    assert (cs + [c])[..|cs|] == cs;
  }

  /** Everything before the first row: the three paragraphs and the table's top. */
  function Preamble(header: string, current: string, day: string): string {
    header + current + day + TableTop()
  }

  /** The whole message around already-rendered paragraphs and rows. */
  function Message(header: string, current: string, day: string, rows: seq<Cells>): string {
    Preamble(header, current, day) + TableRows(rows) + ClosingFence
  }

  // ---------------------------------------------------------------------
  // The report's texts
  // ---------------------------------------------------------------------

  function ReportCurrent(c: CurrentWeather, showF32: F32 -> string): string {
    CurrentParagraph(
      c.description,
      IntToDecimal(c.temperature.celsius),
      IntToDecimal(c.temperature.feelsLike),
      IntToDecimal(c.humidity),
      IntToDecimal(c.wind.speedKmh),
      c.wind.direction,
      showF32(c.precipitationMm),
      IntToDecimal(c.uvIndex),
      IntToDecimal(c.pressureHpa),
      IntToDecimal(c.visibilityKm))
  }

  function ReportDay(d: DailyForecast): string {
    DayParagraph(
      IntToDecimal(d.tempMin),
      IntToDecimal(d.tempMax),
      IntToDecimal(d.tempAvg),
      d.astronomy.sunrise,
      d.astronomy.sunset,
      d.astronomy.moonPhase)
  }

  function HourCells(h: HourlyForecast): Cells {
    Cells(h.hour, IntToDecimal(h.temperature), IntToDecimal(h.chanceOfRain), h.description)
  }

  function ReportCells(hs: seq<HourlyForecast>): (cs: seq<Cells>)
    ensures |cs| == |hs| && forall i :: 0 <= i < |hs| ==> cs[i] == HourCells(hs[i])
  {
    seq(|hs|, i requires 0 <= i < |hs| => HourCells(hs[i]))
  }

  lemma ReportCellsSnoc(hs: seq<HourlyForecast>, i: nat)
    requires i < |hs|
    ensures ReportCells(hs[..i + 1]) == ReportCells(hs[..i]) + [HourCells(hs[i])]
  {
    var front := ReportCells(hs[..i]);
    var a, b := ReportCells(hs[..i + 1]), front + [HourCells(hs[i])];
    assert |a| == |b|;
    forall k | 0 <= k < |a| ensures a[k] == b[k] {
      assert hs[..i + 1][k] == hs[k];
      if k < i {
        assert hs[..i][k] == hs[k];
        assert b[k] == front[k];
      }
    }
    assert a == b;
  }

  /**
    The message `format_weather_report` builds; `showF32` is `Display` for
    `f32`, which the model does not spell out.
  */
  function ReportText(report: WeatherReport, showF32: F32 -> string): string {
    Message(
      HeaderLine(report.location, report.date),
      ReportCurrent(report.current, showF32),
      ReportDay(report.daily),
      ReportCells(report.hourly))
  }

  function ReportPreamble(report: WeatherReport, showF32: F32 -> string): string {
    Preamble(HeaderLine(report.location, report.date), ReportCurrent(report.current, showF32), ReportDay(report.daily))
  }

  /** Before the first entry there are no rows. */
  lemma ReportRowsNone(top: string, hs: seq<HourlyForecast>)
    ensures top + TableRows(ReportCells(hs[..0])) == top
  {
    assert ReportCells(hs[..0]) == [];
  }

  /** Appending the row of entry `i` extends the rows of the entries before it. */
  lemma ReportRowsStep(top: string, hs: seq<HourlyForecast>, i: nat)
    requires i < |hs|
    ensures top + TableRows(ReportCells(hs[..i])) + TableRow(HourCells(hs[i]))
         == top + TableRows(ReportCells(hs[..i + 1]))
  {
    ReportCellsSnoc(hs, i);
    TableRowsSnoc(ReportCells(hs[..i]), HourCells(hs[i]));
  }

  /**
    The first half of `format_weather_report`: starting from an empty
    message, pushes the header, the current-conditions paragraph, the day
    paragraph and the table's top (heading, column header, separator).
  */
  method WriteSections(report: WeatherReport, showF32: F32 -> string) returns (msg: string)
    ensures msg == ReportPreamble(report, showF32)
  {
    var header := HeaderLine(report.location, report.date);
    var current := ReportCurrent(report.current, showF32);
    var day := ReportDay(report.daily);
    var heading, columns, separator := TableHeading, ColumnHeader(), Separator();
    msg := "";
    assert msg + header == header;
    msg := msg + header;
    msg := msg + current;
    msg := msg + day;
    msg := msg + heading;
    msg := msg + columns;
    msg := msg + separator;
    ConcatAssoc(header + current + day, heading, columns, separator);
  }

  /**
    The loop of `format_weather_report`: pushes one row per hourly entry,
    in order, onto the message built so far.
  */
  method PushRows(prefix: string, hourly: seq<HourlyForecast>) returns (msg: string)
    ensures msg == prefix + TableRows(ReportCells(hourly))
  {
    msg := prefix;
    ReportRowsNone(prefix, hourly);
    for i := 0 to |hourly|
      invariant msg == prefix + TableRows(ReportCells(hourly[..i]))
    {
      ReportRowsStep(prefix, hourly, i);
      msg := msg + TableRow(HourCells(hourly[i]));
    }
    assert hourly[..|hourly|] == hourly;
  }

  /**
    `format_weather_report`: the sections, then one row per hourly entry in
    order, then the closing fence. Defined for every report, an empty
    hourly list included.
  */
  method FormatWeatherReport(report: WeatherReport, showF32: F32 -> string) returns (msg: string)
    ensures msg == ReportText(report, showF32)
  {
    msg := WriteSections(report, showF32);
    msg := PushRows(msg, report.hourly);
    msg := msg + ClosingFence;
  }
}
