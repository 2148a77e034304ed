/**
  The renderer of src/event_handler.rs, `format_weather`: it writes the
  Discord message straight from the provider's text, for the fixed
  location "Cenon", with the same templates, table and hour labels as
  `format_weather_report`. Numbers are printed exactly as the provider
  sent them; the current description, the three astronomy fields and the
  hourly descriptions are trimmed. Each `[0]` that would panic on an empty
  list gives the `Failure` named after that list, in the order the source
  reads them.
*/
module EventHandler {
  import opened Wrappers
  import opened RustText
  import opened Domain
  import opened Formatter
  import opened FormatterLayout
  import opened WeatherApi
  import P = Provider

  /** The location the header always names. */
  const Location: string := "Cenon"

  // ---------------------------------------------------------------------
  // The message from the provider's text
  // ---------------------------------------------------------------------

  /** The "Actuellement" paragraph, from the first current condition. */
  function RawCurrent(cc: P.CurrentCondition): string
    requires |cc.weatherDesc| > 0
  {
    CurrentParagraph(
      Trim(cc.weatherDesc[0].value), cc.tempC, cc.feelsLikeC, cc.humidity,
      cc.windspeedKmph, cc.winddir16Point, cc.precipMM, cc.uvIndex, cc.pressure, cc.visibility)
  }

  /** The "Journée" paragraph, from the first day and its first astronomy record. */
  function RawDay(today: P.Weather): string
    requires |today.astronomy| > 0
  {
    var astro := today.astronomy[0];
    DayParagraph(
      today.mintempC, today.maxtempC, today.avgtempC,
      Trim(astro.sunrise), Trim(astro.sunset), Trim(astro.moonPhase))
  }

  /** The texts of the row of one hourly entry, with the hour relabelled by the shared table. */
  function RawCells(h: P.Hourly): Cells
    requires |h.weatherDesc| > 0
  {
    Cells(HourLabel(h.time), h.tempC, h.chanceOfRain, Trim(h.weatherDesc[0].value))
  }

  function RawRows(hs: seq<P.Hourly>): (cs: seq<Cells>)
    requires P.HourlyDescribed(hs)
    ensures |cs| == |hs| && forall i :: 0 <= i < |hs| ==> cs[i] == RawCells(hs[i])
  {
    seq(|hs|, i requires 0 <= i < |hs| => RawCells(hs[i]))
  }

  /** The message of a response in which every list read at 0 is non-empty. */
  function RawMessage(raw: P.Response): string
    requires P.Complete(raw)
  {
    var today := raw.weather[0];
    Message(HeaderLine(Location, today.date), RawCurrent(raw.currentCondition[0]), RawDay(today), RawRows(today.hourly))
  }

  /**
    What `format_weather` produces: the message, or the first list read at
    0 that is empty, where the source panics.
  */
  function WeatherText(raw: P.Response): (r: Result<string, P.IncompleteData>)
    ensures r.Success? <==> P.Complete(raw)
    ensures r.Failure? ==> P.FirstGap(raw) == Some(r.error)
  {
    if |raw.currentCondition| == 0 then Failure(P.NoCurrentCondition)
    else if |raw.weather| == 0 then Failure(P.NoWeather)
    else if |raw.weather[0].astronomy| == 0 then Failure(P.NoAstronomy)
    else if |raw.currentCondition[0].weatherDesc| == 0 then Failure(P.NoCurrentDescription)
    else if !P.HourlyDescribed(raw.weather[0].hourly) then Failure(P.NoHourlyDescription)
    else Success(RawMessage(raw))
  }

  // ---------------------------------------------------------------------
  // format_weather, step by step
  // ---------------------------------------------------------------------

  lemma RawRowsNone(top: string, hs: seq<P.Hourly>)
    ensures P.HourlyDescribed(hs[..0])
    ensures top + TableRows(RawRows(hs[..0])) == top
  {
    assert RawRows(hs[..0]) == [];
  }

  /** Appending the row of entry `i` extends the rows of the entries before it. */
  lemma RawRowsStep(top: string, hs: seq<P.Hourly>, i: nat)
    requires i < |hs| && P.HourlyDescribed(hs[..i]) && |hs[i].weatherDesc| > 0
    ensures P.HourlyDescribed(hs[..i + 1])
    ensures top + TableRows(RawRows(hs[..i])) + TableRow(RawCells(hs[i]))
         == top + TableRows(RawRows(hs[..i + 1]))
  {
    var a, b := RawRows(hs[..i + 1]), RawRows(hs[..i]) + [RawCells(hs[i])];
    forall k | 0 <= k < |a| ensures a[k] == b[k] {
      if k < i { assert hs[..i + 1][k] == hs[..i][k]; }
    }
    assert a == b;
    TableRowsSnoc(RawRows(hs[..i]), RawCells(hs[i]));
  }

  /**
    The first half of `format_weather`: the header naming "Cenon", the two
    paragraphs and the table's top, pushed onto an empty message.
  */
  method WriteRawSections(current: P.CurrentCondition, today: P.Weather) returns (msg: string)
    requires |current.weatherDesc| > 0 && |today.astronomy| > 0
    ensures msg == Preamble(HeaderLine(Location, today.date), RawCurrent(current), RawDay(today))
  {
    var header := HeaderLine(Location, today.date);
    var paragraph, day := RawCurrent(current), RawDay(today);
    var heading, columns, separator := TableHeading, ColumnHeader(), Separator();
    msg := "";
    assert msg + header == header;
    msg := msg + header;
    msg := msg + paragraph;
    msg := msg + day;
    msg := msg + heading;
    msg := msg + columns;
    msg := msg + separator;
    ConcatAssoc(header + paragraph + day, heading, columns, separator);
  }

  /**
    The loop of `format_weather`: one row per hourly entry, in order; the
    first entry without a description stops it.
  */
  method PushRawRows(prefix: string, hs: seq<P.Hourly>) returns (r: Result<string, P.IncompleteData>)
    ensures P.HourlyDescribed(hs) ==> r == Success(prefix + TableRows(RawRows(hs)))
    ensures !P.HourlyDescribed(hs) ==> r == Failure(P.NoHourlyDescription)
  {
    var msg := prefix;
    RawRowsNone(prefix, hs);
    for i := 0 to |hs|
      invariant P.HourlyDescribed(hs[..i])
      invariant msg == prefix + TableRows(RawRows(hs[..i]))
    {
      if |hs[i].weatherDesc| == 0 {
        return Failure(P.NoHourlyDescription);
      }
      RawRowsStep(prefix, hs, i);
      msg := msg + TableRow(RawCells(hs[i]));
    }
    assert hs[..|hs|] == hs;
    return Success(msg);
  }

  /** `format_weather`: the first elements, the sections, the rows, the closing fence. */
  method FormatWeather(raw: P.Response) returns (r: Result<string, P.IncompleteData>)
    ensures r == WeatherText(raw)
  {
    if |raw.currentCondition| == 0 {
      return Failure(P.NoCurrentCondition);
    }
    if |raw.weather| == 0 {
      return Failure(P.NoWeather);
    }
    var current, today := raw.currentCondition[0], raw.weather[0];
    if |today.astronomy| == 0 {
      return Failure(P.NoAstronomy);
    }
    if |current.weatherDesc| == 0 {
      return Failure(P.NoCurrentDescription);
    }
    var msg := WriteRawSections(current, today);
    r := PushRawRows(msg, today.hourly);
    if r.Success? {
      r := Success(r.value + ClosingFence);
    }
  }

  // ---------------------------------------------------------------------
  // What the message shows
  // ---------------------------------------------------------------------

  /**
    The message opens with the title and "Cenon"; the "Actuellement",
    "Journée" and "Prévisions horaires" headings follow in this order.
  */
  lemma RawHeadings(raw: P.Response) returns (c: nat, d: nat, t: nat)
    requires P.Complete(raw)
    ensures var m := RawMessage(raw);
      && OccursAt(m, "# :sunny: Météo ", 0)
      && OccursAt(m, Location, |"# :sunny: Météo "|)
      && 0 < c < d < t
      && OccursAt(m, CurrentTitle, c) && OccursAt(m, DayTitle, d) && OccursAt(m, TableHeading, t)
  {
    var cc, today := raw.currentCondition[0], raw.weather[0];
    HeaderMentions(Location, today.date);
    RawCurrentMentions(cc);
    RawDayMentions(today);
    c, d, t := MessageHeadings(HeaderLine(Location, today.date), RawCurrent(cc), RawDay(today),
                               RawRows(today.hourly), Location);
  }

  /**
    The table's top is the same as the formatter's: heading, the constant
    column header, fifty dashes, then the rows.
  */
  lemma RawTableTop(raw: P.Response) returns (t: nat, s: nat, r: nat)
    requires P.Complete(raw)
    ensures var m := RawMessage(raw);
      && OccursAt(m, TableHeading, t)
      && OccursAt(m, ColumnTitles, t + |TableHeading|)
      && OccursAt(m, Separator(), s) && s == t + |TableHeading| + |ColumnTitles|
      && OccursAt(m, TableRows(RawRows(raw.weather[0].hourly)), r) && r == s + |Separator()|
  {
    var today := raw.weather[0];
    t, s, r := MessageTableTop(HeaderLine(Location, today.date), RawCurrent(raw.currentCondition[0]),
                               RawDay(today), RawRows(today.hourly));
  }

  /** The rows of the hourly entries come in the order of the entries. */
  lemma RawRowsInOrder(raw: P.Response, i: nat, j: nat) returns (p: nat, q: nat)
    requires P.Complete(raw) && i < j < |raw.weather[0].hourly|
    ensures var m, hs := RawMessage(raw), raw.weather[0].hourly;
      && OccursAt(m, TableRow(RawCells(hs[i])), p)
      && OccursAt(m, TableRow(RawCells(hs[j])), q)
      && p + |TableRow(RawCells(hs[i]))| <= q
  {
    var today := raw.weather[0];
    p, q := MessageRowsInOrder(HeaderLine(Location, today.date), RawCurrent(raw.currentCondition[0]),
                               RawDay(today), RawRows(today.hourly), i, j);
  }

  /** The current paragraph opens with its title and shows the temperature and the description. */
  lemma RawCurrentMentions(cc: P.CurrentCondition)
    requires |cc.weatherDesc| > 0
    ensures OccursAt(RawCurrent(cc), CurrentTitle, 0)
    ensures Contains(RawCurrent(cc), cc.tempC + "°C")
    ensures Contains(RawCurrent(cc), Trim(cc.weatherDesc[0].value))
  {
    CurrentMentions(
      Trim(cc.weatherDesc[0].value), cc.tempC, cc.feelsLikeC, cc.humidity,
      cc.windspeedKmph, cc.winddir16Point, cc.precipMM, cc.uvIndex, cc.pressure, cc.visibility);
  }

  /** The day paragraph opens with its title and shows the trimmed sunrise and sunset. */
  lemma RawDayMentions(today: P.Weather)
    requires |today.astronomy| > 0
    ensures OccursAt(RawDay(today), DayTitle, 0)
    ensures Contains(RawDay(today), Trim(today.astronomy[0].sunrise))
    ensures Contains(RawDay(today), Trim(today.astronomy[0].sunset))
  {
    var astro := today.astronomy[0];
    DayMentions(
      today.mintempC, today.maxtempC, today.avgtempC,
      Trim(astro.sunrise), Trim(astro.sunset), Trim(astro.moonPhase));
  }

  /**
    The message shows "Cenon", the current temperature as sent followed by
    "°C", the trimmed current description and the trimmed sunrise and
    sunset.
  */
  lemma RawMentions(raw: P.Response)
    requires P.Complete(raw)
    ensures var m, cc, today := RawMessage(raw), raw.currentCondition[0], raw.weather[0];
      && Contains(m, Location)
      && Contains(m, cc.tempC + "°C")
      && Contains(m, Trim(cc.weatherDesc[0].value))
      && Contains(m, Trim(today.astronomy[0].sunrise))
      && Contains(m, Trim(today.astronomy[0].sunset))
  {
    var cc, today := raw.currentCondition[0], raw.weather[0];
    var h, c, d, rows := HeaderLine(Location, today.date), RawCurrent(cc), RawDay(today), RawRows(today.hourly);
    HeaderMentions(Location, today.date);
    RawCurrentMentions(cc);
    RawDayMentions(today);
    MessageShows(h, c, d, rows, Location);
    MessageShows(h, c, d, rows, cc.tempC + "°C");
    MessageShows(h, c, d, rows, Trim(cc.weatherDesc[0].value));
    MessageShows(h, c, d, rows, Trim(today.astronomy[0].sunrise));
    MessageShows(h, c, d, rows, Trim(today.astronomy[0].sunset));
  }

  /** The message shows the trimmed description of every hourly entry. */
  lemma RawShowsDescription(raw: P.Response, i: nat)
    requires P.Complete(raw) && i < |raw.weather[0].hourly|
    ensures Contains(RawMessage(raw), Trim(raw.weather[0].hourly[i].weatherDesc[0].value))
  {
    var cc, today := raw.currentCondition[0], raw.weather[0];
    MessageShowsDescription(HeaderLine(Location, today.date), RawCurrent(cc), RawDay(today), RawRows(today.hourly), i);
  }

  lemma RawShowsDescriptions(raw: P.Response)
    requires P.Complete(raw)
    ensures forall i :: 0 <= i < |raw.weather[0].hourly| ==>
      Contains(RawMessage(raw), Trim(raw.weather[0].hourly[i].weatherDesc[0].value))
  {
    forall i | 0 <= i < |raw.weather[0].hourly|
      ensures Contains(RawMessage(raw), Trim(raw.weather[0].hourly[i].weatherDesc[0].value))
    {
      RawShowsDescription(raw, i);
    }
  }

  /**
    What a reader of `format_weather`'s message is promised: the location,
    the trimmed sunrise and sunset, and the trimmed description of every
    hourly entry.
  */
  lemma RawMessageShows(raw: P.Response)
    requires P.Complete(raw)
    ensures var m, today := RawMessage(raw), raw.weather[0];
      && Contains(m, Location)
      && Contains(m, Trim(today.astronomy[0].sunrise))
      && Contains(m, Trim(today.astronomy[0].sunset))
      && forall i :: 0 <= i < |today.hourly| ==> Contains(m, Trim(today.hourly[i].weatherDesc[0].value))
  {
    RawShowsDescriptions(raw);
    RawMentions(raw);
  }

  /**
    The response of the source's own example: Cenon on 26 January 2026,
    light drizzle at 10°C and two hourly entries.
  */
  function SampleResponse(): P.Response {
    P.Response(
      [P.CurrentCondition("10", "7", "87", [P.ValueWrapper("Light drizzle")], "20", "SSE", "0.0", "0", "998", "10")],
      [P.Weather("2026-01-26", "12", "7", "9", [P.Astronomy("08:28 AM", "06:02 PM", "First Quarter")],
                 [P.Hourly("0", "7", "100", [P.ValueWrapper("Patchy rain nearby")]),
                  P.Hourly("1200", "10", "77", [P.ValueWrapper("Patchy rain nearby")])])])
  }

  /**
    The message shows "Cenon", "10°C", "Light drizzle" and "08:28 AM" for
    every complete response whose current temperature is sent as "10" and
    whose current description and sunrise trim to the example's texts.
  */
  lemma SampleMentions(raw: P.Response)
    requires P.Complete(raw)
    requires raw.currentCondition[0].tempC == "10"
    requires Trim(raw.currentCondition[0].weatherDesc[0].value) == "Light drizzle"
    requires Trim(raw.weather[0].astronomy[0].sunrise) == "08:28 AM"
    ensures var m := RawMessage(raw);
      && Contains(m, "Cenon") && Contains(m, "10°C") && Contains(m, "Light drizzle") && Contains(m, "08:28 AM")
  {
    assert "10" + "°C" == "10°C" by {
      assert ("10" + "°C")[..2] == "10";
    }
    RawMentions(raw);
  }

  /** The example response has every list the renderers index. */
  lemma SampleResponseComplete()
    ensures P.Complete(SampleResponse())
  {
    var hs := SampleResponse().weather[0].hourly;
    assert |hs| == 2 && |hs[0].weatherDesc| > 0 && |hs[1].weatherDesc| > 0;
  }

  /** The message of the example response itself. */
  lemma SampleResponseMentions()
    ensures P.Complete(SampleResponse())
    ensures var m := RawMessage(SampleResponse());
      && Contains(m, "Cenon") && Contains(m, "10°C") && Contains(m, "Light drizzle") && Contains(m, "08:28 AM")
  {
    var raw := SampleResponse();
    TrimKeepsTrimmed("Light drizzle");
    TrimKeepsTrimmed("08:28 AM");
    SampleResponseComplete();
    SampleMentions(raw);
  }

  // ---------------------------------------------------------------------
  // The two renderers side by side
  // ---------------------------------------------------------------------

  /**
    The layered route, `to_domain` then `format_weather_report`, promises
    the same for every complete response: the location, the trimmed
    sunrise and sunset, and the trimmed description of every hourly entry.
  */
  lemma BuiltReportShows(location: string, raw: P.Response, parseF32: string -> Option<F32>, showF32: F32 -> string)
    requires P.Complete(raw)
    ensures var m, today := ReportText(ToDomain(location, raw, parseF32).value, showF32), raw.weather[0];
      && Contains(m, location)
      && Contains(m, Trim(today.astronomy[0].sunrise))
      && Contains(m, Trim(today.astronomy[0].sunset))
      && forall i :: 0 <= i < |today.hourly| ==> Contains(m, Trim(today.hourly[i].weatherDesc[0].value))
  {
    var report := ToDomain(location, raw, parseF32).value;
    ReportShowsDescriptions(report, showF32);
    ToDomainTextFields(location, raw, parseF32);
    ReportMentions(report, showF32);
  }

  /**
    `format_weather` panics exactly where `to_domain` does: both fail on
    the same responses, naming the same list.
  */
  lemma FailsLikeToDomain(location: string, raw: P.Response, parseF32: string -> Option<F32>)
    ensures WeatherText(raw).Success? <==> ToDomain(location, raw, parseF32).Success?
    ensures WeatherText(raw).Failure? ==> ToDomain(location, raw, parseF32) == Failure(WeatherText(raw).error)
  {
  }

  /** Only the first element of each list read at 0 matters. */
  lemma ReadsFirstsOnly(raw: P.Response)
    ensures WeatherText(P.FirstsOnly(raw)) == WeatherText(raw)
  {
    var firsts := P.FirstsOnly(raw);
    if |raw.currentCondition| > 0 && |raw.weather| > 0 {
      var hs, gs := raw.weather[0].hourly, firsts.weather[0].hourly;
      assert |gs| == |hs|;
      assert forall i :: 0 <= i < |hs| ==> gs[i].weatherDesc == P.FirstOnly(hs[i].weatherDesc);
      assert P.HourlyDescribed(gs) <==> P.HourlyDescribed(hs);
      if P.Complete(raw) {
        assert RawRows(gs) == RawRows(hs);
      }
    }
  }

  /**
    Every integer field holds the decimal text of a value in its range,
    with no sign, leading zero or space the parse would drop.
  */
  predicate CanonicalNumbers(raw: P.Response)
    requires P.Complete(raw)
  {
    var cc, today := raw.currentCondition[0], raw.weather[0];
    && IsCanonical(cc.tempC, -128, 127) && IsCanonical(cc.feelsLikeC, -128, 127)
    && IsCanonical(cc.humidity, 0, 255) && IsCanonical(cc.windspeedKmph, 0, 65535)
    && IsCanonical(cc.uvIndex, 0, 255) && IsCanonical(cc.pressure, 0, 65535) && IsCanonical(cc.visibility, 0, 255)
    && IsCanonical(today.mintempC, -128, 127) && IsCanonical(today.maxtempC, -128, 127)
    && IsCanonical(today.avgtempC, -128, 127)
    && forall i :: 0 <= i < |today.hourly| ==>
         IsCanonical(today.hourly[i].tempC, -128, 127) && IsCanonical(today.hourly[i].chanceOfRain, 0, 255)
  }

  lemma CurrentAgrees(raw: P.Response, parseF32: string -> Option<F32>, showF32: F32 -> string)
    requires P.Complete(raw) && CanonicalNumbers(raw)
    requires var cc := raw.currentCondition[0]; showF32(ParseF32OrZero(cc.precipMM, parseF32)) == cc.precipMM
    ensures ReportCurrent(ToDomain(Location, raw, parseF32).value.current, showF32) == RawCurrent(raw.currentCondition[0])
  {
    var cc := raw.currentCondition[0];
    ParseOrZeroDisplay(cc.tempC, -128, 127);
    ParseOrZeroDisplay(cc.feelsLikeC, -128, 127);
    ParseOrZeroDisplay(cc.humidity, 0, 255);
    ParseOrZeroDisplay(cc.windspeedKmph, 0, 65535);
    ParseOrZeroDisplay(cc.uvIndex, 0, 255);
    ParseOrZeroDisplay(cc.pressure, 0, 65535);
    ParseOrZeroDisplay(cc.visibility, 0, 255);
  }

  lemma DayAgrees(raw: P.Response, parseF32: string -> Option<F32>)
    requires P.Complete(raw) && CanonicalNumbers(raw)
    ensures ReportDay(ToDomain(Location, raw, parseF32).value.daily) == RawDay(raw.weather[0])
  {
    var today := raw.weather[0];
    ParseOrZeroDisplay(today.mintempC, -128, 127);
    ParseOrZeroDisplay(today.maxtempC, -128, 127);
    ParseOrZeroDisplay(today.avgtempC, -128, 127);
  }

  lemma RowsAgree(raw: P.Response, parseF32: string -> Option<F32>)
    requires P.Complete(raw) && CanonicalNumbers(raw)
    ensures ReportCells(ToDomain(Location, raw, parseF32).value.hourly) == RawRows(raw.weather[0].hourly)
  {
    var hs, report := raw.weather[0].hourly, ToDomain(Location, raw, parseF32).value;
    var a, b := ReportCells(report.hourly), RawRows(hs);
    forall i | 0 <= i < |hs| ensures a[i] == b[i] {
      assert ParseHourly(hs[i]) == Success(report.hourly[i]);
      ParseOrZeroDisplay(hs[i].tempC, -128, 127);
      ParseOrZeroDisplay(hs[i].chanceOfRain, 0, 255);
    }
  }

  /**
    On a complete response whose integer texts are canonical and whose
    precipitation reads back as sent, `format_weather` gives the text of
    `format_weather_report` on the report `to_domain` makes for "Cenon".
  */
  lemma MatchesLayered(raw: P.Response, parseF32: string -> Option<F32>, showF32: F32 -> string)
    requires P.Complete(raw) && CanonicalNumbers(raw)
    requires var cc := raw.currentCondition[0]; showF32(ParseF32OrZero(cc.precipMM, parseF32)) == cc.precipMM
    ensures ToDomain(Location, raw, parseF32).Success?
    ensures WeatherText(raw) == Success(ReportText(ToDomain(Location, raw, parseF32).value, showF32))
  {
    var report := ToDomain(Location, raw, parseF32).value;
    CurrentAgrees(raw, parseF32, showF32);
    DayAgrees(raw, parseF32);
    RowsAgree(raw, parseF32);
    assert HeaderLine(report.location, report.date) == HeaderLine(Location, raw.weather[0].date);
  }
}
