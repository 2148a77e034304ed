/**
  The conversion from the provider's all-text response to the typed
  report (`WeatherApiClient::to_domain` and `parse_hourly` in
  src/infrastructure/weather_api.rs). Pure: the HTTP fetch that feeds it is
  not part of the model.
*/
module WeatherApi {
  import opened Wrappers
  import opened RustText
  import opened Domain
  import P = Provider

  // ---------------------------------------------------------------------
  // Lenient numeric fields: `parse().unwrap_or(0)` into the field's type
  // ---------------------------------------------------------------------

  function ParseI8(s: string): (v: I8)
    ensures LenientReading(s, v, -128, 127)
  {
    ParseOrZeroDisplay(s, -128, 127);
    ParseOrZero(s, -128, 127)
  }

  function ParseU8(s: string): (v: U8)
    ensures LenientReading(s, v, 0, 255)
  {
    ParseOrZeroDisplay(s, 0, 255);
    ParseOrZero(s, 0, 255)
  }

  function ParseU16(s: string): (v: U16)
    ensures LenientReading(s, v, 0, 65535)
  {
    ParseOrZeroDisplay(s, 0, 65535);
    ParseOrZero(s, 0, 65535)
  }

  /**
    `parse::<f32>().unwrap_or(0.0)`. Reading decimal text as a float is not
    modelled: the reader is a parameter, and only the fall-back to `0.0` is
    fixed here.
  */
  function ParseF32OrZero(s: string, parseF32: string -> Option<F32>): (f: F32)
    ensures parseF32(s).None? ==> f == ZeroF32
    ensures parseF32(s).Some? ==> f == parseF32(s).value
  {
    match parseF32(s)
    case Some(f) => f
    case None => ZeroF32
  }

  // ---------------------------------------------------------------------
  // Hour codes
  // ---------------------------------------------------------------------

  /** The `match h.time.as_str()` table of `parse_hourly`. */
  function HourLabel(code: string): (r: string)
    ensures r == code || (|r| == 5 && AllDigits(r[..2]) && r[2..] == ":00")
  {
    match code
    case "0" => "00:00"
    case "300" => "03:00"
    case "600" => "06:00"
    case "900" => "09:00"
    case "1200" => "12:00"
    case "1500" => "15:00"
    case "1800" => "18:00"
    case "2100" => "21:00"
    case other => other
  }

  /** Two-digit, zero-padded text of a number below 100. */
  function TwoDigits(n: nat): (r: string)
    requires n < 100
    ensures |r| == 2 && AllDigits(r) && DigitsValue(r) == n
  {
    var r := [DigitChar(n / 10), DigitChar(n % 10)];
    assert r[..1] == [r[0]] && r[..1][..0] == [];
    assert DigitsValue(r[..1]) == n / 10;
    r
  }

  /**
    The provider's three-hourly time codes, described independently of the
    table: the canonical decimal text of a multiple of 300 between 0 and
    2100 (hundreds of hours plus minutes, "HMM").
  */
  predicate IsThreeHourCode(code: string) {
    IsCanonical(code, 0, 2100) && ParseInt(code, 0, 2100).value % 300 == 0
  }

  lemma ThreeDigitDecimals()
    ensures IntToDecimal(300) == "300" && IntToDecimal(600) == "600" && IntToDecimal(900) == "900"
  {
    NatToDecimalAppend(3, 0); NatToDecimalAppend(30, 0);
    NatToDecimalAppend(6, 0); NatToDecimalAppend(60, 0);
    NatToDecimalAppend(9, 0); NatToDecimalAppend(90, 0);
  }

  lemma FourDigitDecimals()
    ensures IntToDecimal(1200) == "1200" && IntToDecimal(1500) == "1500"
  {
    NatToDecimalAppend(1, 2); NatToDecimalAppend(12, 0); NatToDecimalAppend(120, 0);
    NatToDecimalAppend(1, 5); NatToDecimalAppend(15, 0); NatToDecimalAppend(150, 0);
  }

  lemma FourDigitDecimalsLate()
    ensures IntToDecimal(1800) == "1800" && IntToDecimal(2100) == "2100"
  {
    NatToDecimalAppend(1, 8); NatToDecimalAppend(18, 0); NatToDecimalAppend(180, 0);
    NatToDecimalAppend(2, 1); NatToDecimalAppend(21, 0); NatToDecimalAppend(210, 0);
  }

  /** The decimal text of the eight three-hour values. */
  lemma TableCodeDecimals()
    ensures IntToDecimal(0) == "0" && IntToDecimal(300) == "300"
    ensures IntToDecimal(600) == "600" && IntToDecimal(900) == "900"
    ensures IntToDecimal(1200) == "1200" && IntToDecimal(1500) == "1500"
    ensures IntToDecimal(1800) == "1800" && IntToDecimal(2100) == "2100"
  {
    ThreeDigitDecimals();
    FourDigitDecimals();
    FourDigitDecimalsLate();
  }

  /** The text of every multiple of 300 from 0 to 2100 is a three-hour code. */
  lemma ThreeHourCodeOf(v: int)
    requires 0 <= v <= 2100 && v % 300 == 0
    ensures IsThreeHourCode(IntToDecimal(v))
  {
    ParseDecimal(v, 0, 2100);
  }

  /** The zero-padded hours of the eight table entries. */
  lemma TableHours()
    ensures TwoDigits(0) == "00" && TwoDigits(3) == "03" && TwoDigits(6) == "06"
    ensures TwoDigits(9) == "09" && TwoDigits(12) == "12" && TwoDigits(15) == "15"
    ensures TwoDigits(18) == "18" && TwoDigits(21) == "21"
  {
  }

  /** The eight entries of the table. */
  lemma HourLabelTable()
    ensures HourLabel("0") == "00:00" && HourLabel("300") == "03:00"
    ensures HourLabel("600") == "06:00" && HourLabel("900") == "09:00"
    ensures HourLabel("1200") == "12:00" && HourLabel("1500") == "15:00"
    ensures HourLabel("1800") == "18:00" && HourLabel("2100") == "21:00"
  {
  }

  /** A code outside the table passes through. */
  lemma HourLabelOutsideTable(code: string)
    requires code != "0" && code != "300" && code != "600" && code != "900"
    requires code != "1200" && code != "1500" && code != "1800" && code != "2100"
    ensures HourLabel(code) == code
  {
  }

  /** The multiples of 300 from 0 to 2100. */
  lemma ThreeHourValues(v: int)
    requires 0 <= v <= 2100 && v % 300 == 0
    ensures v in {0, 300, 600, 900, 1200, 1500, 1800, 2100}
  {
    var q := v / 300;
    assert v == 300 * q && 0 <= q <= 7;
  }

  /** Each three-hour code is one of the table's eight codes. */
  lemma ThreeHourCodeInTable(code: string)
    requires IsThreeHourCode(code)
    ensures code in {"0", "300", "600", "900", "1200", "1500", "1800", "2100"}
  {
    var v := ParseInt(code, 0, 2100).value;
    ThreeHourValues(v);
    TableCodeDecimals();
    assert code == IntToDecimal(v);
  }

  /** Each of the table's eight codes is a three-hour code. */
  lemma TableCodeIsThreeHour(code: string)
    requires code in {"0", "300", "600", "900", "1200", "1500", "1800", "2100"}
    ensures IsThreeHourCode(code)
  {
    TableCodeDecimals();
    if code == "0" { ThreeHourCodeOf(0); }
    else if code == "300" { ThreeHourCodeOf(300); }
    else if code == "600" { ThreeHourCodeOf(600); }
    else if code == "900" { ThreeHourCodeOf(900); }
    else if code == "1200" { ThreeHourCodeOf(1200); }
    else if code == "1500" { ThreeHourCodeOf(1500); }
    else if code == "1800" { ThreeHourCodeOf(1800); }
    else { ThreeHourCodeOf(2100); }
  }

  /** The three-hour codes are exactly the eight codes of the table. */
  lemma ThreeHourCodeCases(code: string)
    ensures IsThreeHourCode(code) <==>
      code in {"0", "300", "600", "900", "1200", "1500", "1800", "2100"}
  {
    if IsThreeHourCode(code) {
      ThreeHourCodeInTable(code);
    }
    if code in {"0", "300", "600", "900", "1200", "1500", "1800", "2100"} {
      TableCodeIsThreeHour(code);
    }
  }

  /** The table entry of each multiple of 300 from 0 to 2100. */
  lemma HourLabelEntry(v: int)
    requires v in {0, 300, 600, 900, 1200, 1500, 1800, 2100}
    ensures HourLabel(IntToDecimal(v)) == TwoDigits(v / 100) + ":00"
  {
    TableCodeDecimals();
    HourLabelTable();
    TableHours();
    if v == 0 {
    } else if v == 300 {
    } else if v == 600 {
    } else if v == 900 {
    } else if v == 1200 {
    } else if v == 1500 {
    } else if v == 1800 {
    } else {
    }
  }

  /**
    A three-hour code `HMM` is shown as the zero-padded hour `HH:00`
    ("0" as "00:00", "1500" as "15:00").
  */
  lemma HourLabelOfThreeHourCode(code: string)
    requires IsThreeHourCode(code)
    ensures HourLabel(code) == TwoDigits(ParseInt(code, 0, 2100).value / 100) + ":00"
  {
    var v := ParseInt(code, 0, 2100).value;
    ThreeHourValues(v);
    HourLabelEntry(v);
  }

  /**
    Every code other than the three-hour ones, "130" or "" or " 300"
    alike, passes through unchanged.
  */
  lemma HourLabelPassesThrough(code: string)
    requires !IsThreeHourCode(code)
    ensures HourLabel(code) == code
  {
    ThreeHourCodeCases(code);
    HourLabelOutsideTable(code);
  }

  // ---------------------------------------------------------------------
  // parse_hourly and the hourly list
  // ---------------------------------------------------------------------

  /**
    `parse_hourly`: one provider entry as a typed forecast. The source
    indexes `weather_desc[0]` unchecked; an entry without a description is
    the failure `NoHourlyDescription` here.
  */
  function ParseHourly(h: P.Hourly): (r: Result<HourlyForecast, P.IncompleteData>)
    ensures r.Success? <==> |h.weatherDesc| > 0
    ensures r.Failure? ==> r.error == P.NoHourlyDescription
    ensures r.Success? ==> r.value.hour == HourLabel(h.time)
    ensures r.Success? ==> LenientReading(h.tempC, r.value.temperature, -128, 127)
    ensures r.Success? ==> LenientReading(h.chanceOfRain, r.value.chanceOfRain, 0, 255)
    ensures r.Success? ==> r.value.description == Trim(h.weatherDesc[0].value)
    ensures r.Success? ==> IsTrimmed(r.value.description)
  {
    if |h.weatherDesc| == 0 then Failure(P.NoHourlyDescription)
    else
      Success(HourlyForecast(
        HourLabel(h.time),
        ParseI8(h.tempC),
        ParseU8(h.chanceOfRain),
        Trim(h.weatherDesc[0].value)))
  }

  /**
    `hourly.iter().map(parse_hourly).collect()`: succeeds exactly when every
    entry has a description, and then keeps the length and the order.
  */
  function ParseAllHourly(hs: seq<P.Hourly>): (r: Result<seq<HourlyForecast>, P.IncompleteData>)
    ensures r.Success? <==> P.HourlyDescribed(hs)
    ensures r.Failure? ==> r.error == P.NoHourlyDescription
    ensures r.Success? ==> |r.value| == |hs|
    ensures r.Success? ==> forall i :: 0 <= i < |hs| ==> ParseHourly(hs[i]) == Success(r.value[i])
  {
    MapAll(ParseHourly, hs)
  }

  // ---------------------------------------------------------------------
  // to_domain
  // ---------------------------------------------------------------------

  /**
    `to_domain`: the typed report for `location`. It reads only the first
    element of `current_condition`, `weather`, `astronomy` and each
    `weatherDesc`; where the source would panic on an empty one, the model
    fails with the first gap in the source's reading order.
  */
  function ToDomain(location: string, raw: P.Response, parseF32: string -> Option<F32>)
    : (r: Result<WeatherReport, P.IncompleteData>)
    ensures r.Success? <==> P.Complete(raw)
    ensures r.Failure? ==> P.FirstGap(raw) == Some(r.error)
    ensures r.Success? ==> r.value.location == location
    ensures r.Success? ==> r.value.date == raw.weather[0].date
    ensures r.Success? ==> |r.value.hourly| == |raw.weather[0].hourly|
    ensures r.Success? ==> forall i :: 0 <= i < |raw.weather[0].hourly| ==>
              ParseHourly(raw.weather[0].hourly[i]) == Success(r.value.hourly[i])
  {
    if |raw.currentCondition| == 0 then Failure(P.NoCurrentCondition)
    else if |raw.weather| == 0 then Failure(P.NoWeather)
    else
      var current := raw.currentCondition[0];
      var today := raw.weather[0];
      if |today.astronomy| == 0 then Failure(P.NoAstronomy)
      else if |current.weatherDesc| == 0 then Failure(P.NoCurrentDescription)
      else
        match ParseAllHourly(today.hourly)
        case Failure(e) => Failure(e)
        case Success(hourly) =>
          var astro := today.astronomy[0];
          Success(WeatherReport(
            location,
            today.date,
            CurrentWeather(
              Trim(current.weatherDesc[0].value),
              Temperature(ParseI8(current.tempC), ParseI8(current.feelsLikeC)),
              ParseU8(current.humidity),
              Wind(ParseU16(current.windspeedKmph), current.winddir16Point),
              ParseF32OrZero(current.precipMM, parseF32),
              ParseU8(current.uvIndex),
              ParseU16(current.pressure),
              ParseU8(current.visibility)),
            DailyForecast(
              ParseI8(today.mintempC),
              ParseI8(today.maxtempC),
              ParseI8(today.avgtempC),
              Astronomy(Trim(astro.sunrise), Trim(astro.sunset), Trim(astro.moonPhase))),
            hourly))
  }

  // ---------------------------------------------------------------------
  // What to_domain reads and how it treats each field
  // ---------------------------------------------------------------------

  /**
    The lenient parse on a few provider texts: "+7" is 7, "-0" is 0, and
    an empty text, a text with a space, a minus sign on an unsigned field
    and a number past the field's range are all 0.
  */
  lemma LenientParseExamples()
    ensures ParseI8("+7") == 7 && ParseI8("-0") == 0
    ensures ParseI8("") == 0 && ParseI8(" 7") == 0 && ParseI8("7 ") == 0
    ensures ParseU8("-1") == 0 && ParseI8("128") == 0
  {
    ParseRejectsWhitespace(" 7", -128, 127, 0);
    ParseRejectsWhitespace("7 ", -128, 127, 1);
    assert DigitsValue("128") == 128 by {
      assert "128"[..2] == "12" && "12"[..1] == "1";
    }
  }

  /** A numeric field holds the provider's number exactly when its text is one of the field's range. */
  lemma NumericFieldOfDecimal(n: int)
    ensures -128 <= n <= 127 ==> ParseI8(IntToDecimal(n)) == n
    ensures 0 <= n <= 255 ==> ParseU8(IntToDecimal(n)) == n
    ensures 0 <= n <= 65535 ==> ParseU16(IntToDecimal(n)) == n
    ensures !(-128 <= n <= 127) ==> ParseI8(IntToDecimal(n)) == 0
    ensures !(0 <= n <= 255) ==> ParseU8(IntToDecimal(n)) == 0
    ensures !(0 <= n <= 65535) ==> ParseU16(IntToDecimal(n)) == 0
  {
    if -128 <= n <= 127 { ParseDecimal(n, -128, 127); } else { ParseDecimalOutOfRange(n, -128, 127); }
    if 0 <= n <= 255 { ParseDecimal(n, 0, 255); } else { ParseDecimalOutOfRange(n, 0, 255); }
    if 0 <= n <= 65535 { ParseDecimal(n, 0, 65535); } else { ParseDecimalOutOfRange(n, 0, 65535); }
  }

  /** Entries that agree on their time, numbers and first description parse alike. */
  lemma ParseHourlyFirstOnly(h: P.Hourly)
    ensures ParseHourly(h.(weatherDesc := P.FirstOnly(h.weatherDesc))) == ParseHourly(h)
  {
  }

  lemma ParseAllHourlyAlike(hs: seq<P.Hourly>, gs: seq<P.Hourly>)
    requires |hs| == |gs|
    requires forall i :: 0 <= i < |hs| ==> ParseHourly(hs[i]) == ParseHourly(gs[i])
    ensures ParseAllHourly(hs) == ParseAllHourly(gs)
  {
    var a, b := ParseAllHourly(hs), ParseAllHourly(gs);
    forall i | 0 <= i < |hs| ensures |hs[i].weatherDesc| > 0 <==> |gs[i].weatherDesc| > 0 {
      assert ParseHourly(hs[i]).Success? <==> ParseHourly(gs[i]).Success?;
    }
    assert a.Success? <==> b.Success?;
    if a.Success? {
      forall i | 0 <= i < |hs| ensures a.value[i] == b.value[i] {
        assert ParseHourly(hs[i]) == Success(a.value[i]);
        assert ParseHourly(gs[i]) == Success(b.value[i]);
      }
      assert a.value == b.value;
    }
  }

  /**
    `to_domain` reads only the first element of `current_condition`,
    `weather`, `astronomy` and each `weatherDesc`: the response cut down to
    those gives the same report, or the same failure.
  */
  lemma ToDomainReadsFirstsOnly(location: string, raw: P.Response, parseF32: string -> Option<F32>)
    ensures ToDomain(location, P.FirstsOnly(raw), parseF32) == ToDomain(location, raw, parseF32)
  {
    if |raw.currentCondition| > 0 && |raw.weather| > 0 {
      var hs := raw.weather[0].hourly;
      var gs := P.HourlyFirsts(hs);
      forall i | 0 <= i < |hs| ensures ParseHourly(gs[i]) == ParseHourly(hs[i]) {
        ParseHourlyFirstOnly(hs[i]);
      }
      ParseAllHourlyAlike(gs, hs);
    }
  }

  /**
    Which texts `to_domain` trims and which it keeps as sent: the current
    description, the three astronomy texts and every hourly description are
    trimmed; the location, the date and the wind direction are verbatim;
    every hour is the label of its time code.
  */
  lemma ToDomainTextFields(location: string, raw: P.Response, parseF32: string -> Option<F32>)
    requires P.Complete(raw)
    ensures var w, cc, today := ToDomain(location, raw, parseF32).value, raw.currentCondition[0], raw.weather[0];
      && w.location == location
      && w.date == today.date
      && w.current.wind.direction == cc.winddir16Point
      && w.current.description == Trim(cc.weatherDesc[0].value)
      && w.daily.astronomy.sunrise == Trim(today.astronomy[0].sunrise)
      && w.daily.astronomy.sunset == Trim(today.astronomy[0].sunset)
      && w.daily.astronomy.moonPhase == Trim(today.astronomy[0].moonPhase)
      && forall i :: 0 <= i < |today.hourly| ==>
           && w.hourly[i].hour == HourLabel(today.hourly[i].time)
           && w.hourly[i].description == Trim(today.hourly[i].weatherDesc[0].value)
  {
  }

  /**
    How `to_domain` reads the numbers: every integer field is the lenient
    reading of its provider text in the field's type (the parsed value,
    which prints back as the text when that is canonical, and 0 when the
    text does not parse), and the precipitation is the float reader's value
    or 0.0.
  */
  lemma ToDomainNumbers(location: string, raw: P.Response, parseF32: string -> Option<F32>)
    requires P.Complete(raw)
    ensures var w, cc, today := ToDomain(location, raw, parseF32).value, raw.currentCondition[0], raw.weather[0];
      && LenientReading(cc.tempC, w.current.temperature.celsius, -128, 127)
      && LenientReading(cc.feelsLikeC, w.current.temperature.feelsLike, -128, 127)
      && LenientReading(cc.humidity, w.current.humidity, 0, 255)
      && LenientReading(cc.windspeedKmph, w.current.wind.speedKmh, 0, 65535)
      && w.current.precipitationMm == ParseF32OrZero(cc.precipMM, parseF32)
      && LenientReading(cc.uvIndex, w.current.uvIndex, 0, 255)
      && LenientReading(cc.pressure, w.current.pressureHpa, 0, 65535)
      && LenientReading(cc.visibility, w.current.visibilityKm, 0, 255)
      && LenientReading(today.mintempC, w.daily.tempMin, -128, 127)
      && LenientReading(today.maxtempC, w.daily.tempMax, -128, 127)
      && LenientReading(today.avgtempC, w.daily.tempAvg, -128, 127)
  {
  }

  /**
    How `parse_hourly` reads the numbers of every entry of the day: the
    temperature and the chance of rain are the lenient readings of their
    texts.
  */
  lemma ToDomainHourlyNumbers(location: string, raw: P.Response, parseF32: string -> Option<F32>)
    requires P.Complete(raw)
    ensures var w, today := ToDomain(location, raw, parseF32).value, raw.weather[0];
      forall i :: 0 <= i < |today.hourly| ==>
        && LenientReading(today.hourly[i].tempC, w.hourly[i].temperature, -128, 127)
        && LenientReading(today.hourly[i].chanceOfRain, w.hourly[i].chanceOfRain, 0, 255)
  {
  }
}
