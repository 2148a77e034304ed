/**
  What the message of `format_weather_report` looks like: where each section
  sits, the fixed table lines, the column widths of a row, one line per
  hourly entry, and the texts it is guaranteed to mention.
*/
module FormatterLayout {
  import opened RustText
  import opened Domain
  import opened Formatter

  // ---------------------------------------------------------------------
  // Fixed lines of the table
  // ---------------------------------------------------------------------

  lemma PadRightHeure()
    ensures PadRight("Heure", 7) == "Heure  "
  {
    assert Repeat(' ', 2) == "  ";
  }

  lemma PadLeftTemp()
    ensures PadLeft("Temp", 5) == " Temp"
  {
    assert Repeat(' ', 1) == " ";
  }

  lemma PadLeftPluie()
    ensures PadLeft("Pluie", 6) == " Pluie"
  {
    assert Repeat(' ', 1) == " ";
  }

  /** The column header as it is displayed. */
  const ColumnTitles := "Heure    Temp   Pluie  Conditions\n"

  /** The column header never changes. */
  lemma ColumnHeaderText()
    ensures ColumnHeader() == ColumnTitles
  {
    PadRightHeure();
    PadLeftTemp();
    PadLeftPluie();
  }

  /** The separator is exactly fifty dashes and a line break. */
  lemma SeparatorLine()
    ensures |Separator()| == 51 && Separator()[50] == '\n'
    ensures forall i :: 0 <= i < 50 ==> Separator()[i] == '-'
  {
  }

  /** The table's top: heading, column header, separator, in that order. */
  lemma TableTopLayout()
    ensures OccursAt(TableTop(), TableHeading, 0)
    ensures OccursAt(TableTop(), ColumnTitles, |TableHeading|)
    ensures OccursAt(TableTop(), Separator(), |TableHeading| + |ColumnHeader()|)
    ensures |TableTop()| == |TableHeading| + |ColumnHeader()| + |Separator()|
  {
    ColumnHeaderText();
    var h, c, s := TableHeading, ColumnHeader(), Separator();
    OccursAtStart(h, c + s);
    assert h + c + s == h + (c + s);
    OccursAtStart(h + c, s);
    OccursAtEnd(h, c);
    OccursInPrefix(h + c + s, h + c, c, |h|);
    OccursAtEnd(h + c, s);
  }

  // ---------------------------------------------------------------------
  // The message around its parts
  // ---------------------------------------------------------------------

  /** Three texts back to back: where each one sits. */
  lemma ThreePartsLayout(a: string, b: string, c: string)
    ensures var m := a + b + c;
      && OccursAt(m, a, 0)
      && OccursAt(m, b, |a|)
      && OccursAt(m, c, |a| + |b|)
  {
    var m := a + b + c;
    assert m[..|a|] == a;
    assert m[|a|..|a| + |b|] == b;
    assert m[|a| + |b|..] == c;
  }

  /** Six texts back to back: where each one sits. */
  lemma SixPartsLayout(a: string, b: string, c: string, d: string, e: string, f: string)
    ensures var m := a + b + c + d + e + f;
      && OccursAt(m, a, 0)
      && OccursAt(m, b, |a|)
      && OccursAt(m, c, |a| + |b|)
      && OccursAt(m, d, |a| + |b| + |c|)
      && OccursAt(m, e, |a| + |b| + |c| + |d|)
      && OccursAt(m, f, |a| + |b| + |c| + |d| + |e|)
  {
    var m := a + b + c + d + e + f;
    assert m[..|a|] == a;
    assert m[|a|..|a| + |b|] == b;
    assert m[|a| + |b|..|a| + |b| + |c|] == c;
    assert m[|a| + |b| + |c|..|a| + |b| + |c| + |d|] == d;
    assert m[|a| + |b| + |c| + |d|..|a| + |b| + |c| + |d| + |e|] == e;
    assert m[|a| + |b| + |c| + |d| + |e|..] == f;
  }

  /**
    The message starts with the header, the current paragraph, the day
    paragraph and the table's top, back to back.
  */
  lemma MessageSections(header: string, current: string, day: string, rows: seq<Cells>)
    ensures var m := Message(header, current, day, rows);
      && OccursAt(m, header, 0)
      && OccursAt(m, current, |header|)
      && OccursAt(m, day, |header| + |current|)
      && OccursAt(m, TableTop(), |header| + |current| + |day|)
  {
    var m, t, r := Message(header, current, day, rows), TableTop(), TableRows(rows);
    assert m == header + current + day + t + r + ClosingFence;
    SixPartsLayout(header, current, day, t, r, ClosingFence);
    var m' := header + current + day + t + r + ClosingFence;
    assert OccursAt(m', header, 0);
    assert OccursAt(m', current, |header|);
    assert OccursAt(m', day, |header| + |current|);
    assert OccursAt(m', t, |header| + |current| + |day|);
  }

  /** After the preamble come the rows. */
  lemma MessageRows(header: string, current: string, day: string, rows: seq<Cells>)
    ensures OccursAt(Message(header, current, day, rows), TableRows(rows), |Preamble(header, current, day)|)
  {
    var m, p, r := Message(header, current, day, rows), Preamble(header, current, day), TableRows(rows);
    assert m == (p + r) + ClosingFence;
    OccursAtEnd(p, r);
    OccursAtStart(p + r, ClosingFence);
    OccursInPrefix(m, p + r, r, |p|);
  }

  lemma FenceAfter(p: string, r: string)
    ensures OccursAt(p + r + ClosingFence, ClosingFence, |p| + |r|)
  {
    ThreePartsLayout(p, r, ClosingFence);
  }

  /** The closing fence ends the message, right after the rows. */
  lemma MessageEnd(header: string, current: string, day: string, rows: seq<Cells>) returns (f: nat)
    ensures f == |Preamble(header, current, day)| + |TableRows(rows)|
    ensures OccursAt(Message(header, current, day, rows), ClosingFence, f)
    ensures |Message(header, current, day, rows)| == f + |ClosingFence|
  {
    var m, p, r := Message(header, current, day, rows), Preamble(header, current, day), TableRows(rows);
    assert m == p + r + ClosingFence;
    FenceAfter(p, r);
    assert OccursAt(p + r + ClosingFence, ClosingFence, |p| + |r|);
    f := |p| + |r|;
  }

  // ---------------------------------------------------------------------
  // What the paragraphs show
  // ---------------------------------------------------------------------

  /** The header starts with the title and shows the location, then the date. */
  lemma HeaderMentions(location: string, date: string)
    ensures OccursAt(HeaderLine(location, date), "# :sunny: Météo ", 0)
    ensures OccursAt(HeaderLine(location, date), location, |"# :sunny: Météo "|)
    ensures OccursAt(HeaderLine(location, date), date, |"# :sunny: Météo "| + |location| + |" — "|)
  {
    var a := "# :sunny: Météo ";
    var h := HeaderLine(location, date);
    assert h == a + location + " — " + date + "\n\n";
    assert h[..|a|] == a;
    assert h[|a|..|a| + |location|] == location;
    assert h[|a| + |location| + 3..|a| + |location| + 3 + |date|] == date;
  }

  /** The summary line shows the description in bold, then the temperature followed by "°C". */
  lemma SummaryMentions(description: string, celsius: string, feelsLike: string)
    ensures OccursAt(SummaryLine(description, celsius, feelsLike), description, 2)
    ensures OccursAt(SummaryLine(description, celsius, feelsLike), celsius + "°C", 2 + |description| + |"** | **"|)
  {
    var line := SummaryLine(description, celsius, feelsLike);
    var k := 2 + |description| + 7;
    assert line[2..2 + |description|] == description;
    assert line[k..k + |celsius| + 2] == celsius + "°C";
  }

  /**
    The current-conditions paragraph starts with its title, then shows the
    description in bold and the temperature followed by "°C".
  */
  lemma CurrentMentions(
    description: string, celsius: string, feelsLike: string, humidity: string,
    windSpeed: string, windDirection: string, precipitation: string,
    uvIndex: string, pressure: string, visibility: string)
    ensures var p := CurrentParagraph(description, celsius, feelsLike, humidity, windSpeed,
                                      windDirection, precipitation, uvIndex, pressure, visibility);
      && OccursAt(p, CurrentTitle, 0)
      && OccursAt(p, description, |CurrentTitle| + 2)
      && OccursAt(p, celsius + "°C", |CurrentTitle| + 2 + |description| + |"** | **"|)
  {
    var t, summary := CurrentTitle, SummaryLine(description, celsius, feelsLike);
    var air, details := AirLine(humidity, windSpeed, windDirection), DetailsLine(precipitation, uvIndex, pressure, visibility);
    OccursAtStart(t, summary);
    OccursExtendRight(t + summary, air, t, 0);
    OccursExtendRight(t + summary + air, details, t, 0);
    OccursAtEnd(t, summary);
    OccursExtendRight(t + summary, air, summary, |t|);
    OccursExtendRight(t + summary + air, details, summary, |t|);
    SummaryMentions(description, celsius, feelsLike);
    var p := t + summary + air + details;
    OccursWithin(p, summary, |t|, description, 2);
    OccursWithin(p, summary, |t|, celsius + "°C", 2 + |description| + 7);
  }

  /** The sky line shows the sunrise, the sunset and the moon phase. */
  lemma SkyMentions(sunrise: string, sunset: string, moonPhase: string)
    ensures Contains(SkyLine(sunrise, sunset, moonPhase), sunrise)
    ensures Contains(SkyLine(sunrise, sunset, moonPhase), sunset)
    ensures Contains(SkyLine(sunrise, sunset, moonPhase), moonPhase)
  {
    var sky := SkyLine(sunrise, sunset, moonPhase);
    var a := 10 + |sunrise| + 17;
    var b := a + |sunset| + 19;
    assert sky[10..10 + |sunrise|] == sunrise;
    assert sky[a..a + |sunset|] == sunset;
    assert sky[b..b + |moonPhase|] == moonPhase;
    assert OccursAt(sky, sunrise, 10) && OccursAt(sky, sunset, a) && OccursAt(sky, moonPhase, b);
  }

  /** The day paragraph starts with its title and shows the sunrise, the sunset and the moon phase. */
  lemma DayMentions(
    tempMin: string, tempMax: string, tempAvg: string,
    sunrise: string, sunset: string, moonPhase: string)
    ensures var p := DayParagraph(tempMin, tempMax, tempAvg, sunrise, sunset, moonPhase);
      && OccursAt(p, DayTitle, 0)
      && Contains(p, sunrise)
      && Contains(p, sunset)
      && Contains(p, moonPhase)
  {
    var t, temperatures, sky := DayTitle, TemperaturesLine(tempMin, tempMax, tempAvg), SkyLine(sunrise, sunset, moonPhase);
    ThreePartsLayout(t, temperatures, sky);
    SkyMentions(sunrise, sunset, moonPhase);
    ContainsWithin(t + temperatures + sky, sky, |t| + |temperatures|, sunrise);
    ContainsWithin(t + temperatures + sky, sky, |t| + |temperatures|, sunset);
    ContainsWithin(t + temperatures + sky, sky, |t| + |temperatures|, moonPhase);
  }

  // ---------------------------------------------------------------------
  // The rows
  // ---------------------------------------------------------------------

  lemma {:induction false} TableRowsAppend(a: seq<Cells>, b: seq<Cells>)
    ensures TableRows(a + b) == TableRows(a) + TableRows(b)
  {
    if b == [] {
      assert a + b == a;
      assert TableRows(b) == [];
    } else {
      var b', last := b[..|b| - 1], b[|b| - 1];
      assert a + b == (a + b') + [last];
      assert b == b' + [last];
      TableRowsSnoc(a + b', last);
      TableRowsSnoc(b', last);
      TableRowsAppend(a, b');
    }
  }

  lemma SplitAt(cs: seq<Cells>, i: nat)
    requires i < |cs|
    ensures cs == cs[..i] + [cs[i]] + cs[i + 1..]
  {
  }

  /** Row `i` sits between the rows of the entries before and after it. */
  lemma TableRowsAt(cs: seq<Cells>, i: nat)
    requires i < |cs|
    ensures TableRows(cs) == TableRows(cs[..i]) + TableRow(cs[i]) + TableRows(cs[i + 1..])
  {
    var before, after := cs[..i], cs[i + 1..];
    var upTo := before + [cs[i]];
    SplitAt(cs, i);
    TableRowsAppend(upTo, after);
    assert TableRows(cs) == TableRows(upTo) + TableRows(after);
    TableRowsSnoc(before, cs[i]);
  }

  /** A row is one line: its line breaks are the final one and those inside its cells. */
  lemma TableRowLineBreaks(c: Cells)
    ensures var row := TableRow(c);
      && row[|row| - 1] == '\n'
      && CountChar(row, '\n') == 1 + CountChar(c.hour, '\n') + CountChar(c.temperature, '\n')
                                   + CountChar(c.rain, '\n') + CountChar(c.description, '\n')
  {
    var h, t, r := PadRight(c.hour, 7), PadLeft(c.temperature, 4), PadLeft(c.rain, 4);
    CountCharPadRight(c.hour, 7, '\n');
    CountCharPadLeft(c.temperature, 4, '\n');
    CountCharPadLeft(c.rain, 4, '\n');
    CountCharAbsent(" ", '\n');
    CountCharAbsent("°C  ", '\n');
    CountCharAbsent("%   ", '\n');
    assert CountChar("\n", '\n') == CountChar([], '\n') + 1;
    CountCharConcat(h, " ", '\n');
    CountCharConcat(h + " ", t, '\n');
    CountCharConcat(h + " " + t, "°C  ", '\n');
    CountCharConcat(h + " " + t + "°C  ", r, '\n');
    CountCharConcat(h + " " + t + "°C  " + r, "%   ", '\n');
    CountCharConcat(h + " " + t + "°C  " + r + "%   ", c.description, '\n');
    CountCharConcat(h + " " + t + "°C  " + r + "%   " + c.description, "\n", '\n');
  }

  /** A cells value fits on one line when none of its texts holds a line break. */
  predicate OneLine(c: Cells) {
    CountChar(c.hour, '\n') == 0 && CountChar(c.temperature, '\n') == 0
    && CountChar(c.rain, '\n') == 0 && CountChar(c.description, '\n') == 0
  }

  /** One line per entry: the rows hold exactly as many line breaks as there are entries. */
  lemma {:induction false} TableRowsLineBreaks(cs: seq<Cells>)
    requires forall i :: 0 <= i < |cs| ==> OneLine(cs[i])
    ensures CountChar(TableRows(cs), '\n') == |cs|
  {
    if cs != [] {
      var front, last := cs[..|cs| - 1], cs[|cs| - 1];
      TableRowsLineBreaks(front);
      TableRowLineBreaks(last);
      CountCharConcat(TableRows(front), TableRow(last), '\n');
    }
  }

  /** Where the parts of a row sit once its three padded cells have their widths. */
  lemma RowParts(h: string, t: string, r: string, d: string)
    requires |h| == 7 && |t| == 4 && |r| == 4
    ensures var row := h + " " + t + "°C  " + r + "%   " + d + "\n";
      && |row| == 25 + |d|
      && row[..7] == h && row[7] == ' ' && row[8..12] == t && row[12..16] == "°C  "
      && row[16..20] == r && row[20..24] == "%   " && row[24..] == d + "\n"
  {
  }

  /**
    The columns of a row whose hour fits in 7 chars and whose numbers fit
    in 4: the hour left-aligned in chars 0-6, a space, the temperature
    right-aligned in chars 8-11, "°C  ", the chance of rain right-aligned in
    chars 16-19, "%   ", then the description and the line break.
  */
  lemma TableRowColumns(c: Cells)
    requires |c.hour| <= 7 && |c.temperature| <= 4 && |c.rain| <= 4
    ensures var row := TableRow(c);
      && |row| == 25 + |c.description|
      && row[..|c.hour|] == c.hour
      && (forall k :: |c.hour| <= k < 8 ==> row[k] == ' ')
      && (forall k :: 8 <= k < 12 - |c.temperature| ==> row[k] == ' ')
      && row[12 - |c.temperature|..12] == c.temperature
      && row[12..16] == "°C  "
      && (forall k :: 16 <= k < 20 - |c.rain| ==> row[k] == ' ')
      && row[20 - |c.rain|..20] == c.rain
      && row[20..24] == "%   "
      && row[24..] == c.description + "\n"
  {
    var h, t, r := PadRight(c.hour, 7), PadLeft(c.temperature, 4), PadLeft(c.rain, 4);
    PadRightShape(c.hour, 7);
    PadLeftShape(c.temperature, 4);
    PadLeftShape(c.rain, 4);
    RowParts(h, t, r, c.description);
    var row := TableRow(c);
    assert row == h + " " + t + "°C  " + r + "%   " + c.description + "\n";
    assert row[..|c.hour|] == row[..7][..|c.hour|];
    assert row[12 - |c.temperature|..12] == row[8..12][4 - |c.temperature|..];
    assert row[20 - |c.rain|..20] == row[16..20][4 - |c.rain|..];
    forall k | |c.hour| <= k < 8 ensures row[k] == ' ' {
      if k < 7 { assert row[k] == row[..7][k]; }
    }
    forall k | 8 <= k < 12 - |c.temperature| ensures row[k] == ' ' {
      assert row[k] == row[8..12][k - 8];
    }
    forall k | 16 <= k < 20 - |c.rain| ensures row[k] == ' ' {
      assert row[k] == row[16..20][k - 16];
    }
  }

  // ---------------------------------------------------------------------
  // The report's message
  // ---------------------------------------------------------------------

  /** The current paragraph of a report, with the texts it is made of. */
  lemma ReportCurrentMentions(cw: CurrentWeather, showF32: F32 -> string)
    ensures OccursAt(ReportCurrent(cw, showF32), CurrentTitle, 0)
    ensures Contains(ReportCurrent(cw, showF32), cw.description)
    ensures Contains(ReportCurrent(cw, showF32), IntToDecimal(cw.temperature.celsius) + "°C")
  {
    CurrentMentions(
      cw.description, IntToDecimal(cw.temperature.celsius), IntToDecimal(cw.temperature.feelsLike),
      IntToDecimal(cw.humidity), IntToDecimal(cw.wind.speedKmh), cw.wind.direction,
      showF32(cw.precipitationMm), IntToDecimal(cw.uvIndex), IntToDecimal(cw.pressureHpa),
      IntToDecimal(cw.visibilityKm));
  }

  lemma ReportDayMentions(d: DailyForecast)
    ensures OccursAt(ReportDay(d), DayTitle, 0)
    ensures Contains(ReportDay(d), d.astronomy.sunrise)
    ensures Contains(ReportDay(d), d.astronomy.sunset)
    ensures Contains(ReportDay(d), d.astronomy.moonPhase)
  {
    DayMentions(
      IntToDecimal(d.tempMin), IntToDecimal(d.tempMax), IntToDecimal(d.tempAvg),
      d.astronomy.sunrise, d.astronomy.sunset, d.astronomy.moonPhase);
  }

  /**
    Where each part of a message starts: the header at 0, then the current
    paragraph, the day paragraph, the table's top, the rows and the closing
    fence, back to back; the fence ends the message.
  */
  lemma MessageLayout(header: string, current: string, day: string, rows: seq<Cells>)
    returns (c: nat, d: nat, t: nat, r: nat, f: nat)
    ensures var m := Message(header, current, day, rows);
      && c == |header| && d == c + |current| && t == d + |day|
      && r == t + |TableTop()| && f == r + |TableRows(rows)| && |m| == f + |ClosingFence|
      && OccursAt(m, header, 0) && OccursAt(m, current, c) && OccursAt(m, day, d)
      && OccursAt(m, TableTop(), t) && OccursAt(m, TableRows(rows), r) && OccursAt(m, ClosingFence, f)
  {
    c, d, t := |header|, |header| + |current|, |header| + |current| + |day|;
    r := |Preamble(header, current, day)|;
    MessageSections(header, current, day, rows);
    MessageRows(header, current, day, rows);
    f := MessageEnd(header, current, day, rows);
  }

  /**
    The text of a report is its header, its current paragraph, its day
    paragraph, the table's top, one row per hourly entry and the closing
    fence, in this order and back to back; the fence ends the text.
  */
  lemma ReportLayout(report: WeatherReport, showF32: F32 -> string)
    returns (c: nat, d: nat, t: nat, r: nat, f: nat)
    ensures var m := ReportText(report, showF32);
      && OccursAt(m, HeaderLine(report.location, report.date), 0)
      && OccursAt(m, ReportCurrent(report.current, showF32), c)
      && OccursAt(m, ReportDay(report.daily), d)
      && OccursAt(m, TableTop(), t)
      && OccursAt(m, TableRows(ReportCells(report.hourly)), r)
      && OccursAt(m, ClosingFence, f)
      && c == |HeaderLine(report.location, report.date)|
      && d == c + |ReportCurrent(report.current, showF32)|
      && t == d + |ReportDay(report.daily)|
      && r == t + |TableTop()|
      && f == r + |TableRows(ReportCells(report.hourly))|
      && |m| == f + |ClosingFence|
  {
    c, d, t, r, f := MessageLayout(HeaderLine(report.location, report.date), ReportCurrent(report.current, showF32),
                                   ReportDay(report.daily), ReportCells(report.hourly));
  }

  /**
    The headings of a message whose header opens with the title and the
    location and whose paragraphs open with their titles.
  */
  lemma MessageHeadings(header: string, current: string, day: string, rows: seq<Cells>, location: string)
    returns (c: nat, d: nat, t: nat)
    requires OccursAt(header, "# :sunny: Météo ", 0) && OccursAt(header, location, |"# :sunny: Météo "|)
    requires OccursAt(current, CurrentTitle, 0) && OccursAt(day, DayTitle, 0)
    ensures var m := Message(header, current, day, rows);
      && OccursAt(m, "# :sunny: Météo ", 0)
      && OccursAt(m, location, |"# :sunny: Météo "|)
      && 0 < c < d < t
      && OccursAt(m, CurrentTitle, c) && OccursAt(m, DayTitle, d) && OccursAt(m, TableHeading, t)
  {
    var m := Message(header, current, day, rows);
    var r, f;
    c, d, t, r, f := MessageLayout(header, current, day, rows);
    OccursAtPartStart(m, header, 0, "# :sunny: Météo ");
    OccursInPrefix(m, header, location, |"# :sunny: Météo "|);
    OccursAtPartStart(m, current, c, CurrentTitle);
    OccursAtPartStart(m, day, d, DayTitle);
    TableTopLayout();
    OccursAtPartStart(m, TableTop(), t, TableHeading);
  }

  /**
    The text opens with the title and the location; the "Actuellement",
    "Journée" and "Prévisions horaires" headings follow in this order.
  */
  lemma ReportHeadings(report: WeatherReport, showF32: F32 -> string) returns (c: nat, d: nat, t: nat)
    ensures var m := ReportText(report, showF32);
      && OccursAt(m, "# :sunny: Météo ", 0)
      && OccursAt(m, report.location, |"# :sunny: Météo "|)
      && 0 < c < d < t
      && OccursAt(m, CurrentTitle, c) && OccursAt(m, DayTitle, d) && OccursAt(m, TableHeading, t)
  {
    HeaderMentions(report.location, report.date);
    ReportCurrentMentions(report.current, showF32);
    ReportDayMentions(report.daily);
    c, d, t := MessageHeadings(HeaderLine(report.location, report.date), ReportCurrent(report.current, showF32),
                               ReportDay(report.daily), ReportCells(report.hourly), report.location);
  }

  /** The table's top in any message: heading, column header, separator, then the rows. */
  lemma MessageTableTop(header: string, current: string, day: string, rows: seq<Cells>)
    returns (t: nat, s: nat, r: nat)
    ensures var m := Message(header, current, day, rows);
      && OccursAt(m, TableHeading, t)
      && OccursAt(m, ColumnTitles, t + |TableHeading|)
      && OccursAt(m, Separator(), s) && s == t + |TableHeading| + |ColumnTitles|
      && OccursAt(m, TableRows(rows), r) && r == s + |Separator()|
  {
    var m := Message(header, current, day, rows);
    var c, d, f;
    c, d, t, r, f := MessageLayout(header, current, day, rows);
    TableTopLayout();
    ColumnHeaderText();
    OccursAtPartStart(m, TableTop(), t, TableHeading);
    OccursWithin(m, TableTop(), t, ColumnTitles, |TableHeading|);
    s := t + |TableHeading| + |ColumnTitles|;
    OccursWithinAt(m, TableTop(), t, Separator(), |TableHeading| + |ColumnHeader()|, s);
  }

  /**
    The table's heading is followed by the column header, whose text never
    changes, and by the separator of fifty dashes, which the rows follow.
  */
  lemma ReportTableTop(report: WeatherReport, showF32: F32 -> string) returns (t: nat, s: nat, r: nat)
    ensures var m := ReportText(report, showF32);
      && OccursAt(m, TableHeading, t)
      && OccursAt(m, ColumnTitles, t + |TableHeading|)
      && OccursAt(m, Separator(), s) && s == t + |TableHeading| + |ColumnTitles|
      && OccursAt(m, TableRows(ReportCells(report.hourly)), r) && r == s + |Separator()|
  {
    t, s, r := MessageTableTop(HeaderLine(report.location, report.date), ReportCurrent(report.current, showF32),
                               ReportDay(report.daily), ReportCells(report.hourly));
  }

  /** What one of its first three parts shows, a message shows. */
  lemma MessageShows(header: string, current: string, day: string, rows: seq<Cells>, sub: string)
    requires Contains(header, sub) || Contains(current, sub) || Contains(day, sub)
    ensures Contains(Message(header, current, day, rows), sub)
  {
    var m := Message(header, current, day, rows);
    var c, d, t, r, f := MessageLayout(header, current, day, rows);
    if Contains(header, sub) {
      ContainsWithin(m, header, 0, sub);
    } else if Contains(current, sub) {
      ContainsWithin(m, current, c, sub);
    } else {
      ContainsWithin(m, day, d, sub);
    }
  }

  /**
    The text shows the location, the current temperature in degrees
    Celsius, the current description and the times of sunrise and sunset.
  */
  lemma ReportMentions(report: WeatherReport, showF32: F32 -> string)
    ensures var m := ReportText(report, showF32);
      && Contains(m, report.location)
      && Contains(m, IntToDecimal(report.current.temperature.celsius) + "°C")
      && Contains(m, report.current.description)
      && Contains(m, report.daily.astronomy.sunrise)
      && Contains(m, report.daily.astronomy.sunset)
  {
    var h, c, d, rows := HeaderLine(report.location, report.date), ReportCurrent(report.current, showF32),
                         ReportDay(report.daily), ReportCells(report.hourly);
    HeaderMentions(report.location, report.date);
    ReportCurrentMentions(report.current, showF32);
    ReportDayMentions(report.daily);
    MessageShows(h, c, d, rows, report.location);
    MessageShows(h, c, d, rows, IntToDecimal(report.current.temperature.celsius) + "°C");
    MessageShows(h, c, d, rows, report.current.description);
    MessageShows(h, c, d, rows, report.daily.astronomy.sunrise);
    MessageShows(h, c, d, rows, report.daily.astronomy.sunset);
  }

  /** A row shows its description, whatever the width of its other texts. */
  lemma TableRowShowsDescription(c: Cells)
    ensures Contains(TableRow(c), c.description)
  {
    var front := PadRight(c.hour, 7) + " " + PadLeft(c.temperature, 4) + "°C  " + PadLeft(c.rain, 4) + "%   ";
    assert TableRow(c) == front + c.description + "\n";
    OccursInConcat(front, c.description, "\n");
  }

  /** A message shows the description of each of its rows. */
  lemma MessageShowsDescription(header: string, current: string, day: string, rows: seq<Cells>, i: nat)
    requires i < |rows|
    ensures Contains(Message(header, current, day, rows), rows[i].description)
  {
    var r, p := MessageRowAt(header, current, day, rows, i);
    TableRowShowsDescription(rows[i]);
    ContainsWithin(Message(header, current, day, rows), TableRow(rows[i]), p, rows[i].description);
  }

  /**
    The text of a report shows the description of every hourly entry,
    including one whose hour label is wider than its column.
  */
  lemma ReportShowsDescription(report: WeatherReport, showF32: F32 -> string, i: nat)
    requires i < |report.hourly|
    ensures Contains(ReportText(report, showF32), report.hourly[i].description)
  {
    MessageShowsDescription(HeaderLine(report.location, report.date), ReportCurrent(report.current, showF32),
                            ReportDay(report.daily), ReportCells(report.hourly), i);
  }

  lemma ReportShowsDescriptions(report: WeatherReport, showF32: F32 -> string)
    ensures forall i :: 0 <= i < |report.hourly| ==>
      Contains(ReportText(report, showF32), report.hourly[i].description)
  {
    forall i | 0 <= i < |report.hourly|
      ensures Contains(ReportText(report, showF32), report.hourly[i].description)
    {
      ReportShowsDescription(report, showF32, i);
    }
  }

  /** Row `i` of a table starts after the rows before it. */
  lemma TableRowPosition(cs: seq<Cells>, i: nat) returns (p: nat)
    requires i < |cs|
    ensures OccursAt(TableRows(cs), TableRow(cs[i]), p) && p == |TableRows(cs[..i])|
  {
    TableRowsAt(cs, i);
    ThreePartsLayout(TableRows(cs[..i]), TableRow(cs[i]), TableRows(cs[i + 1..]));
    p := |TableRows(cs[..i])|;
  }

  /** A row that comes later in the table starts after an earlier one ends. */
  lemma TableRowsGrow(cs: seq<Cells>, i: nat, j: nat)
    requires i < j <= |cs|
    ensures |TableRows(cs[..i])| + |TableRow(cs[i])| <= |TableRows(cs[..j])|
  {
    var upTo := cs[..j];
    assert upTo[..i] == cs[..i] && upTo[i] == cs[i];
    TableRowsAt(upTo, i);
  }

  /** Row `i` of any message starts after the rows before it. */
  lemma MessageRowAt(header: string, current: string, day: string, rows: seq<Cells>, i: nat) returns (r: nat, p: nat)
    requires i < |rows|
    ensures var m := Message(header, current, day, rows);
      && OccursAt(m, TableRows(rows), r) && r == |Preamble(header, current, day)|
      && OccursAt(m, TableRow(rows[i]), p)
      && p == r + |TableRows(rows[..i])|
  {
    var m := Message(header, current, day, rows);
    var c, d, t, f;
    c, d, t, r, f := MessageLayout(header, current, day, rows);
    var q := TableRowPosition(rows, i);
    p := r + q;
    OccursWithinAt(m, TableRows(rows), r, TableRow(rows[i]), q, p);
  }

  /**
    Each hourly entry has its own row: the row of entry `i` starts after
    the rows of the entries before it.
  */
  lemma ReportRowAt(report: WeatherReport, showF32: F32 -> string, i: nat) returns (r: nat, p: nat)
    requires i < |report.hourly|
    ensures |ReportCells(report.hourly)| == |report.hourly|
    ensures OccursAt(ReportText(report, showF32), TableRows(ReportCells(report.hourly)), r)
    ensures OccursAt(ReportText(report, showF32), TableRow(ReportCells(report.hourly)[i]), p)
    ensures p == r + |TableRows(ReportCells(report.hourly)[..i])|
  {
    r, p := MessageRowAt(HeaderLine(report.location, report.date), ReportCurrent(report.current, showF32),
                         ReportDay(report.daily), ReportCells(report.hourly), i);
  }

  /** In any message, a later row starts after an earlier one ends. */
  lemma MessageRowsInOrder(header: string, current: string, day: string, rows: seq<Cells>, i: nat, j: nat)
    returns (p: nat, q: nat)
    requires i < j < |rows|
    ensures var m := Message(header, current, day, rows);
      && OccursAt(m, TableRow(rows[i]), p)
      && OccursAt(m, TableRow(rows[j]), q)
      && p + |TableRow(rows[i])| <= q
  {
    var r, r';
    r, p := MessageRowAt(header, current, day, rows, i);
    r', q := MessageRowAt(header, current, day, rows, j);
    TableRowsGrow(rows, i, j);
  }

  /** The rows of the hourly entries come in the order of the entries. */
  lemma ReportRowsInOrder(report: WeatherReport, showF32: F32 -> string, i: nat, j: nat) returns (p: nat, q: nat)
    requires i < j < |report.hourly|
    ensures var m := ReportText(report, showF32);
      && OccursAt(m, TableRow(HourCells(report.hourly[i])), p)
      && OccursAt(m, TableRow(HourCells(report.hourly[j])), q)
      && p + |TableRow(HourCells(report.hourly[i]))| <= q
  {
    p, q := MessageRowsInOrder(HeaderLine(report.location, report.date), ReportCurrent(report.current, showF32),
                               ReportDay(report.daily), ReportCells(report.hourly), i, j);
  }

  /** An hourly entry whose hour and description hold no line break. */
  predicate SingleLineEntry(h: HourlyForecast) {
    CountChar(h.hour, '\n') == 0 && CountChar(h.description, '\n') == 0
  }

  /**
    One line per entry: when no hour or description holds a line break,
    the rows hold exactly one line break per hourly entry, each row ending
    with it.
  */
  lemma ReportRowLines(report: WeatherReport)
    requires forall i :: 0 <= i < |report.hourly| ==> SingleLineEntry(report.hourly[i])
    ensures CountChar(TableRows(ReportCells(report.hourly)), '\n') == |report.hourly|
    ensures forall i :: 0 <= i < |report.hourly| ==>
      var row := TableRow(HourCells(report.hourly[i])); row[|row| - 1] == '\n'
  {
    var cs := ReportCells(report.hourly);
    forall i | 0 <= i < |cs| ensures OneLine(cs[i]) {
      DecimalHasNoLineBreak(report.hourly[i].temperature);
      DecimalHasNoLineBreak(report.hourly[i].chanceOfRain);
    }
    TableRowsLineBreaks(cs);
    forall i | 0 <= i < |report.hourly|
      ensures var row := TableRow(HourCells(report.hourly[i])); row[|row| - 1] == '\n'
    {
      TableRowLineBreaks(HourCells(report.hourly[i]));
    }
  }

  /**
    The columns of the row of an entry whose hour fits in 7 chars: the
    numbers of an entry always fit their 4-char columns.
  */
  lemma ReportRowColumns(h: HourlyForecast)
    requires |h.hour| <= 7
    ensures var row, temp, rain := TableRow(HourCells(h)), IntToDecimal(h.temperature), IntToDecimal(h.chanceOfRain);
      && |row| == 25 + |h.description|
      && row[..|h.hour|] == h.hour
      && (forall k :: |h.hour| <= k < 8 ==> row[k] == ' ')
      && (forall k :: 8 <= k < 12 - |temp| ==> row[k] == ' ')
      && row[12 - |temp|..12] == temp
      && row[12..16] == "°C  "
      && (forall k :: 16 <= k < 20 - |rain| ==> row[k] == ' ')
      && row[20 - |rain|..20] == rain
      && row[20..24] == "%   "
      && row[24..] == h.description + "\n"
  {
    I8DecimalFits(h.temperature);
    U8DecimalFits(h.chanceOfRain);
    TableRowColumns(HourCells(h));
  }

  /**
    The report of the formatter's own example: Cenon on 26 January 2026,
    with light drizzle at 10°C and two hourly entries.
  */
  function SampleReport(): WeatherReport {
    WeatherReport(
      "Cenon", "2026-01-26",
      CurrentWeather("Light drizzle", Temperature(10, 7), 87, Wind(20, "SSE"), ZeroF32, 0, 998, 10),
      DailyForecast(7, 12, 9, Astronomy("08:28 AM", "06:02 PM", "First Quarter")),
      [HourlyForecast("00:00", 7, 100, "Patchy rain nearby"),
       HourlyForecast("12:00", 10, 77, "Patchy rain nearby")])
  }

  /**
    The example's text shows "Cenon", "10°C", "Light drizzle" and
    "08:28 AM", as does that of any report with the same location, current
    temperature, description and sunrise.
  */
  lemma SampleReportMentions(report: WeatherReport, showF32: F32 -> string)
    requires report.location == SampleReport().location
    requires report.current.temperature.celsius == SampleReport().current.temperature.celsius
    requires report.current.description == SampleReport().current.description
    requires report.daily.astronomy.sunrise == SampleReport().daily.astronomy.sunrise
    ensures var m := ReportText(report, showF32);
      && Contains(m, "Cenon") && Contains(m, "10°C") && Contains(m, "Light drizzle") && Contains(m, "08:28 AM")
  {
    assert IntToDecimal(10) + "°C" == "10°C" by {
      NatToDecimalAppend(1, 0);
    }
    ReportMentions(report, showF32);
  }

  /** The text of the example report itself. */
  lemma SampleReportText(showF32: F32 -> string)
    ensures var m := ReportText(SampleReport(), showF32);
      && Contains(m, "Cenon") && Contains(m, "10°C") && Contains(m, "Light drizzle") && Contains(m, "08:28 AM")
  {
    SampleReportMentions(SampleReport(), showF32);
  }
}
