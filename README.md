# weather-lambda: the report pipeline in Dafny

This project models how weather-lambda turns the wttr.in `format=j1`
response into the Discord message it posts. It covers the two routes the
repository has:

- the layered route:
  - `to_domain` and `parse_hourly` (src/infrastructure/weather_api.rs) build a typed `WeatherReport` (src/domain/weather.rs) from the provider's text;
  - `format_weather_report` (src/presentation/formatter.rs) renders that report.
- the direct route: `format_weather` (src/event_handler.rs) renders the provider's text straight away, for the fixed location "Cenon".

Modules, one per concern:

| file | module | models |
|---|---|---|
| wrappers.dfy | `Wrappers` | `Option`, `Result`, and a fallible map over a list |
| rust_text.dfy | `RustText` | the Rust standard-library text behaviour the source relies on: `str::trim`, `str::parse` for `i8`/`u8`/`u16`, `Display` for integers, `{:<n}`/`{:>n}` padding, `str::repeat`, `str::contains` |
| domain.dfy | `Domain` | the domain records, with `i8`/`u8`/`u16` as range-bounded integers |
| provider.dfy | `Provider` | the decoded provider records. Both source files declare them identically, so they are written once here |
| weather_api.dfy | `WeatherApi` | `to_domain`, `parse_hourly` and the hour table |
| formatter.dfy | `Formatter` | `format_weather_report`, as methods with its loop, proved against a function giving the whole text |
| formatter_layout.dfy | `FormatterLayout` | what that text looks like: sections, headings, the column header `Heure    Temp   Pluie  Conditions`, rows with the hour left-aligned in 7 chars (`{:<7}` pads on the right) and the temperature and rain right-aligned in 4 (`{:>4}` pads on the left), and line breaks |
| event_handler.dfy | `EventHandler` | `format_weather`, as methods with its loop, and how it compares with the layered route |

## How the model differs from the code

- **Empty lists.** The source indexes the first element of each provider list with `[0]`, which panics when the list is empty.
  - The model returns `Failure` instead, naming the first such list in the order the source reads them (`Provider.FirstGap`).
  - The model never gives a report or message where the source would panic.
- **Hourly first element.**
  - The hourly list is mapped in full, and an empty hourly list is valid.
  - Only each entry's `weatherDesc` list is read at 0.

## Model

| member | source | states |
|---|---|---|
| Wrappers.MapAll | src/infrastructure/weather_api.rs:69 | mapping a fallible conversion over a list succeeds exactly when every element succeeds; the result then has the same length and element i is the conversion of element i; on failure it carries the error of the first element that failed, every element before it having succeeded |
| RustText.Trim | src/infrastructure/weather_api.rs:44 | `trim` never lengthens its text, and its result neither starts nor ends with whitespace |
| RustText.TrimSlice | src/infrastructure/weather_api.rs:44 | `trim` removes exactly the leading and trailing whitespace: what it drops on either side is all whitespace, and what it keeps is the contiguous middle of the input |
| RustText.TrimUnique | src/infrastructure/weather_api.rs:44 | any middle part surrounded only by whitespace that has no whitespace at its own ends is the result of `trim` |
| RustText.TrimIdempotent | src/infrastructure/weather_api.rs:44 | trimming twice gives the same as trimming once |
| RustText.TrimKeepsTrimmed | src/event_handler.rs:124 | text without surrounding whitespace is unchanged by `trim` |
| RustText.NatToDecimal | src/presentation/formatter.rs:21 | the decimal text of a natural number is a non-empty run of digits, with no leading zero unless the number is 0, whose value is the number |
| RustText.IntToDecimal | src/presentation/formatter.rs:21 | `Display` of an integer: the text starts with '-' exactly when the number is negative; the digits after any sign have the number's absolute value as their value, with no leading zero unless the number is 0 |
| RustText.NatToDecimalAppend | src/presentation/formatter.rs:21 | the decimal text of `10 * n + d` is that of `n` followed by the digit `d` |
| RustText.NatToDecimalLength | src/presentation/formatter.rs:56 | a number below 10^k has at most k digits |
| RustText.I8DecimalFits | src/presentation/formatter.rs:56 | any `i8` displays in at most 4 chars, so it fills its 4-wide temperature column without overflow |
| RustText.U8DecimalFits | src/presentation/formatter.rs:56 | any `u8` displays in at most 3 chars |
| RustText.ParseInt | src/infrastructure/weather_api.rs:46 | `str::parse` for an integer type accepts only an optional sign ('+', or '-' for signed types) followed by at least one digit, and only values in the type's range; the value is that of the digits, negated after '-'; conversely every such text with an in-range value parses to it |
| RustText.IsWhitespace | src/infrastructure/weather_api.rs:44 | the chars `trim` removes: the Unicode White_Space set (definition; no contract) |
| RustText.ParseOrZero | src/infrastructure/weather_api.rs:46 | `parse().unwrap_or(0)`: the parsed value when the text parses, 0 when it does not; always within the type's range |
| RustText.ParseDecimal | src/infrastructure/weather_api.rs:46-62 | parsing the decimal text of an in-range number gives that number back |
| RustText.ParseDecimalOutOfRange | src/infrastructure/weather_api.rs:46-62 | the decimal text of an out-of-range number does not parse |
| RustText.ParseRejectsLoneSign | src/infrastructure/weather_api.rs:46-62 | a lone '+' or '-' does not parse |
| RustText.ParseRejectsWhitespace | src/infrastructure/weather_api.rs:46-62 | text holding any whitespace does not parse, since `parse` does not trim |
| RustText.CanonicalOfDecimal | src/infrastructure/weather_api.rs:46-62 | the decimal text of every in-range number is canonical: it parses to a value whose display is that text |
| RustText.ParseOrZeroDisplay | src/infrastructure/weather_api.rs:46-62 | displaying the lenient parse of canonical text gives the text back; for text that does not parse, it gives "0" |
| RustText.PadRight | src/presentation/formatter.rs:56 | `{:<w}`: spaces after the text up to w chars (definition; its shape is stated by PadRightShape) |
| RustText.PadLeft | src/presentation/formatter.rs:56 | `{:>w}`: spaces before the text up to w chars (definition; its shape is stated by PadLeftShape) |
| RustText.PadRightShape | src/presentation/formatter.rs:56 | `{:<w}` keeps the text at the start and fills up to w chars with spaces after it; it never truncates |
| RustText.PadLeftShape | src/presentation/formatter.rs:56 | `{:>w}` fills up to w chars with spaces before the text, which ends the result; it never truncates |
| Provider.FirstGap | src/event_handler.rs:111-113 | the first empty list, in the order the source reads them, is absent exactly when every list read at 0 is non-empty |
| WeatherApi.ParseI8 | src/infrastructure/weather_api.rs:46 | `parse::<i8>().unwrap_or(0)`: the lenient reading of the text in -128..=127: the parsed value, which prints back as the text when that is canonical, and 0 when the text does not parse |
| WeatherApi.ParseU8 | src/infrastructure/weather_api.rs:49 | `parse::<u8>().unwrap_or(0)`: the lenient reading of the text in 0..=255 |
| WeatherApi.ParseU16 | src/infrastructure/weather_api.rs:51 | `parse::<u16>().unwrap_or(0)`: the lenient reading of the text in 0..=65535 |
| WeatherApi.HourLabel | src/infrastructure/weather_api.rs:74-83 | the hour table, shared with src/event_handler.rs:156-166: a label is either the code unchanged or two digits followed by ":00"; HourLabelOfThreeHourCode and HourLabelPassesThrough say which |
| WeatherApi.TwoDigits | src/infrastructure/weather_api.rs:74-83 | the zero-padded two-digit text of a number below 100 |
| WeatherApi.HourLabelTable | src/infrastructure/weather_api.rs:75-82 | the eight codes "0" … "2100" become "00:00" … "21:00" |
| WeatherApi.HourLabelOutsideTable | src/infrastructure/weather_api.rs:83 | every other code passes through unchanged |
| WeatherApi.ThreeHourCodeCases | src/infrastructure/weather_api.rs:74-83 | the table's codes are exactly the canonical decimal texts of the multiples of 300 from 0 to 2100 |
| WeatherApi.ThreeHourCodeOf | src/infrastructure/weather_api.rs:74-83 | the decimal text of every multiple of 300 from 0 to 2100 is one of the table's codes |
| WeatherApi.ThreeHourCodeInTable | src/infrastructure/weather_api.rs:74-83 | each such code is one of the eight written in the table |
| WeatherApi.HourLabelOfThreeHourCode | src/infrastructure/weather_api.rs:74-83 | the code of the value v is labelled with v / 100 as two digits, then ":00" |
| WeatherApi.HourLabelPassesThrough | src/infrastructure/weather_api.rs:83 | a code that is not a three-hour code is left as it is |
| WeatherApi.TableCodeDecimals | src/infrastructure/weather_api.rs:75-82 | the codes of the table are the decimal texts of 0, 300, …, 2100 |
| WeatherApi.TableHours | src/infrastructure/weather_api.rs:75-82 | the hours of the table's labels are the two-digit texts of 0, 3, …, 21 |
| WeatherApi.ThreeHourValues | src/infrastructure/weather_api.rs:74-83 | the multiples of 300 from 0 to 2100 are the eight values of the table |
| WeatherApi.ParseHourly | src/infrastructure/weather_api.rs:73-92 | `parse_hourly` fails exactly on an entry with no description; otherwise the hour is the table's label for the time, the temperature and the chance of rain are the lenient readings of their texts as `i8` and `u8`, and the description is the first description trimmed |
| WeatherApi.ParseAllHourly | src/infrastructure/weather_api.rs:69 | the hourly list converts exactly when every entry has a description; it then keeps the length and the order, entry i coming from `parse_hourly` of entry i |
| WeatherApi.ToDomain | src/infrastructure/weather_api.rs:35-71 | `to_domain` succeeds exactly on a response with every list read at 0 non-empty, and otherwise fails on the first empty one; the report keeps the location given, the first day's date and the hourly entries one for one |
| WeatherApi.LenientParseExamples | src/infrastructure/weather_api.rs:46-62 | "+7" reads as 7 and "-0" as 0; the empty text, text with a space, a minus sign on an unsigned field, and "128" for an `i8` all read as 0 |
| WeatherApi.NumericFieldOfDecimal | src/infrastructure/weather_api.rs:46-62 | for each integer type, the decimal text of an in-range value reads as that value, and an out-of-range one as 0 |
| WeatherApi.ParseHourlyFirstOnly | src/infrastructure/weather_api.rs:90 | `parse_hourly` reads only the first description of an entry |
| WeatherApi.ParseAllHourlyAlike | src/infrastructure/weather_api.rs:69 | lists whose entries convert alike convert alike as a whole |
| WeatherApi.ToDomainReadsFirstsOnly | src/infrastructure/weather_api.rs:36-38 | `to_domain` reads only element 0 of each list it indexes: cutting every such list down to its first element changes nothing |
| WeatherApi.ToDomainTextFields | src/infrastructure/weather_api.rs:41-69 | location, date and wind direction are copied as they are; the current description, sunrise, sunset, moon phase and hourly descriptions are trimmed; each hour is the table's label for the entry's time |
| WeatherApi.ToDomainNumbers | src/infrastructure/weather_api.rs:46-62 | each of the ten integer fields (temperature, feels-like, humidity, wind speed, UV index, pressure, visibility, minimum, maximum, average) is the lenient reading of its text in the field's type: the parsed value, the text again when that is canonical, 0 when it does not parse; the precipitation is the lenient float read of its text |
| WeatherApi.ToDomainHourlyNumbers | src/infrastructure/weather_api.rs:88-89 | every hourly entry's temperature and chance of rain are the lenient readings of their texts as `i8` and `u8` |
| Formatter.HeaderLine | src/presentation/formatter.rs:8-11 | the title line with the location and the date (definition; HeaderMentions states what it shows) |
| Formatter.CurrentParagraph | src/presentation/formatter.rs:15-30 | the "Actuellement" paragraph of already-displayed texts (definition; CurrentMentions states what it shows) |
| Formatter.DayParagraph | src/presentation/formatter.rs:34-44 | the "Journée" paragraph (definition; DayMentions states what it shows) |
| Formatter.ColumnHeader | src/presentation/formatter.rs:48-51 | the padded column titles (definition; ColumnHeaderText states its text) |
| Formatter.Separator | src/presentation/formatter.rs:52 | fifty dashes and a line break (definition; SeparatorLine states it) |
| Formatter.TableRow | src/presentation/formatter.rs:56 | one padded row (definition; TableRowColumns and TableRowLineBreaks state its columns and line break) |
| Formatter.TableRows | src/presentation/formatter.rs:54-59 | the rows of the entries in order (definition; TableRowsAppend, TableRowsAt and TableRowPosition state how they join) |
| Formatter.Message | src/presentation/formatter.rs:4-63 | header, paragraphs, table top, rows and closing fence (definition; MessageLayout states the layout) |
| Formatter.ReportText | src/presentation/formatter.rs:4-63 | the message of a report (definition; FormatWeatherReport is proved to produce it, ReportLayout and ReportMentions state its content) |
| Formatter.ReportCurrent | src/presentation/formatter.rs:20-29 | which report field fills each slot of the "Actuellement" paragraph, integers by `Display` and the precipitation by the float display (definition; ReportCurrentMentions states what it shows) |
| Formatter.ReportDay | src/presentation/formatter.rs:38-43 | which report field fills each slot of the "Journée" paragraph (definition; ReportDayMentions states what it shows) |
| Formatter.HourCells | src/presentation/formatter.rs:57 | the four texts of an entry's row: the hour, the temperature and the chance of rain by `Display`, the description (definition; ReportRowColumns and ReportShowsDescription state where they appear) |
| Formatter.WriteSections | src/presentation/formatter.rs:5-52 | the header, the two paragraphs and the table's top, pushed in that order onto an empty message |
| Formatter.PushRows | src/presentation/formatter.rs:54-59 | the loop appends to the message built so far the rows of all hourly entries, in order |
| Formatter.FormatWeatherReport | src/presentation/formatter.rs:4-63 | `format_weather_report` produces exactly the message text defined for the report, for every report, an empty hourly list included |
| FormatterLayout.PadRightHeure | src/presentation/formatter.rs:49-50 | "Heure" padded to 7 chars |
| FormatterLayout.PadLeftTemp | src/presentation/formatter.rs:49-50 | "Temp" right-aligned in 5 chars |
| FormatterLayout.PadLeftPluie | src/presentation/formatter.rs:49-50 | "Pluie" right-aligned in 6 chars |
| FormatterLayout.ColumnHeaderText | src/presentation/formatter.rs:48-51 | the column header is always the text `Heure    Temp   Pluie  Conditions` and a line break |
| FormatterLayout.SeparatorLine | src/presentation/formatter.rs:52 | the separator is fifty dashes and a line break |
| FormatterLayout.TableTopLayout | src/presentation/formatter.rs:47-52 | the table's top is the heading that opens the code block, then the column header, then the separator |
| FormatterLayout.HeaderMentions | src/presentation/formatter.rs:8-11 | the header opens with the title, then shows the location and, after a dash, the date |
| FormatterLayout.SummaryMentions | src/presentation/formatter.rs:17 | the summary line shows the description in bold and then the temperature followed by "°C" |
| FormatterLayout.CurrentMentions | src/presentation/formatter.rs:15-30 | the current paragraph opens with "## Actuellement" and shows the description and the temperature followed by "°C" |
| FormatterLayout.SkyMentions | src/presentation/formatter.rs:37 | the sky line shows the sunrise, the sunset and the moon phase |
| FormatterLayout.DayMentions | src/presentation/formatter.rs:34-44 | the day paragraph opens with "## Journée" and shows the sunrise, the sunset and the moon phase |
| FormatterLayout.MessageSections | src/presentation/formatter.rs:5-52 | the header, the paragraphs and the table's top sit back to back from the start of the message |
| FormatterLayout.MessageRows | src/presentation/formatter.rs:54-59 | the rows follow the table's top |
| FormatterLayout.MessageEnd | src/presentation/formatter.rs:61 | the closing fence comes right after the rows and ends the message |
| FormatterLayout.TableRowsAppend | src/presentation/formatter.rs:54-59 | the rows of two lists of entries, one after the other, are the rows of the joined list |
| FormatterLayout.TableRowsAt | src/presentation/formatter.rs:54-59 | the rows are the rows before entry i, then the row of entry i, then the rows after it |
| FormatterLayout.TableRowLineBreaks | src/presentation/formatter.rs:56 | every row ends with a line break and adds exactly one to those of its texts |
| FormatterLayout.TableRowsLineBreaks | src/presentation/formatter.rs:54-59 | rows whose texts hold no line break hold exactly one line break per entry |
| FormatterLayout.RowParts | src/presentation/formatter.rs:56 | where each part of a row with full-width columns sits |
| FormatterLayout.TableRowColumns | src/presentation/formatter.rs:56 | the columns of a row whose texts fit: the hour from char 0, the temperature ending at char 12 before "°C  ", the rain ending at char 20 before "%   ", the description from char 24 |
| FormatterLayout.ReportCurrentMentions | src/presentation/formatter.rs:15-30 | a report's current paragraph opens with its title and shows the description and the temperature in °C |
| FormatterLayout.ReportDayMentions | src/presentation/formatter.rs:34-44 | a report's day paragraph opens with its title and shows the sunrise, the sunset and the moon phase |
| FormatterLayout.MessageLayout | src/presentation/formatter.rs:4-63 | a message is its header, current paragraph, day paragraph, table top, rows and closing fence, back to back, and the fence ends it |
| FormatterLayout.ReportLayout | src/presentation/formatter.rs:4-63 | the same for the message of a report |
| FormatterLayout.MessageHeadings | src/presentation/formatter.rs:8-47 | the title and the location open the message, and the "Actuellement", "Journée" and "Prévisions horaires" headings follow in this order |
| FormatterLayout.ReportHeadings | src/presentation/formatter.rs:8-47 | the same for the message of a report |
| FormatterLayout.MessageTableTop | src/presentation/formatter.rs:47-54 | the heading is followed by the fixed column header, the fifty-dash separator and then the rows |
| FormatterLayout.ReportTableTop | src/presentation/formatter.rs:47-54 | the same for the message of a report |
| FormatterLayout.MessageShows | src/presentation/formatter.rs:8-44 | whatever the header or a paragraph shows, the message shows |
| FormatterLayout.ReportMentions | src/presentation/formatter.rs:8-44 | the message shows the location, the current temperature followed by "°C", the description, the sunrise and the sunset |
| FormatterLayout.TableRowShowsDescription | src/presentation/formatter.rs:56-57 | a row shows its description, whatever the width of its other texts |
| FormatterLayout.MessageShowsDescription | src/presentation/formatter.rs:54-59 | a message shows the description of each of its rows |
| FormatterLayout.ReportShowsDescription | src/presentation/formatter.rs:54-59 | the text of a report shows the description of hourly entry i, for every i, an hour label wider than its column included |
| FormatterLayout.ReportShowsDescriptions | src/presentation/formatter.rs:54-59 | the text of a report shows the descriptions of all its hourly entries |
| FormatterLayout.TableRowPosition | src/presentation/formatter.rs:54-59 | the row of entry i starts right after the rows of the entries before it |
| FormatterLayout.TableRowsGrow | src/presentation/formatter.rs:54-59 | the rows before a later entry include all of an earlier entry's row |
| FormatterLayout.MessageRowAt | src/presentation/formatter.rs:54-59 | in the message, the row of entry i starts after the preamble and after the rows of the entries before it |
| FormatterLayout.ReportRowAt | src/presentation/formatter.rs:54-59 | each hourly entry of a report has its row in the message, after the rows of the entries before it |
| FormatterLayout.MessageRowsInOrder | src/presentation/formatter.rs:54-59 | a later entry's row starts after an earlier entry's row ends |
| FormatterLayout.ReportRowsInOrder | src/presentation/formatter.rs:54-59 | the rows of a report come in the order of its hourly entries |
| FormatterLayout.ReportRowLines | src/presentation/formatter.rs:54-59 | when no hour or description holds a line break, the rows hold one line break per entry, each row ending with it |
| FormatterLayout.ReportRowColumns | src/presentation/formatter.rs:56 | the row of an entry whose hour fits in 7 chars has its fixed columns; the numbers always fit theirs |
| FormatterLayout.SampleReportMentions | src/presentation/formatter.rs:69-122 | the message of any report with the example's location, current temperature, description and sunrise shows "Cenon", "10°C", "Light drizzle" and "08:28 AM" |
| FormatterLayout.SampleReportText | src/presentation/formatter.rs:69-122 | the message of the example report itself shows them |
| EventHandler.RawCurrent | src/event_handler.rs:119-134 | the "Actuellement" paragraph from the provider's texts, description trimmed (definition; RawCurrentMentions states what it shows) |
| EventHandler.RawDay | src/event_handler.rs:136-146 | the "Journée" paragraph from the provider's texts, astronomy trimmed (definition; RawDayMentions states what it shows) |
| EventHandler.RawCells | src/event_handler.rs:155-175 | the texts of one row: the table's hour label, the temperature and rain as sent, the first description trimmed (definition; RowsAgree compares it with the layered row) |
| EventHandler.RawMessage | src/event_handler.rs:115-177 | the whole message of a complete response (definition; RawHeadings, RawTableTop and RawMentions state its content) |
| EventHandler.WeatherText | src/event_handler.rs:110-179 | `format_weather` gives a message exactly on a response with every list read at 0 non-empty, and otherwise fails on the first empty one |
| EventHandler.RawRowsStep | src/event_handler.rs:155-175 | appending the row of entry i extends the rows of the entries before it |
| EventHandler.WriteRawSections | src/event_handler.rs:115-153 | the header naming "Cenon", the two paragraphs and the table's top, pushed in that order onto an empty message |
| EventHandler.PushRawRows | src/event_handler.rs:155-175 | the loop appends the rows of all hourly entries in order, or stops at the first entry without a description |
| EventHandler.FormatWeather | src/event_handler.rs:110-179 | `format_weather` produces exactly the message text defined for the response, or the failure for its first empty list |
| EventHandler.RawHeadings | src/event_handler.rs:117-148 | the message opens with the title and "Cenon", and the three headings follow in order |
| EventHandler.RawTableTop | src/event_handler.rs:148-153 | the table's top is the same as the formatter's: heading, the fixed column header, fifty dashes, then the rows |
| EventHandler.RawRowsInOrder | src/event_handler.rs:155-175 | the rows come in the order of the hourly entries |
| EventHandler.RawCurrentMentions | src/event_handler.rs:119-134 | the current paragraph shows the temperature exactly as sent, followed by "°C", and the trimmed description |
| EventHandler.RawDayMentions | src/event_handler.rs:136-146 | the day paragraph shows the trimmed sunrise and the trimmed sunset |
| EventHandler.RawMentions | src/event_handler.rs:117-146 | the message shows "Cenon", the current temperature as sent followed by "°C", the trimmed description and the trimmed sunrise and sunset |
| EventHandler.RawShowsDescription | src/event_handler.rs:155-175 | the message shows the trimmed first description of hourly entry i, for every i |
| EventHandler.RawShowsDescriptions | src/event_handler.rs:155-175 | the message shows the trimmed first descriptions of all hourly entries |
| EventHandler.RawMessageShows | src/event_handler.rs:110-179 | for every complete response the message shows "Cenon", the trimmed sunrise and sunset, and the trimmed description of every hourly entry |
| EventHandler.SampleMentions | src/event_handler.rs:186-214 | the message of any complete response whose current temperature is sent as "10" and whose description and sunrise trim to "Light drizzle" and "08:28 AM" shows "Cenon", "10°C", "Light drizzle" and "08:28 AM" |
| EventHandler.SampleResponseComplete | src/event_handler.rs:186-214 | the example response has every list read at 0 non-empty |
| EventHandler.SampleResponseMentions | src/event_handler.rs:209-214 | the message of the example response itself shows "Cenon", "10°C", "Light drizzle" and "08:28 AM" |
| EventHandler.BuiltReportShows | src/infrastructure/weather_api.rs:35-92 | for every complete response, the text of `to_domain` followed by `format_weather_report` shows the location, the trimmed sunrise and sunset, and the trimmed description of every hourly entry |
| EventHandler.FailsLikeToDomain | src/event_handler.rs:111-113 | `format_weather` fails on exactly the responses `to_domain` fails on, naming the same list |
| EventHandler.ReadsFirstsOnly | src/event_handler.rs:111-113 | only element 0 of each list read at 0 matters: cutting those lists down to their first element changes nothing |
| EventHandler.CurrentAgrees | src/event_handler.rs:119-134 | on canonical numbers and a precipitation that reads back as sent, the two current paragraphs are equal |
| EventHandler.DayAgrees | src/event_handler.rs:136-146 | on canonical numbers, the two day paragraphs are equal |
| EventHandler.RowsAgree | src/event_handler.rs:155-175 | on canonical numbers, the two renderers give the same row texts |
| EventHandler.MatchesLayered | src/event_handler.rs:110-179 | on a complete response with canonical integer texts and a precipitation that reads back as sent, `format_weather` gives the same message as `to_domain` for "Cenon" followed by `format_weather_report` |

## Left out

- Fetching:
  - `WeatherApiClient::new`, `Default` and `fetch` (src/infrastructure/weather_api.rs:13-33 and 95-99) are not modelled, because they are HTTP I/O.
  - `fetch_and_notify` and `function_handler` (src/event_handler.rs:73-108) are not modelled either: HTTP I/O, environment variables and logging.
  - The model starts from a response that is already decoded.
- JSON decoding with serde, and the `rename` attributes: the records in `Provider` are the decoded values.
- `WeatherApiError` and its `Display`/`From` impls (src/infrastructure/weather_api.rs:101-120): they concern transport failures only.
- src/infrastructure/discord.rs, src/application/weather_service.rs, src/main.rs and src/infrastructure/mod.rs are not part of this model.
- `f32`:
  - precipitation is an opaque 32-bit value;
  - `parse::<f32>` is a parameter `parseF32`, and only its fall-back to `0.0` is modelled;
  - `Display` for `f32` is a parameter `showF32`.
  - WeatherApi.ParseF32OrZero and EventHandler.MatchesLayered therefore say nothing about how decimal text reads as a float or how a float is displayed.
- Panics: where the source panics on an empty list, the model returns a `Failure`; it does not model unwinding.
  - For an hourly entry, the rows pushed before the panic are discarded.
- WriteRawSections and PushRawRows: `format_weather` is one function in the source; the model splits it at the end of the table's top into two methods. Their order and contents are the source's.
- WriteSections and PushRows: the same split for `format_weather_report`.
- Text is a sequence of Unicode scalar values (`char`), as Rust's padding counts them; the UTF-8 byte encoding is not modelled.
