# Gregorian-to-Hijri API: a Dafny model of the request handler

The service is one PHP script, `hijri_converter_api.php`. It takes a JSON body
`{"date": "dd/mm/yyyy"}` and answers with the date in the Umm al-Qura Hijri
calendar in three formats (`numeric`, `long_arabic`, `full_arabic`), or with one
of three errors. This project models what the script decides itself:

- `DateFormat` — the `dd/mm/yyyy` validator of line 58, the PCRE pattern
  `^(0[1-9]|[12][0-9]|3[01])\/(0[1-9]|1[0-2])\/\d{4}$` as `preg_match` applies
  it (`MatchesExactly`, `PregMatch`). It is proved equal to an independent,
  numeric reading of the shape (`IsDayMonthYear`: day 1..31, month 1..12, four
  digits of year) and to the set of spellings `Spell(d, m, y)`. The spellings come
  with a digit/number round trip (`Digits`, `Number`, `NumberOfDigits`,
  `DigitsOfNumber`).
- `Hijri` — `gregorianToHijri` (lines 17-35). DateTime::createFromFormat and
  IntlDateFormatter belong to PHP and ICU, so a `Library` value stands for them.
  Its `parses(pattern, text)` says whether the parse succeeds. Its
  `render(config, date)` is the formatter's output. The model keeps the way the
  script wires them: the `d/m/Y` parse, null on failure, and a formatter with
  the locale plus `@calendar=islamic-umalqura`, the FULL/FULL styles, `UTC`, the
  TRADITIONAL calendar and the requested pattern.
- `Api` — the top-level script (lines 39-92) as a pure function
  `Handle(verb, date, lib, clock)`. It returns a `Reply`: the HTTP code plus the
  response object, or no body for the pre-flight. `date` is the `date` field of the
  decoded body (`None` when absent). `clock` holds the current-time readings
  that the three createFromFormat calls take for the time of day.

The regular expression's `$` has no `D` modifier, so it also matches just before
a final newline. The model keeps this: `"27/07/2025\n"` passes the validator
(`DateFormat.TrailingNewline`) and is then handed to the parse unchanged.

PHP's `empty` is true of `""` and also of `"0"`, so `{"date": "0"}` gets the
"No date provided" reply and not the format error (`Api.MissingDate`).

The handler never checks the second and third conversions for null. They parse
the same text as the first, checked, conversion, and whether that parse
succeeds does not depend on the clock. So they are never null on success
(`Api.SuccessPayload`).

One might expect the conversion to be a pure function of the date. In the code each
createFromFormat call fills the time of day from the clock, and the formatter
then works in UTC. So the Hijri strings may depend on when the calls run.
`Api.OutcomeIgnoresClock` proves that everything else in the reply does not.

## Model

| member | source | states |
|---|---|---|
| `DateFormat.MatchesExactly` | hijri_converter_api.php:58 | the anchored pattern, one conjunct per group of the regular expression; characterised by `PatternIsDayMonthYear` and `MatchesExactlyIffSpelled` |
| `DateFormat.PregMatch` | hijri_converter_api.php:58 | `preg_match` with the `$` quirk: a subject matches when the anchored pattern matches it or matches it without its final newline; characterised by `PregMatchShape` and `TrailingNewline` |
| `DateFormat.PatternIsDayMonthYear` | hijri_converter_api.php:58 | the pattern accepts a string exactly when it is 10 characters with `/` at positions 2 and 5, positions 0-1 a number 1..31, 3-4 a number 1..12 and 6-9 four ASCII digits |
| `DateFormat.SpelledDateMatches` | hijri_converter_api.php:58 | a zero-padded `dd/mm/yyyy` spelling is accepted exactly when the day is 1..31 and the month 1..12: day 00, days 32-99, month 00 and months 13-99 are rejected, every year 0000-9999 accepted |
| `DateFormat.MatchIsSpelled` | hijri_converter_api.php:58 | every accepted string is the spelling of its own day (1..31), month (1..12) and year (below 10000) |
| `DateFormat.MatchesExactlyIffSpelled` | hijri_converter_api.php:58 | the pattern accepts exactly the spellings of day 1..31 / month 1..12 / year 0..9999 |
| `DateFormat.PregMatchShape` | hijri_converter_api.php:58 | `preg_match` accepts exactly a valid `dd/mm/yyyy`, or one followed by a single final newline |
| `DateFormat.TrailingNewline` | hijri_converter_api.php:58 | a date plus `"\n"` is accepted exactly when the date is; a date plus two newlines never is |
| `DateFormat.SampleDates` | hijri_converter_api.php:58 | typical inputs: `27/07/2025`, `31/02/2025`, `01/01/0000` accepted; `2025-07-27`, `32/01/2025`, `01/13/2025`, single-digit fields, two- and five-digit years rejected |
| `Hijri.HijriFormatter` | hijri_converter_api.php:25-32 | the IntlDateFormatter arguments: the locale plus `@calendar=islamic-umalqura`, FULL date and time styles, `UTC`, the traditional calendar and the output pattern; characterised by `ConversionUsesUmmAlQura` |
| `Hijri.GregorianToHijri` | hijri_converter_api.php:17-35 | the conversion is null exactly when the text does not parse as `d/m/Y` |
| `Hijri.ConversionsFailTogether` | hijri_converter_api.php:19-23 | two conversions of one text fail or succeed together, whatever their format, locale and clock |
| `Hijri.ConversionUsesUmmAlQura` | hijri_converter_api.php:25-34 | a successful conversion is the output of a formatter with the locale plus `@calendar=islamic-umalqura`, FULL date and time styles, timezone `UTC`, the traditional calendar and the requested pattern, applied to the parsed date |
| `Api.IsPhpEmpty` | hijri_converter_api.php:54 | PHP's `empty` on a string: true of `""` and `"0"` only; used by `DateProvided` |
| `Api.DateProvided` | hijri_converter_api.php:54 | `isset && !empty` on the `date` field: present and not PHP-empty; characterised by `Outcomes` and `MissingDate` |
| `Api.Handle` | hijri_converter_api.php:39-92 | the code is 200 or 400; the body is empty exactly for OPTIONS; otherwise the status is `success` or `error`, code 200 exactly with `success`, `data` exactly with `success`, and `data.gregorian_date` is the given date |
| `Api.Outcomes` | hijri_converter_api.php:42-89 | each of the five replies fires exactly under its own condition, tested in order: OPTIONS, missing date, pattern mismatch, failed first conversion, success |
| `Api.PreflightIgnoresRequest` | hijri_converter_api.php:42-45 | OPTIONS gives 200 and an empty body whatever the date, the library and the clock |
| `Api.MethodAgnostic` | hijri_converter_api.php:42-54 | any two methods other than OPTIONS get the same reply |
| `Api.MissingDate` | hijri_converter_api.php:54-89 | an absent date, `""` and `"0"` all get 400 with the "No date provided" message, independent of the library |
| `Api.FormatMismatch` | hijri_converter_api.php:58-61 | a provided date the pattern rejects gets 400 with the format message, independent of the library and the clock |
| `Api.ConversionFailure` | hijri_converter_api.php:64-69 | a matching date whose `d/m/Y` parse fails gets 400 with the parse message and no `data` |
| `Api.SuccessPayload` | hijri_converter_api.php:71-81 | on success: code 200, the success message, `gregorian_date` the input unchanged, `numeric`, `long_arabic`, `full_arabic` the results of their own conversions, and the two unchecked ones not null |
| `Api.OutcomeIgnoresClock` | hijri_converter_api.php:64-81 | the clock readings affect at most the Hijri strings, not the code, status, message, presence of `data` or the echoed date |
| `Api.CalendarCheckIsTheLibrarys` | hijri_converter_api.php:58-69 | `31/02/2025` passes the pattern, and whether it succeeds is decided only by the library's parse |

## Left out

- The four response headers (lines 4-7) and the `http_response_code` side effect: the code is a returned value, and headers are the same for every reply.
- Reading `php://input` and `json_decode` (lines 49-51): the handler takes the already extracted `date` field; a body that does not decode to an object with that key is an absent date.
- Non-string `date` values (numbers, arrays, booleans): their PHP coercions in `empty` and `preg_match` are not modelled; the field is a string or absent.
- Gregorian parsing and Hijri formatting themselves (DateTime::createFromFormat, IntlDateFormatter, the Umm al-Qura calendar, the ICU pattern letters): foreign library code, kept abstract in `Hijri.Library`. Nothing is claimed about which calendar-invalid dates such as `31/02/2025` the parse rejects, since PHP's parse may roll them over instead.
- The parse's dependence on the server's default timezone is folded into the abstract library.
- `IntlDateFormatter::format` returning false: folded into `render`'s string.
- JSON pretty-printing, unescaped Unicode and the key order of the output (line 92): output encoding; the response is a typed record whose fields are the JSON keys.
- Strings are sequences of characters, not PHP's bytes. The pattern only accepts ASCII characters at fixed positions, so the two readings accept the same dates.
