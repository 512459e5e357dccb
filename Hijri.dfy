/**
 * `gregorianToHijri`: parse a `d/m/Y` Gregorian date and format it in the
 * Umm al-Qura Hijri calendar. Both steps belong to libraries outside the
 * service (PHP's DateTime and ICU's IntlDateFormatter), so a `Library`
 * value stands for them; only how the service wires them together is modelled.
 */
module Hijri {
  import opened Wrappers

  /** IntlDateFormatter's date and time styles. */
  datatype DateStyle = Full | Long | Medium | Short | NoStyle

  /** IntlDateFormatter's calendar kinds: the locale's own calendar or the Gregorian one. */
  datatype CalendarKind = Traditional | Gregorian

  /** The arguments of an IntlDateFormatter. */
  datatype FormatterConfig = FormatterConfig(
    locale: string,
    dateStyle: DateStyle,
    timeStyle: DateStyle,
    timezone: string,
    calendar: CalendarKind,
    pattern: string)

  /**
   * The DateTime that DateTime::createFromFormat builds: what it reads from
   * `text` by `pattern`, with every field the pattern does not give (the time
   * of day) taken from the clock reading `now`.
   */
  datatype ParsedDate = ParsedDate(pattern: string, text: string, now: int)

  /**
   * The foreign calls. `parses(pattern, text)` says whether
   * DateTime::createFromFormat(pattern, text) succeeds; this depends on the
   * text only, not on the clock. `render(config, date)` is what an
   * IntlDateFormatter built from `config` makes of `date`.
   */
  datatype Library = Library(
    parses: (string, string) -> bool,
    render: (FormatterConfig, ParsedDate) -> string)

  const InputPattern := "d/m/Y"
  const CalendarSuffix := "@calendar=islamic-umalqura"
  const DefaultFormat := "yyyy/MM/dd"
  const DefaultLocale := "ar-SA"

  /** The formatter gregorianToHijri builds for a locale and an output pattern. */
  function HijriFormatter(locale: string, format: string): FormatterConfig
  {
    FormatterConfig(locale + CalendarSuffix, Full, Full, "UTC", Traditional, format)
  }

  /**
   * gregorianToHijri(text, format, locale), with `now` the clock reading its
   * createFromFormat call sees. It is null exactly when `text` does not parse
   * as `d/m/Y`; the output pattern, the locale and the clock play no part in that.
   * The source gives `format` the default `DefaultFormat` and `locale` the
   * default `DefaultLocale`; the handler passes `format` at every call and so
   * never relies on the first default.
   */
  function GregorianToHijri(lib: Library, text: string, format: string, locale: string, now: int): (r: Option<string>)
    ensures r.Some? <==> lib.parses(InputPattern, text)
  {
    if !lib.parses(InputPattern, text) then None
    else Some(lib.render(HijriFormatter(locale, format), ParsedDate(InputPattern, text, now)))
  }

  /** Two conversions of the same text fail or succeed together, whatever their formats, locales and clocks. */
  lemma ConversionsFailTogether(lib: Library, text: string, f1: string, l1: string, t1: int, f2: string, l2: string, t2: int)
    ensures GregorianToHijri(lib, text, f1, l1, t1).None? <==> GregorianToHijri(lib, text, f2, l2, t2).None?
  {
  }

  /**
   * A successful conversion formats the parsed text in the Umm al-Qura
   * calendar of the locale, in UTC, with the requested pattern.
   */
  lemma ConversionUsesUmmAlQura(lib: Library, text: string, format: string, locale: string, now: int)
    requires lib.parses(InputPattern, text)
    ensures exists c: FormatterConfig ::
      && c.locale == locale + "@calendar=islamic-umalqura"
      && c.timezone == "UTC" && c.calendar == Traditional && c.pattern == format
      && c.dateStyle == Full && c.timeStyle == Full
      && GregorianToHijri(lib, text, format, locale, now) == Some(lib.render(c, ParsedDate("d/m/Y", text, now)))
  {
    var c := HijriFormatter(locale, format);
    assert GregorianToHijri(lib, text, format, locale, now) == Some(lib.render(c, ParsedDate("d/m/Y", text, now)));
  }
}
