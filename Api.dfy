/**
 * The request handler: from the request method and the `date` field of the
 * decoded JSON body to the HTTP status code and the response body. Headers,
 * body reading and JSON encoding are the transport's business and are not
 * modelled; the handler is a pure function of its inputs.
 */
module Api {
  import opened Wrappers
  import opened Hijri
  import DateFormat

  /** `hijri_date`: the keys `numeric`, `long_arabic` and `full_arabic`. */
  datatype HijriDate = HijriDate(numeric: string, longArabic: Option<string>, fullArabic: Option<string>)

  /** `data`: the keys `gregorian_date` and `hijri_date`. */
  datatype Payload = Payload(gregorianDate: string, hijriDate: HijriDate)

  /** The JSON response object: `status`, `message` and, on success only, `data`. */
  datatype Response = Response(status: string, message: string, data: Option<Payload>)

  /** The HTTP status code and the body; `None` is the empty body of the pre-flight reply. */
  datatype Reply = Reply(code: int, body: Option<Response>)

  /**
   * The clock readings of the three createFromFormat calls of a conversion:
   * for `numeric`, `long_arabic` and `full_arabic`, in that order.
   */
  datatype Clock = Clock(numeric: int, longArabic: int, fullArabic: int)

  const Preflight := "OPTIONS"

  const NoDateMessage := "No date provided. Please send a JSON payload with a 'date' key. e.g., {\"date\": \"27/07/2025\"}"
  const BadFormatMessage := "Invalid date format. Please use 'dd/mm/yyyy'."
  const UnparsableMessage := "Could not parse the provided date. Make sure it is a valid Gregorian date."
  const SuccessMessage := "Date converted successfully."

  const NumericFormat := "yyyy-MM-dd"
  const LongArabicFormat := "d MMMM, yyyy"
  const FullArabicFormat := "eeee, d MMMM, yyyy G"
  const ArabicLocale := "ar-SA"

  /** PHP's `empty` on a string: the empty string and the string "0". */
  predicate IsPhpEmpty(s: string) {
    s == "" || s == "0"
  }

  /** `isset($inputData['date']) && !empty($inputData['date'])` for a string-valued field. */
  predicate DateProvided(date: Option<string>) {
    date.Some? && !IsPhpEmpty(date.value)
  }

  function Rejection(message: string): Response {
    Response("error", message, None)
  }

  /** The handler, tested in order: pre-flight, missing date, format, conversion, success. */
  function Handle(verb: string, date: Option<string>, lib: Library, clock: Clock): (r: Reply)
    ensures r.code == 200 || r.code == 400
    ensures r.body.None? <==> verb == Preflight
    ensures r.body.Some? ==> (r.body.value.status == "success" || r.body.value.status == "error")
    ensures r.body.Some? ==> (r.code == 200 <==> r.body.value.status == "success")
    ensures r.body.Some? ==> (r.body.value.data.Some? <==> r.body.value.status == "success")
    ensures r.body.Some? && r.body.value.data.Some? ==> date == Some(r.body.value.data.value.gregorianDate)
  {
    if verb == Preflight then
      Reply(200, None)
    else if !DateProvided(date) then
      Reply(400, Some(Rejection(NoDateMessage)))
    else
      var text := date.value;
      if !DateFormat.PregMatch(text) then
        Reply(400, Some(Rejection(BadFormatMessage)))
      else
        var numeric := GregorianToHijri(lib, text, NumericFormat, DefaultLocale, clock.numeric);
        if numeric.None? then
          Reply(400, Some(Rejection(UnparsableMessage)))
        else
          var hijri := HijriDate(
            numeric.value,
            GregorianToHijri(lib, text, LongArabicFormat, ArabicLocale, clock.longArabic),
            GregorianToHijri(lib, text, FullArabicFormat, ArabicLocale, clock.fullArabic));
          Reply(200, Some(Response("success", SuccessMessage, Some(Payload(text, hijri)))))
  }

  /** Whether the reply is the success reply. */
  predicate Succeeded(r: Reply) {
    r.code == 200 && r.body.Some? && r.body.value.status == "success"
  }

  /**
   * The five outcomes and the conditions under which each fires, both ways:
   * pre-flight, then a missing date, then a format mismatch, then a failed
   * first conversion, and otherwise success.
   */
  lemma Outcomes(verb: string, date: Option<string>, lib: Library, clock: Clock)
    ensures var r := Handle(verb, date, lib, clock);
      && (r == Reply(200, None) <==> verb == Preflight)
      && (r == Reply(400, Some(Rejection(NoDateMessage))) <==>
            verb != Preflight && !DateProvided(date))
      && (r == Reply(400, Some(Rejection(BadFormatMessage))) <==>
            verb != Preflight && DateProvided(date) && !DateFormat.PregMatch(date.value))
      && (r == Reply(400, Some(Rejection(UnparsableMessage))) <==>
            verb != Preflight && DateProvided(date) && DateFormat.PregMatch(date.value)
            && !lib.parses(InputPattern, date.value))
      && (Succeeded(r) <==>
            verb != Preflight && DateProvided(date) && DateFormat.PregMatch(date.value)
            && lib.parses(InputPattern, date.value))
  {
  }

  /** A pre-flight request gets 200 with an empty body, whatever the date, the library and the clock. */
  lemma PreflightIgnoresRequest(d1: Option<string>, lib1: Library, c1: Clock, d2: Option<string>, lib2: Library, c2: Clock)
    ensures Handle(Preflight, d1, lib1, c1) == Handle(Preflight, d2, lib2, c2) == Reply(200, None)
  {
  }

  /** Apart from OPTIONS, the request method plays no part. */
  lemma MethodAgnostic(m1: string, m2: string, date: Option<string>, lib: Library, clock: Clock)
    requires m1 != Preflight && m2 != Preflight
    ensures Handle(m1, date, lib, clock) == Handle(m2, date, lib, clock)
  {
  }

  /** An absent date, "" and "0" are all missing dates; the converter is not consulted. */
  lemma MissingDate(verb: string, lib1: Library, c1: Clock, lib2: Library, c2: Clock)
    requires verb != Preflight
    ensures Handle(verb, None, lib1, c1) == Reply(400, Some(Rejection(NoDateMessage)))
    ensures Handle(verb, Some(""), lib1, c1) == Reply(400, Some(Rejection(NoDateMessage)))
    ensures Handle(verb, Some("0"), lib1, c1) == Handle(verb, None, lib2, c2)
  {
  }

  /** A provided date the pattern rejects is refused without consulting the converter. */
  lemma FormatMismatch(verb: string, text: string, lib1: Library, c1: Clock, lib2: Library, c2: Clock)
    requires verb != Preflight && !IsPhpEmpty(text) && !DateFormat.PregMatch(text)
    ensures Handle(verb, Some(text), lib1, c1) == Handle(verb, Some(text), lib2, c2)
              == Reply(400, Some(Rejection(BadFormatMessage)))
  {
  }

  /** A date that matches the pattern but does not parse as `d/m/Y` is refused with no `data`. */
  lemma ConversionFailure(verb: string, text: string, lib: Library, clock: Clock)
    requires verb != Preflight && DateFormat.PregMatch(text) && !lib.parses(InputPattern, text)
    ensures Handle(verb, Some(text), lib, clock) == Reply(400, Some(Rejection(UnparsableMessage)))
  {
  }

  /**
   * The success payload: the Gregorian date echoed unchanged and the three
   * conversions of it. The two conversions whose result the handler does
   * not check parse the same text as the first one, so they are never null.
   */
  lemma SuccessPayload(verb: string, text: string, lib: Library, clock: Clock)
    requires verb != Preflight && DateFormat.PregMatch(text) && lib.parses(InputPattern, text)
    ensures var r := Handle(verb, Some(text), lib, clock);
      && r.code == 200 && r.body.Some?
      && r.body.value.status == "success" && r.body.value.message == SuccessMessage
      && r.body.value.data.Some?
      && var p := r.body.value.data.value;
      && p.gregorianDate == text
      && Some(p.hijriDate.numeric) == GregorianToHijri(lib, text, "yyyy-MM-dd", "ar-SA", clock.numeric)
      && p.hijriDate.longArabic == GregorianToHijri(lib, text, "d MMMM, yyyy", "ar-SA", clock.longArabic)
      && p.hijriDate.fullArabic == GregorianToHijri(lib, text, "eeee, d MMMM, yyyy G", "ar-SA", clock.fullArabic)
      && p.hijriDate.longArabic.Some? && p.hijriDate.fullArabic.Some?
  {
  }

  /**
   * The clock readings of the conversions change at most the Hijri strings:
   * the code, the status, the message, whether there is `data`, the echoed
   * date and which Hijri values are null are the same for any two clocks.
   */
  lemma OutcomeIgnoresClock(verb: string, date: Option<string>, lib: Library, c1: Clock, c2: Clock)
    ensures var r1, r2 := Handle(verb, date, lib, c1), Handle(verb, date, lib, c2);
      && r1.code == r2.code && r1.body.None? == r2.body.None?
      && (r1.body.Some? ==>
            && r1.body.value.status == r2.body.value.status
            && r1.body.value.message == r2.body.value.message
            && r1.body.value.data.None? == r2.body.value.data.None?
            && (r1.body.value.data.Some? ==>
                  && r1.body.value.data.value.gregorianDate == r2.body.value.data.value.gregorianDate
                  && r1.body.value.data.value.hijriDate.longArabic.None? == r2.body.value.data.value.hijriDate.longArabic.None?
                  && r1.body.value.data.value.hijriDate.fullArabic.None? == r2.body.value.data.value.hijriDate.fullArabic.None?))
  {
  }

  /**
   * The pattern admits dates the calendar does not have, such as 31/02/2025:
   * whether one is refused is left entirely to the library's parse.
   */
  lemma CalendarCheckIsTheLibrarys(verb: string, lib: Library, clock: Clock)
    requires verb != Preflight
    ensures var r := Handle(verb, Some("31/02/2025"), lib, clock);
      Succeeded(r) <==> lib.parses("d/m/Y", "31/02/2025")
  {
  }
}
