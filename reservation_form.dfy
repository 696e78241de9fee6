/**
 * The reservations section's `validateForm`
 * (components/sections/reservations.tsx): date, time, name, email and phone
 * are checked, the errors found replace the shown ones, and the booking is
 * accepted exactly when there are none. Party size and special requests are
 * never checked. A date is a time stamp in milliseconds; "now" is a
 * parameter.
 */
module ReservationForm {
  import opened Wrappers
  import opened JsText
  import opened FormChecks

  datatype ReservationField = Date | Time | Name | Email | Phone

  /** `ReservationFormData` in types/index.ts; `None` is an unset date or no special requests. */
  datatype ReservationFormData = ReservationFormData(
    date: Option<int>,
    time: string,
    guests: int,
    name: string,
    email: string,
    phone: string,
    specialRequests: Option<string>)

  /** The date check: required when unset, in the past when before `now`. */
  function DateError(date: Option<int>, now: int): (r: Option<ErrorKind>)
    ensures r == Some(Required) <==> date == None
    ensures r == Some(PastDate) <==> date != None && date.value < now
    ensures r == None <==> date != None && now <= date.value
  {
    match date
    case None => Some(Required)
    case Some(t) => if t < now then Some(PastDate) else None
  }

  /** The time check: required when no slot is chosen (the empty string; no trim). */
  function TimeError(time: string): (r: Option<ErrorKind>)
    ensures r == Some(Required) <==> time == ""
    ensures r == None <==> time != ""
  {
    if time == "" then Some(Required) else None
  }

  /**
   * What the phone pattern accepts once white space is gone: an optional
   * `+`, then nine or more characters, each a digit or `-`.
   */
  ghost predicate PhoneNumberShape(t: string)
  {
    exists body: string ::
      && (t == body || t == "+" + body)
      && |body| >= 9
      && forall i :: 0 <= i < |body| ==> IsDigit(body[i]) || body[i] == '-'
  }

  /** On text without white space the phone pattern means `PhoneNumberShape`. */
  lemma PhonePatternWithoutWs(t: string)
    requires forall i :: 0 <= i < |t| ==> !IsWs(t[i])
    ensures PhoneShape(t) <==> PhoneNumberShape(t)
  {
    if PhoneShape(t) {
      var body: string :| (t == body || t == "+" + body) && IsPhoneBody(body);
      forall i | 0 <= i < |body| ensures IsDigit(body[i]) || body[i] == '-' {
        if t == body {
          assert !IsWs(t[i]);
        } else {
          assert body[i] == t[i + 1];
        }
      }
    }
    if PhoneNumberShape(t) {
      var body: string :| && (t == body || t == "+" + body) && |body| >= 9
                          && forall i :: 0 <= i < |body| ==> IsDigit(body[i]) || body[i] == '-';
      assert IsPhoneBody(body);
    }
  }

  /**
   * The phone check: required when blank, otherwise invalid unless the
   * number with all white space deleted matches the phone pattern.
   */
  function PhoneError(phone: string): (r: Option<ErrorKind>)
    ensures r == None || r == Some(Required) || r == Some(InvalidPhone)
    ensures r == None ==> 9 <= |RemoveWs(phone)| <= |phone|
  {
    if Trim(phone) == "" then Some(Required)
    else if !MatchesPhone(RemoveWs(phone)) then Some(InvalidPhone)
    else None
  }

  /**
   * A blank phone is missing; any other is accepted exactly when, without
   * its white space, it is an optional `+` and nine or more digits or `-`.
   */
  lemma PhoneErrorMeaning(phone: string)
    ensures AllWs(phone) ==> PhoneError(phone) == Some(Required)
    ensures !AllWs(phone) ==> (PhoneError(phone) == None <==> PhoneNumberShape(RemoveWs(phone)))
    ensures !AllWs(phone) && PhoneError(phone) != None ==> PhoneError(phone) == Some(InvalidPhone)
  {
    TrimEmptyIffAllWs(phone);
    PhoneMatchIsPattern(RemoveWs(phone));
    PhonePatternWithoutWs(RemoveWs(phone));
  }

  /** The error, if any, that field `f` of `d` gets at time `now`. */
  function FieldError(d: ReservationFormData, now: int, f: ReservationField): Option<ErrorKind>
  {
    match f
    case Date => DateError(d.date, now)
    case Time => TimeError(d.time)
    case Name => RequiredError(d.name)
    case Email => EmailError(d.email)
    case Phone => PhoneError(d.phone)
  }

  /** The field checks `validateForm` runs on `d` at time `now`, in its order. */
  function Checks(d: ReservationFormData, now: int): seq<(ReservationField, Option<ErrorKind>)>
  {
    [ (Date, DateError(d.date, now)),
      (Time, TimeError(d.time)),
      (Name, RequiredError(d.name)),
      (Email, EmailError(d.email)),
      (Phone, PhoneError(d.phone)) ]
  }

  /** Where field `f` stands in `Checks`. */
  function Position(f: ReservationField): nat
  {
    match f
    case Date => 0
    case Time => 1
    case Name => 2
    case Email => 3
    case Phone => 4
  }

  /** The error map `validateForm` builds for `d` at time `now`. */
  function ReservationErrors(d: ReservationFormData, now: int): (r: map<ReservationField, ErrorKind>)
    ensures |r| <= 5
  {
    Collect(Checks(d, now), 5)
  }

  /**
   * Each field has at most one error: the map holds an entry for exactly
   * the failing fields, each with that field's error.
   */
  lemma ReservationErrorsPerField(d: ReservationFormData, now: int, f: ReservationField)
    ensures f in ReservationErrors(d, now) <==> FieldError(d, now, f).Some?
    ensures f in ReservationErrors(d, now) ==> Some(ReservationErrors(d, now)[f]) == FieldError(d, now, f)
  {
    var checks := Checks(d, now);
    assert DistinctFields(checks);
    assert checks[Position(f)] == (f, FieldError(d, now, f));
    CollectHoldsEachCheck(checks, 5, Position(f));
  }

  /** Every checked field is filled in properly at time `now`. */
  ghost predicate Acceptable(d: ReservationFormData, now: int)
  {
    && d.date != None && now <= d.date.value
    && d.time != ""
    && !AllWs(d.name)
    && EmailShape(d.email)
    && PhoneNumberShape(RemoveWs(d.phone))
  }

  /** The booking reports no error exactly when every checked field is filled in properly. */
  lemma NoErrorsIffAcceptable(d: ReservationFormData, now: int)
    ensures ReservationErrors(d, now) == map[] <==> Acceptable(d, now)
  {
    NoErrorsIffEveryCheckPasses(d, now);
    RequiredErrorMeaning(d.name);
    EmailErrorMeaning(d.email);
    PhoneErrorMeaning(d.phone);
  }

  /** Every one of the five checks finds nothing. */
  predicate EveryCheckPasses(d: ReservationFormData, now: int)
  {
    && DateError(d.date, now).None?
    && TimeError(d.time).None?
    && RequiredError(d.name).None?
    && EmailError(d.email).None?
    && PhoneError(d.phone).None?
  }

  /** The error map is empty exactly when no check finds anything. */
  lemma NoErrorsIffEveryCheckPasses(d: ReservationFormData, now: int)
    ensures ReservationErrors(d, now) == map[] <==> EveryCheckPasses(d, now)
  {
    var r := ReservationErrors(d, now);
    ReservationErrorsPerField(d, now, Date);
    ReservationErrorsPerField(d, now, Time);
    ReservationErrorsPerField(d, now, Name);
    ReservationErrorsPerField(d, now, Email);
    ReservationErrorsPerField(d, now, Phone);
    if r != map[] {
      var f :| f in r;
      assert f == Date || f == Time || f == Name || f == Email || f == Phone;
    }
  }

  /** Party size and special requests never affect the outcome. */
  lemma GuestsAndRequestsUnchecked(d: ReservationFormData, now: int, guests: int, requests: Option<string>)
    ensures ReservationErrors(d.(guests := guests, specialRequests := requests), now) == ReservationErrors(d, now)
  {
  }

  /** The date step of `validateForm`: flag the date as missing or as past. */
  method CheckDate(errors: map<ReservationField, ErrorKind>, date: Option<int>, now: int)
    returns (r: map<ReservationField, ErrorKind>)
    ensures r == Record(errors, Date, DateError(date, now))
  {
    r := errors;
    if date.None? {
      r := r[Date := Required];
    } else if date.value < now {
      r := r[Date := PastDate];
    }
  }

  /** The time step of `validateForm`: flag the time as missing when no slot is chosen. */
  method CheckTime(errors: map<ReservationField, ErrorKind>, time: string)
    returns (r: map<ReservationField, ErrorKind>)
    ensures r == Record(errors, Time, TimeError(time))
  {
    r := errors;
    if time == "" {
      r := r[Time := Required];
    }
  }

  /** The phone step of `validateForm`: flag the phone as missing or as malformed. */
  method CheckPhone(errors: map<ReservationField, ErrorKind>, phone: string)
    returns (r: map<ReservationField, ErrorKind>)
    ensures r == Record(errors, Phone, PhoneError(phone))
  {
    r := errors;
    if Trim(phone) == "" {
      r := r[Phone := Required];
    } else if !MatchesPhone(RemoveWs(phone)) {
      r := r[Phone := InvalidPhone];
    }
  }

  /** The reservations section's form state. */
  class ReservationsSection {
    var formData: ReservationFormData
    var errors: map<ReservationField, ErrorKind>

    constructor ()
      ensures formData == ReservationFormData(None, "", 2, "", "", "", Some(""))
      ensures errors == map[]
    {
      formData := ReservationFormData(None, "", 2, "", "", "", Some(""));
      errors := map[];
    }

    /**
     * Checks every field against the clock reading `now`, replaces the shown
     * errors with the ones found and answers whether the booking may be sent.
     */
    method ValidateForm(now: int) returns (valid: bool)
      modifies this`errors
      ensures errors == ReservationErrors(formData, now)
      ensures valid <==> errors == map[]
      ensures valid <==> Acceptable(formData, now)
    {
      ghost var checks := Checks(formData, now);
      var newErrors: map<ReservationField, ErrorKind> := map[];
      newErrors := CheckDate(newErrors, formData.date, now);
      assert newErrors == Collect(checks, 1);
      newErrors := CheckTime(newErrors, formData.time);
      assert newErrors == Collect(checks, 2);
      newErrors := CheckRequired(newErrors, Name, formData.name);
      assert newErrors == Collect(checks, 3);
      newErrors := CheckEmail(newErrors, Email, formData.email);
      assert newErrors == Collect(checks, 4);
      newErrors := CheckPhone(newErrors, formData.phone);

      errors := newErrors;
      valid := |newErrors.Keys| == 0;
      NoErrorsIffAcceptable(formData, now);
    }
  }
}
