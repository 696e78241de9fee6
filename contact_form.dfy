/**
 * The contact section's `validateForm` (components/sections/contact.tsx):
 * each of the four fields is checked in turn, the errors found are
 * collected in a fresh map that replaces the shown errors, and the form is
 * accepted exactly when that map is empty.
 */
module ContactForm {
  import opened Wrappers
  import opened JsText
  import opened FormChecks

  datatype ContactField = Name | Email | Subject | Message

  /** `ContactFormData` in types/index.ts. */
  datatype ContactFormData = ContactFormData(name: string, email: string, subject: string, message: string)

  /**
   * The message check: required when blank, too short when its trimmed
   * text is under ten UTF-16 code units.
   */
  function MessageError(m: string): (r: Option<ErrorKind>)
    ensures r == None || r == Some(Required) || r == Some(MessageTooShort)
    ensures r == None ==> 5 <= |Trim(m)|
  {
    if Trim(m) == "" then Some(Required)
    else if Utf16Length(Trim(m)) < 10 then Some(MessageTooShort)
    else None
  }

  /**
   * A blank message is missing; any other is accepted exactly when its
   * trimmed text is at least ten UTF-16 code units long, and is otherwise
   * too short.
   */
  lemma MessageErrorMeaning(m: string)
    ensures AllWs(m) ==> MessageError(m) == Some(Required)
    ensures !AllWs(m) ==> (MessageError(m) == None <==> Utf16Length(Trim(m)) >= 10)
    ensures !AllWs(m) && MessageError(m) != None ==> MessageError(m) == Some(MessageTooShort)
  {
    TrimEmptyIffAllWs(m);
  }

  /** The error, if any, that field `f` of `d` gets. */
  function FieldError(d: ContactFormData, f: ContactField): Option<ErrorKind>
  {
    match f
    case Name => RequiredError(d.name)
    case Email => EmailError(d.email)
    case Subject => RequiredError(d.subject)
    case Message => MessageError(d.message)
  }

  /** The field checks `validateForm` runs on `d`, in its order. */
  function Checks(d: ContactFormData): seq<(ContactField, Option<ErrorKind>)>
  {
    [ (Name, RequiredError(d.name)),
      (Email, EmailError(d.email)),
      (Subject, RequiredError(d.subject)),
      (Message, MessageError(d.message)) ]
  }

  /** Where field `f` stands in `Checks`. */
  function Position(f: ContactField): nat
  {
    match f
    case Name => 0
    case Email => 1
    case Subject => 2
    case Message => 3
  }

  /** The error map `validateForm` builds for `d`. */
  function ContactErrors(d: ContactFormData): (r: map<ContactField, ErrorKind>)
    ensures |r| <= 4
  {
    Collect(Checks(d), 4)
  }

  /**
   * Each field has at most one error: the map holds an entry for exactly
   * the failing fields, each with that field's error.
   */
  lemma ContactErrorsPerField(d: ContactFormData, f: ContactField)
    ensures f in ContactErrors(d) <==> FieldError(d, f).Some?
    ensures f in ContactErrors(d) ==> Some(ContactErrors(d)[f]) == FieldError(d, f)
  {
    var checks := Checks(d);
    assert DistinctFields(checks);
    assert checks[Position(f)] == (f, FieldError(d, f));
    CollectHoldsEachCheck(checks, 4, Position(f));
  }

  /** Every field is filled in properly: what the form demands before it sends. */
  ghost predicate Acceptable(d: ContactFormData)
  {
    && !AllWs(d.name)
    && EmailShape(d.email)
    && !AllWs(d.subject)
    && Utf16Length(Trim(d.message)) >= 10
  }

  /** Every one of the four checks finds nothing. */
  predicate EveryCheckPasses(d: ContactFormData)
  {
    && RequiredError(d.name).None?
    && EmailError(d.email).None?
    && RequiredError(d.subject).None?
    && MessageError(d.message).None?
  }

  /** The error map is empty exactly when no check finds anything. */
  lemma NoErrorsIffEveryCheckPasses(d: ContactFormData)
    ensures ContactErrors(d) == map[] <==> EveryCheckPasses(d)
  {
    var r := ContactErrors(d);
    ContactErrorsPerField(d, Name);
    ContactErrorsPerField(d, Email);
    ContactErrorsPerField(d, Subject);
    ContactErrorsPerField(d, Message);
    if r != map[] {
      var f :| f in r;
      assert f == Name || f == Email || f == Subject || f == Message;
    }
  }

  /** The form reports no error exactly when every field is filled in properly. */
  lemma NoErrorsIffAcceptable(d: ContactFormData)
    ensures ContactErrors(d) == map[] <==> Acceptable(d)
  {
    NoErrorsIffEveryCheckPasses(d);
    RequiredErrorMeaning(d.name);
    EmailErrorMeaning(d.email);
    RequiredErrorMeaning(d.subject);
    MessageErrorMeaning(d.message);
    TrimEmptyIffAllWs(d.message);
  }

  /** The message step of `validateForm`: flag the message as missing or as too short. */
  method CheckMessage(errors: map<ContactField, ErrorKind>, message: string)
    returns (r: map<ContactField, ErrorKind>)
    ensures r == Record(errors, Message, MessageError(message))
  {
    r := errors;
    if Trim(message) == "" {
      r := r[Message := Required];
    } else if Utf16Length(Trim(message)) < 10 {
      r := r[Message := MessageTooShort];
    }
  }

  /** The contact section's form state. */
  class ContactSection {
    var formData: ContactFormData
    var errors: map<ContactField, ErrorKind>

    constructor ()
      ensures formData == ContactFormData("", "", "", "")
      ensures errors == map[]
    {
      formData := ContactFormData("", "", "", "");
      errors := map[];
    }

    /**
     * Checks every field, replaces the shown errors with the ones found and
     * answers whether the form may be sent.
     */
    method ValidateForm() returns (valid: bool)
      modifies this`errors
      ensures errors == ContactErrors(formData)
      ensures valid <==> errors == map[]
      ensures valid <==> Acceptable(formData)
    {
      ghost var checks := Checks(formData);
      var newErrors: map<ContactField, ErrorKind> := map[];
      newErrors := CheckRequired(newErrors, Name, formData.name);
      assert newErrors == Collect(checks, 1);
      newErrors := CheckEmail(newErrors, Email, formData.email);
      assert newErrors == Collect(checks, 2);
      newErrors := CheckRequired(newErrors, Subject, formData.subject);
      assert newErrors == Collect(checks, 3);
      newErrors := CheckMessage(newErrors, formData.message);

      errors := newErrors;
      valid := |newErrors.Keys| == 0;
      NoErrorsIffAcceptable(formData);
    }
  }
}
