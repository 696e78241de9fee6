/**
 * The field checks both forms share (`FormErrors` in types/index.ts maps a
 * field to a translated message; here the message is the kind of error).
 * Each check yields the error its field gets, or `None`.
 */
module FormChecks {
  import opened Wrappers
  import opened JsText

  /** The error messages the two forms can show, by translation key. */
  datatype ErrorKind = Required | InvalidEmail | MessageTooShort | PastDate | InvalidPhone

  /** `if (!value.trim())`: a text field left empty or holding only white space. */
  function RequiredError(s: string): (r: Option<ErrorKind>)
    ensures r == None || r == Some(Required)
    ensures r == None ==> 0 < |Trim(s)|
  {
    if Trim(s) == "" then Some(Required) else None
  }

  /** A text field is missing exactly when it is all white space. */
  lemma RequiredErrorMeaning(s: string)
    ensures RequiredError(s) == Some(Required) <==> AllWs(s)
    ensures RequiredError(s) == None <==> !AllWs(s)
  {
    TrimEmptyIffAllWs(s);
  }

  /**
   * The email check: required when blank, otherwise invalid unless the
   * value as typed (not trimmed) matches the email pattern.
   */
  function EmailError(s: string): (r: Option<ErrorKind>)
    ensures r == None || r == Some(Required) || r == Some(InvalidEmail)
    ensures r == None ==> 5 <= |s| && !IsWs(s[0]) && !IsWs(s[|s| - 1])
  {
    if Trim(s) == "" then Some(Required)
    else if !MatchesEmail(s) then Some(InvalidEmail)
    else None
  }

  /**
   * A blank email is missing; any other is accepted exactly when it has the
   * email pattern's shape, and is otherwise invalid.
   */
  lemma EmailErrorMeaning(s: string)
    ensures AllWs(s) ==> EmailError(s) == Some(Required)
    ensures !AllWs(s) ==> (EmailError(s) == None <==> EmailShape(s))
    ensures !AllWs(s) && EmailError(s) != None ==> EmailError(s) == Some(InvalidEmail)
  {
    TrimEmptyIffAllWs(s);
    EmailMatchIsPattern(s);
  }

  /** `errors` with the error `e` of `field` recorded, when there is one. */
  function Record<F>(errors: map<F, ErrorKind>, field: F, e: Option<ErrorKind>): map<F, ErrorKind>
  {
    if e.Some? then errors[field := e.value] else errors
  }

  /**
   * The error map a `validateForm` builds from its first `n` field checks,
   * applied in order, each a field and the error that field gets, if any.
   */
  function Collect<F>(checks: seq<(F, Option<ErrorKind>)>, n: nat): (r: map<F, ErrorKind>)
    requires n <= |checks|
    ensures |r| <= n
  {
    if n == 0 then map[] else Record(Collect(checks, n - 1), checks[n - 1].0, checks[n - 1].1)
  }

  /** No field is checked twice. */
  ghost predicate DistinctFields<F>(checks: seq<(F, Option<ErrorKind>)>)
  {
    NoDup(Fields(checks))
  }

  /** The fields `checks` looks at, in order. */
  function Fields<F>(checks: seq<(F, Option<ErrorKind>)>): seq<F>
  {
    seq(|checks|, i requires 0 <= i < |checks| => checks[i].0)
  }

  /**
   * Once checked, a field is in the map exactly when its check found an
   * error, and then with that error: later checks of other fields leave it
   * alone.
   */
  lemma {:induction false} CollectHoldsEachCheck<F>(checks: seq<(F, Option<ErrorKind>)>, n: nat, i: nat)
    requires n <= |checks| && DistinctFields(checks) && i < n
    ensures checks[i].0 in Collect(checks, n) <==> checks[i].1.Some?
    ensures checks[i].0 in Collect(checks, n) ==> Some(Collect(checks, n)[checks[i].0]) == checks[i].1
  {
    if i < n - 1 {
      assert Fields(checks)[i] != Fields(checks)[n - 1];
      CollectHoldsEachCheck(checks, n - 1, i);
    } else {
      forall j | 0 <= j < n - 1 ensures checks[j].0 != checks[i].0 {
        assert Fields(checks)[j] != Fields(checks)[i];
      }
      if checks[i].0 in Collect(checks, n - 1) {
        CollectHoldsOnlyChecked(checks, n - 1, checks[i].0);
      }
    }
  }

  /** Only checked fields appear in the map. */
  lemma {:induction false} CollectHoldsOnlyChecked<F>(checks: seq<(F, Option<ErrorKind>)>, n: nat, f: F)
    requires n <= |checks|
    requires f in Collect(checks, n)
    ensures exists i :: 0 <= i < n && checks[i].0 == f
  {
    if checks[n - 1].0 != f {
      CollectHoldsOnlyChecked(checks, n - 1, f);
      var i :| 0 <= i < n - 1 && checks[i].0 == f;
      assert 0 <= i < n && checks[i].0 == f;
    } else {
      assert checks[n - 1].0 == f;
    }
  }

  /** One `if (!value.trim())` step of a `validateForm`: flag `field` as required when blank. */
  method CheckRequired<F>(errors: map<F, ErrorKind>, field: F, value: string) returns (r: map<F, ErrorKind>)
    ensures r == Record(errors, field, RequiredError(value))
  {
    r := errors;
    if Trim(value) == "" {
      r := r[field := Required];
    }
  }

  /** The email step of a `validateForm`: flag `field` as required or as an invalid address. */
  method CheckEmail<F>(errors: map<F, ErrorKind>, field: F, value: string) returns (r: map<F, ErrorKind>)
    ensures r == Record(errors, field, EmailError(value))
  {
    r := errors;
    if Trim(value) == "" {
      r := r[field := Required];
    } else if !MatchesEmail(value) {
      r := r[field := InvalidEmail];
    }
  }

  /**
   * A well-formed address with white space around it is reported as an
   * invalid email, not as missing: the blank test trims, the pattern does not.
   */
  lemma PaddedEmailIsInvalid(s: string)
    requires EmailShape(Trim(s))
    requires s != Trim(s)
    ensures EmailError(s) == Some(InvalidEmail)
  {
    TrimIsMiddle(s);
    var i, j :| 0 <= i <= j <= |s| && Trim(s) == s[i..j] && AllWs(s[..i]) && AllWs(s[j..]);
    assert Trim(s) != "";
    if i > 0 {
      assert s[0] == s[..i][0];
    } else {
      assert j < |s| by {
        assert s[0..|s|] == s;
      }
      assert s[|s| - 1] == s[j..][|s| - j - 1];
    }
    EmailWithOuterWsFails(s);
  }
}
