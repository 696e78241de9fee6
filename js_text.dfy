/**
 * The JavaScript string behaviour the two form validators rely on: the white
 * space that `String.prototype.trim` strips and that the regex class `\s`
 * matches, `trim`, `replace(/\s/g, "")`, `length` in UTF-16 code units, and
 * the two regular expressions they test, each given both as what the pattern
 * means and as a direct check, with a proof that the two agree.
 */
module JsText {

  /**
   * JavaScript white space and line terminators: the characters `trim`
   * removes and `\s` matches.
   */
  predicate IsWs(c: char)
  {
    || c == '\t' || c == '\n' || c == '\U{B}' || c == '\U{C}' || c == '\r' || c == ' '
    || c == '\U{A0}' || c == '\U{1680}' || ('\U{2000}' <= c <= '\U{200A}')
    || c == '\U{2028}' || c == '\U{2029}' || c == '\U{202F}' || c == '\U{205F}'
    || c == '\U{3000}' || c == '\U{FEFF}'
  }

  /** `\d`: an ASCII digit. */
  predicate IsDigit(c: char)
  {
    '0' <= c <= '9'
  }

  /** Every character is white space (true of the empty string). */
  predicate AllWs(s: string)
  {
    forall i :: 0 <= i < |s| ==> IsWs(s[i])
  }

  /** How many white-space characters `s` starts with. */
  function LeadingWs(s: string): (k: nat)
    ensures k <= |s|
  {
    if s == [] || !IsWs(s[0]) then 0 else LeadingWs(s[1..]) + 1
  }

  /** `LeadingWs` counts white space up to the first other character. */
  lemma {:induction false} LeadingWsSpan(s: string)
    ensures AllWs(s[..LeadingWs(s)])
    ensures LeadingWs(s) == |s| || !IsWs(s[LeadingWs(s)])
  {
    if s != [] && IsWs(s[0]) {
      LeadingWsSpan(s[1..]);
      var k := LeadingWs(s[1..]);
      assert s[..k + 1] == [s[0]] + s[1..][..k];
    }
  }

  /** Where the white space `s` ends with begins. */
  function TrailingWsStart(s: string): (j: nat)
    ensures j <= |s|
  {
    if s == [] || !IsWs(s[|s| - 1]) then |s| else TrailingWsStart(s[..|s| - 1])
  }

  /** `TrailingWsStart` marks white space back to the last other character. */
  lemma {:induction false} TrailingWsSpan(s: string)
    ensures AllWs(s[TrailingWsStart(s)..])
    ensures TrailingWsStart(s) == 0 || !IsWs(s[TrailingWsStart(s) - 1])
  {
    if s != [] && IsWs(s[|s| - 1]) {
      TrailingWsSpan(s[..|s| - 1]);
      var j := TrailingWsStart(s[..|s| - 1]);
      assert s[j..] == s[..|s| - 1][j..] + [s[|s| - 1]];
    }
  }

  /**
   * `String.prototype.trim`: `s` without the white space it starts and
   * ends with.
   */
  function Trim(s: string): (r: string)
    ensures |r| <= |s|
    ensures r == [] || (!IsWs(r[0]) && !IsWs(r[|r| - 1]))
  {
    var i := LeadingWs(s);
    LeadingWsSpan(s);
    TrailingWsSpan(s[i..]);
    s[i..][..TrailingWsStart(s[i..])]
  }

  /**
   * `trim` keeps a middle stretch of `s` that neither starts nor ends with
   * white space, and everything it drops is white space.
   */
  lemma TrimIsMiddle(s: string)
    ensures exists i, j :: 0 <= i <= j <= |s| && Trim(s) == s[i..j] && AllWs(s[..i]) && AllWs(s[j..])
    ensures Trim(s) == [] || (!IsWs(Trim(s)[0]) && !IsWs(Trim(s)[|Trim(s)| - 1]))
  {
    var i := LeadingWs(s);
    var t := s[i..];
    var j := TrailingWsStart(t);
    LeadingWsSpan(s);
    TrailingWsSpan(t);
    assert Trim(s) == s[i..i + j];
    assert s[i + j..] == t[j..];
    if j > 0 {
      assert Trim(s)[0] == s[i];
      assert Trim(s)[j - 1] == t[j - 1];
    }
  }

  /** `!s.trim()` holds exactly when every character of `s` is white space. */
  lemma TrimEmptyIffAllWs(s: string)
    ensures Trim(s) == [] <==> AllWs(s)
  {
    TrimIsMiddle(s);
    var i, j :| 0 <= i <= j <= |s| && Trim(s) == s[i..j] && AllWs(s[..i]) && AllWs(s[j..]);
    if Trim(s) == [] {
      forall k | 0 <= k < |s| ensures IsWs(s[k]) {
        if k < i {
          assert s[k] == s[..i][k];
        } else {
          assert s[k] == s[j..][k - j];
        }
      }
    } else {
      assert !IsWs(s[i]);
    }
  }

  /** `replace(/\s/g, "")`: every white-space character deleted. */
  function RemoveWs(s: string): (r: string)
    ensures forall i :: 0 <= i < |r| ==> !IsWs(r[i])
    ensures r == [] <==> AllWs(s)
    ensures |r| <= |s|
  {
    if s == [] then []
    else if IsWs(s[0]) then RemoveWs(s[1..])
    else [s[0]] + RemoveWs(s[1..])
  }

  /** One character is deleted exactly when it is white space. */
  lemma RemoveWsSingle(c: char)
    ensures RemoveWs([c]) == if IsWs(c) then [] else [c]
  {
    assert [c][1..] == [];
  }

  /**
   * Deleting white space from a concatenation concatenates the results, so
   * the characters that stay keep their order.
   */
  lemma {:induction false} RemoveWsConcat(a: string, b: string)
    ensures RemoveWs(a + b) == RemoveWs(a) + RemoveWs(b)
  {
    if a == [] {
      assert a + b == b;
    } else {
      assert (a + b)[0] == a[0];
      assert (a + b)[1..] == a[1..] + b;
      RemoveWsConcat(a[1..], b);
    }
  }

  /** Text without white space is left as it is. */
  lemma {:induction false} RemoveWsKeepsPlainText(s: string)
    requires forall i :: 0 <= i < |s| ==> !IsWs(s[i])
    ensures RemoveWs(s) == s
  {
    if s != [] {
      assert !IsWs(s[0]);
      RemoveWsKeepsPlainText(s[1..]);
      assert s == [s[0]] + s[1..];
    }
  }

  /** `length`: UTF-16 code units, two for a character beyond U+FFFF. */
  function Utf16Length(s: string): (n: nat)
    ensures |s| <= n <= 2 * |s|
  {
    if s == [] then 0
    else (if s[0] as int > 0xFFFF then 2 else 1) + Utf16Length(s[1..])
  }

  /** A character takes two code units beyond U+FFFF and one otherwise. */
  lemma Utf16LengthSingle(c: char)
    ensures Utf16Length([c]) == if c as int > 0xFFFF then 2 else 1
  {
    assert [c][1..] == [];
  }

  /** The code units of a concatenation are those of its parts. */
  lemma {:induction false} Utf16LengthConcat(a: string, b: string)
    ensures Utf16Length(a + b) == Utf16Length(a) + Utf16Length(b)
  {
    if a == [] {
      assert a + b == b;
    } else {
      assert (a + b)[0] == a[0];
      assert (a + b)[1..] == a[1..] + b;
      Utf16LengthConcat(a[1..], b);
    }
  }

  /** Text within the Basic Multilingual Plane has one code unit per character. */
  lemma {:induction false} Utf16LengthOfBmp(s: string)
    requires forall i :: 0 <= i < |s| ==> s[i] as int <= 0xFFFF
    ensures Utf16Length(s) == |s|
  {
    if s != [] {
      assert s[0] as int <= 0xFFFF;
      Utf16LengthOfBmp(s[1..]);
    }
  }

  // ------------------------------------------------ /^[^\s@]+@[^\s@]+\.[^\s@]+$/

  /** Matches `[^\s@]*`: no white space and no `@`. */
  predicate NoWsOrAt(s: string)
  {
    forall i :: 0 <= i < |s| ==> !IsWs(s[i]) && s[i] != '@'
  }

  /**
   * What the email pattern accepts: a non-empty local part, `@`, and a
   * domain made of two non-empty parts around a `.`, none of the three
   * holding white space or `@`.
   */
  ghost predicate EmailShape(s: string)
  {
    exists local: string, host: string, top: string ::
      && s == local + "@" + host + "." + top
      && local != "" && host != "" && top != ""
      && NoWsOrAt(local) && NoWsOrAt(host) && NoWsOrAt(top)
  }

  /** The first index of `c` in `s`, or -1 (`indexOf`). */
  function IndexOfChar(s: string, c: char): (r: int)
    ensures -1 <= r < |s|
    ensures r == -1 <==> c !in s
    ensures r >= 0 ==> s[r] == c && c !in s[..r]
  {
    if s == [] then -1
    else if s[0] == c then 0
    else
      var r := IndexOfChar(s[1..], c);
      assert s == [s[0]] + s[1..];
      if r == -1 then -1
      else
        assert s[..r + 1] == [s[0]] + s[1..][..r];
        r + 1
  }

  /** A `.` strictly inside `s`: neither its first nor its last character. */
  predicate HasInnerDot(s: string)
  {
    exists k :: 0 < k < |s| - 1 && s[k] == '.'
  }

  /**
   * The email test as the validator runs it, by position: split at the `@`,
   * then check both sides.
   */
  predicate MatchesEmail(s: string)
    ensures MatchesEmail(s) ==> 5 <= |s| && !IsWs(s[0]) && !IsWs(s[|s| - 1])
  {
    var at := IndexOfChar(s, '@');
    at > 0 && NoWsOrAt(s[..at]) && NoWsOrAt(s[at + 1..]) && HasInnerDot(s[at + 1..])
  }

  /** The positional test accepts exactly the strings the pattern matches. */
  lemma EmailMatchIsPattern(s: string)
    ensures MatchesEmail(s) <==> EmailShape(s)
  {
    if MatchesEmail(s) {
      MatchedEmailHasShape(s);
    }
    if EmailShape(s) {
      var local: string, host: string, top: string :|
        && s == local + "@" + host + "." + top
        && local != "" && host != "" && top != ""
        && NoWsOrAt(local) && NoWsOrAt(host) && NoWsOrAt(top);
      ShapedEmailMatches(s, local, host, top);
    }
  }

  lemma MatchedEmailHasShape(s: string)
    requires MatchesEmail(s)
    ensures EmailShape(s)
  {
    var at := IndexOfChar(s, '@');
    var domain := s[at + 1..];
    var k :| 0 < k < |domain| - 1 && domain[k] == '.';
    var local, host, top := s[..at], domain[..k], domain[k + 1..];
    assert domain == host + "." + top;
    assert s == local + "@" + host + "." + top;
    assert NoWsOrAt(host) && NoWsOrAt(top) by {
      forall i | 0 <= i < |host| ensures host[i] == domain[i] { }
      forall i | 0 <= i < |top| ensures top[i] == domain[k + 1 + i] { }
    }
  }

  lemma ShapedEmailMatches(s: string, local: string, host: string, top: string)
    requires s == local + "@" + host + "." + top
    requires local != "" && host != "" && top != ""
    requires NoWsOrAt(local) && NoWsOrAt(host) && NoWsOrAt(top)
    ensures MatchesEmail(s)
  {
    var at := |local|;
    assert s[at] == '@' && s[..at] == local;
    assert '@' !in local by {
      forall i | 0 <= i < |local| ensures local[i] != '@' { }
    }
    assert IndexOfChar(s, '@') == at;
    var domain := s[at + 1..];
    assert domain == host + "." + top;
    assert domain[|host|] == '.';
    forall i | 0 <= i < |domain| ensures !IsWs(domain[i]) && domain[i] != '@' {
      if i < |host| {
        assert domain[i] == host[i];
      } else if i > |host| {
        assert domain[i] == top[i - |host| - 1];
      }
    }
  }

  /** An email with white space before or after it never matches. */
  lemma EmailWithOuterWsFails(s: string)
    requires s != [] && (IsWs(s[0]) || IsWs(s[|s| - 1]))
    ensures !MatchesEmail(s)
  {
  }

  // ------------------------------------------------------ /^[+]?[\d\s-]{9,}$/

  /** `[\d\s-]`. */
  predicate IsPhoneChar(c: char)
  {
    IsDigit(c) || IsWs(c) || c == '-'
  }

  /** `[\d\s-]{9,}`: nine or more phone characters. */
  predicate IsPhoneBody(s: string)
  {
    |s| >= 9 && forall i :: 0 <= i < |s| ==> IsPhoneChar(s[i])
  }

  /** What the phone pattern accepts: an optional `+`, then a phone body. */
  ghost predicate PhoneShape(s: string)
  {
    exists body: string :: (s == body || s == "+" + body) && IsPhoneBody(body)
  }

  /** The phone test by position: skip a leading `+`, then check the rest. */
  predicate MatchesPhone(s: string)
    ensures MatchesPhone(s) ==> 9 <= |s| && forall i :: 0 < i < |s| ==> IsPhoneChar(s[i])
  {
    IsPhoneBody(if s != [] && s[0] == '+' then s[1..] else s)
  }

  /** The positional test accepts exactly the strings the pattern matches. */
  lemma PhoneMatchIsPattern(s: string)
    ensures MatchesPhone(s) <==> PhoneShape(s)
  {
    if MatchesPhone(s) {
      var body := if s != [] && s[0] == '+' then s[1..] else s;
      if s != [] && s[0] == '+' {
        assert s == [s[0]] + s[1..];
        assert s == "+" + body;
      }
      assert IsPhoneBody(body);
    }
    if PhoneShape(s) {
      var body: string :| (s == body || s == "+" + body) && IsPhoneBody(body);
      if s == body {
        assert !IsPhoneChar('+');
        assert IsPhoneChar(s[0]);
      } else {
        assert s[0] == '+' && s[1..] == body;
      }
    }
  }
}
