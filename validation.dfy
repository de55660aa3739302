/** Form validation done by the register route: the phone check and the
    password regular expression, both as predicates on strings. Digits are
    the ASCII digits '0'..'9' (Python's isdigit and \d also accept other
    Unicode digits; that is not modelled). */
module Validation {

  predicate IsAsciiLetter(c: char) { 'A' <= c <= 'Z' || 'a' <= c <= 'z' }

  predicate IsAsciiDigit(c: char) { '0' <= c <= '9' }

  predicate IsPasswordSymbol(c: char) { c in "@$!%*?&" }

  /** A member of the class [A-Za-z\d@$!%*?&]. */
  predicate IsPasswordChar(c: char) { IsAsciiLetter(c) || IsAsciiDigit(c) || IsPasswordSymbol(c) }

  // ---------------------------------------------------------------------------
  // Phone: refused unless it has length 10 and isdigit holds (appmy.py:98)
  // ---------------------------------------------------------------------------

  predicate AllDigits(s: string)
  {
    s == [] || (IsAsciiDigit(s[0]) && AllDigits(s[1..]))
  }

  /** str.isdigit(): true of a non-empty string of digits only. */
  predicate IsDigitString(s: string) { |s| > 0 && AllDigits(s) }

  /** The phone passes the check of the register route. */
  predicate PhoneValid(phone: string)
  {
    !(|phone| != 10 || !IsDigitString(phone))
  }

  lemma {:induction false} AllDigitsIff(s: string)
    ensures AllDigits(s) <==> forall i :: 0 <= i < |s| ==> IsAsciiDigit(s[i])
  {
    if s != [] {
      AllDigitsIff(s[1..]);
      assert forall i :: 1 <= i < |s| ==> s[i] == s[1..][i - 1];
    }
  }

  /** The phone rule in plain words: exactly ten ASCII digits. */
  predicate PhoneRule(phone: string)
  {
    |phone| == 10 && forall i :: 0 <= i < |phone| ==> IsAsciiDigit(phone[i])
  }

  /** The route's check accepts a phone exactly when it is ten ASCII digits. */
  lemma PhoneValidIff(phone: string)
    ensures PhoneValid(phone) <==> PhoneRule(phone)
  {
    AllDigitsIff(phone);
  }

  lemma PhoneExamples()
    ensures PhoneValid("9876543210")
    ensures !PhoneValid("987654321")
    ensures !PhoneValid("98765432ab")
    ensures !PhoneValid("98765432101")
  {
    PhoneValidIff("9876543210");
    PhoneValidIff("98765432ab");
    assert !IsAsciiDigit("98765432ab"[8]);
  }

  // ---------------------------------------------------------------------------
  // Password: three lookaheads, then the allowed class 8 or more times, then '$'
  // (appmy.py:103), applied with re.match
  // ---------------------------------------------------------------------------

  /** The character classes the pattern's lookaheads and body use. */
  datatype CharClass = Letter | Digit | Symbol | Allowed

  predicate InClass(c: char, k: CharClass)
  {
    match k
    case Letter => IsAsciiLetter(c)
    case Digit => IsAsciiDigit(c)
    case Symbol => IsPasswordSymbol(c)
    case Allowed => IsPasswordChar(c)
  }

  /** The lookahead (?=.*[k]) at the start of s: since '.' does not match a
      newline, the scan for a member of k gives up at the first '\n'. */
  predicate LookaheadFinds(s: string, k: CharClass)
  {
    if s == [] then false
    else if InClass(s[0], k) then true
    else if s[0] == '\n' then false
    else LookaheadFinds(s[1..], k)
  }

  /** How far the greedy [A-Za-z\d@$!%*?&]* can run from the start of s. */
  function RunLength(s: string): (n: nat)
    ensures n <= |s|
    ensures forall i :: 0 <= i < n ==> IsPasswordChar(s[i])
    ensures n < |s| ==> !IsPasswordChar(s[n])
  {
    if s == [] || !IsPasswordChar(s[0]) then 0 else 1 + RunLength(s[1..])
  }

  /** Python's '$' after n characters: at the end, or just before a final newline. */
  predicate EndAnchorAt(s: string, n: nat)
  {
    n == |s| || (n + 1 == |s| && s[n] == '\n')
  }

  /** re.match of the password pattern succeeds on s: the three lookaheads
      hold, and the class repeated 8 or more times (backtracking from the
      longest run) ends where '$' can match. */
  predicate PasswordMatches(s: string)
  {
    LookaheadFinds(s, Letter) && LookaheadFinds(s, Digit) && LookaheadFinds(s, Symbol)
    && exists n :: 8 <= n <= RunLength(s) && EndAnchorAt(s, n)
  }

  /** The password rule in plain words: at least 8 characters, all of them
      letters, digits or one of @$!%*?&, with at least one of each kind. */
  predicate PasswordRule(p: string)
  {
    |p| >= 8
    && (forall i :: 0 <= i < |p| ==> IsPasswordChar(p[i]))
    && (exists i :: 0 <= i < |p| && IsAsciiLetter(p[i]))
    && (exists i :: 0 <= i < |p| && IsAsciiDigit(p[i]))
    && (exists i :: 0 <= i < |p| && IsPasswordSymbol(p[i]))
  }

  /** What the register route accepts: the rule, or the rule followed by a
      single trailing newline (the '$' of re.match lets that through). */
  predicate PasswordAccepted(p: string)
  {
    PasswordRule(p) || (|p| > 0 && p[|p| - 1] == '\n' && PasswordRule(p[..|p| - 1]))
  }

  /** The lookahead finds a member of k exactly when one occurs before any newline. */
  lemma {:induction false} LookaheadFindsIff(s: string, k: CharClass)
    ensures LookaheadFinds(s, k) <==>
      exists j :: 0 <= j < |s| && InClass(s[j], k) && forall i :: 0 <= i < j ==> s[i] != '\n'
  {
    if s != [] && !InClass(s[0], k) && s[0] != '\n' {
      LookaheadFindsIff(s[1..], k);
      if LookaheadFinds(s, k) {
        var j :| 0 <= j < |s[1..]| && InClass(s[1..][j], k) && forall i :: 0 <= i < j ==> s[1..][i] != '\n';
        assert InClass(s[j + 1], k);
        assert forall i :: 0 <= i < j + 1 ==> s[i] != '\n' by {
          forall i | 0 <= i < j + 1 ensures s[i] != '\n' {
            if i > 0 { assert s[i] == s[1..][i - 1]; }
          }
        }
      } else {
        forall j | 0 <= j < |s| && InClass(s[j], k)
          ensures exists i :: 0 <= i < j && s[i] == '\n'
        {
          assert j > 0;
          assert InClass(s[1..][j - 1], k);
          var i :| 0 <= i < j - 1 && s[1..][i] == '\n';
          assert s[i + 1] == '\n';
        }
      }
    } else if s != [] && !InClass(s[0], k) {
      forall j | 0 <= j < |s| && InClass(s[j], k)
        ensures exists i :: 0 <= i < j && s[i] == '\n'
      {
        assert j > 0 && s[0] == '\n';
      }
    } else if s != [] {
      assert InClass(s[0], k);
    }
  }

  /** On a prefix of allowed characters followed by nothing or a newline,
      each lookahead finds its class exactly when the prefix contains it. */
  lemma LookaheadOnBody(s: string, m: nat, k: CharClass)
    requires m <= |s|
    requires forall i :: 0 <= i < m ==> IsPasswordChar(s[i])
    requires m == |s| || s[m] == '\n'
    requires k != Allowed
    ensures LookaheadFinds(s, k) <==> exists j :: 0 <= j < m && InClass(s[j], k)
  {
    LookaheadFindsIff(s, k);
    assert forall i :: 0 <= i < m ==> s[i] != '\n' by {
      forall i | 0 <= i < m ensures s[i] != '\n' { assert IsPasswordChar(s[i]); }
    }
  }

  /** The regular expression as re.match applies it accepts exactly the
      plain-words rule, plus that rule followed by one trailing newline. */
  lemma PasswordMatchesIff(s: string)
    ensures PasswordMatches(s) <==> PasswordAccepted(s)
  {
    var r := RunLength(s);
    if PasswordMatches(s) {
      var n :| 8 <= n <= r && EndAnchorAt(s, n);
      LookaheadOnBody(s, n, Letter);
      LookaheadOnBody(s, n, Digit);
      LookaheadOnBody(s, n, Symbol);
      if n == |s| {
        assert PasswordRule(s);
      } else {
        var q := s[..n];
        assert q == s[..|s| - 1];
        assert forall i :: 0 <= i < n ==> q[i] == s[i];
        assert PasswordRule(q);
      }
    }
    if PasswordRule(s) {
      assert r == |s|;
      LookaheadOnBody(s, |s|, Letter);
      LookaheadOnBody(s, |s|, Digit);
      LookaheadOnBody(s, |s|, Symbol);
      assert EndAnchorAt(s, r);
    } else if |s| > 0 && s[|s| - 1] == '\n' && PasswordRule(s[..|s| - 1]) {
      var m := |s| - 1;
      var q := s[..m];
      assert forall i :: 0 <= i < m ==> q[i] == s[i];
      assert !IsPasswordChar(s[m]);
      assert r == m;
      LookaheadOnBody(s, m, Letter);
      LookaheadOnBody(s, m, Digit);
      LookaheadOnBody(s, m, Symbol);
      assert EndAnchorAt(s, r);
    }
  }

  // The examples take the password as a parameter fixed by their requires:
  // with the literal written inline, the verifier unfolds the predicates on
  // it and runs past the resource limit.

  lemma PasswordWithoutSymbolRejected(p: string)
    requires p == "abc12345"
    ensures !PasswordMatches(p)
  {
    PasswordMatchesIff(p);
    assert p[|p| - 1] == '5';
    assert !PasswordRule(p) by {
      forall i | 0 <= i < |p| ensures !IsPasswordSymbol(p[i]) {
        assert p[i] in "abc12345";
      }
    }
  }

  lemma PasswordWithAllKindsAccepted(p: string)
    requires p == "Abc123!@"
    ensures PasswordMatches(p)
  {
    PasswordMatchesIff(p);
    assert IsAsciiLetter(p[0]) && IsAsciiDigit(p[3]) && IsPasswordSymbol(p[6]);
  }

  lemma PasswordWithTrailingNewlineAccepted(p: string)
    requires p == "Abc123!@\n"
    ensures PasswordMatches(p)
  {
    PasswordMatchesIff(p);
    var q := p[..|p| - 1];
    assert q == "Abc123!@";
    assert IsAsciiLetter(q[0]) && IsAsciiDigit(q[3]) && IsPasswordSymbol(q[6]);
  }

  lemma PasswordWithTwoNewlinesRejected(p: string)
    requires p == "Abc123!@\n\n"
    ensures !PasswordMatches(p)
  {
    PasswordMatchesIff(p);
    assert !IsPasswordChar(p[9]);
    assert !IsPasswordChar(p[..|p| - 1][8]);
  }
}
