/**
 * The accept-conditions of the re-prompt loops solicitarNombre,
 * solicitarCorreo, solicitarRol, solicitarPassword and solicitarTelefono.
 * UILogin and UI.UIUsuario carry identical copies of them. Each function
 * takes one line read by Scanner.nextLine() and returns the value the loop
 * would return for it, or None when the loop would prompt again.
 */
module Prompts {
  import opened Outcomes
  import opened Text
  import opened EmailPattern

  // ------------------------------------------------------------------ name

  /** The trimmed line, when 2 to 50 UTF-16 units long and `.*\d.*` does not match it. */
  function AcceptName(line: string): (r: Option<string>)
    ensures r.Some? ==> r.value == Trim(line) && 2 <= Utf16Length(r.value) <= 50
  {
    var name := Trim(line);
    if name == [] || Utf16Length(name) < 2 || Utf16Length(name) > 50 || MatchesSomewhere(name, IsAsciiDigit) then None
    else Some(name)
  }

  /** For a line with no line terminator, a name is accepted iff its trimmed form is 2 to 50 UTF-16 units and digit-free. */
  lemma AcceptNameOnOneLine(line: string)
    requires NoLineTerminator(line)
    ensures AcceptName(line).Some? <==>
              && 2 <= Utf16Length(Trim(line)) <= 50
              && forall k :: 0 <= k < |Trim(line)| ==> !IsAsciiDigit(Trim(line)[k])
  {
    TrimOfOneLine(line);
    MatchesSomewhereOnOneLine(Trim(line), IsAsciiDigit);
  }

  lemma TrimOfOneLine(line: string)
    requires NoLineTerminator(line)
    ensures NoLineTerminator(Trim(line))
  {
    var i := TrimSplitsInput(line);
    forall k | 0 <= k < |Trim(line)| ensures !IsLineTerminator(Trim(line)[k]) {
      assert Trim(line)[k] == line[i + k];
    }
  }

  // ----------------------------------------------------------------- email

  /** The untrimmed line, when 6 to 100 UTF-16 units long and holding both an '@' and a '.'. */
  function AcceptEmail(line: string): (r: Option<string>)
    ensures r.Some? <==> 6 <= Utf16Length(line) <= 100 && '@' in line && '.' in line
    ensures r.Some? ==> r.value == line
  {
    if line == [] || Utf16Length(line) < 6 || Utf16Length(line) > 100 || '@' !in line || '.' !in line then None
    else Some(line)
  }

  /** Every address of at most 100 chars that validarCorreo's pattern accepts passes the prompt too. */
  lemma WellFormedPassesPrompt(s: string)
    requires IsWellFormedEmail(s) && |s| <= 100
    ensures AcceptEmail(s) == Some(s)
  {
    WellFormedIsAtLeastSix(s);
    WellFormedLengthIsChars(s);
    assert s[IndexOf(s, '@')] == '@';
    assert s[LastIndexOf(s, '.')] == '.';
  }

  /** The prompt is looser than the pattern: it lets through an address the pattern refuses. */
  lemma PromptAcceptsMalformed()
    ensures AcceptEmail("@@@@.@") == Some("@@@@.@")
    ensures !IsWellFormedEmail("@@@@.@")
  {
    assert "@@@@.@"[0] == '@' && "@@@@.@"[4] == '.';
    assert IndexOf("@@@@.@", '@') == 0;
  }

  // ------------------------------------------------------------------ role

  /** The three roles the prompt offers, in lower case. */
  predicate IsRole(s: string)
  {
    s == "estudiante" || s == "funcionario" || s == "administrador"
  }

  /** The lower-cased line, when it is one of the three roles. */
  function AcceptRole(line: string): (r: Option<string>)
    ensures r.Some? ==> r.value == ToLower(line) && IsRole(r.value)
    ensures r.Some? ==> IsLowerCase(r.value)
  {
    var role := ToLower(line);
    ToLowerIsLowerCase(line);
    if role != "estudiante" && role != "funcionario" && role != "administrador" then None
    else Some(role)
  }

  lemma RolesAreLowerCase()
    ensures ToLower("estudiante") == "estudiante"
    ensures ToLower("funcionario") == "funcionario"
    ensures ToLower("administrador") == "administrador"
  {
    assert IsLowerCase("estudiante") && IsLowerCase("funcionario") && IsLowerCase("administrador");
    ToLowerIsLowerCase("estudiante");
    ToLowerIsLowerCase("funcionario");
    ToLowerIsLowerCase("administrador");
  }

  /** A role is accepted iff the line equals one of the three roles ignoring case. */
  lemma AcceptRoleIffEqualsIgnoringCase(line: string)
    ensures AcceptRole(line).Some? <==>
              || EqualsIgnoreCase(line, "estudiante")
              || EqualsIgnoreCase(line, "funcionario")
              || EqualsIgnoreCase(line, "administrador")
  {
    RolesAreLowerCase();
    EqualsIgnoreCaseIffSameLower(line, "estudiante");
    EqualsIgnoreCaseIffSameLower(line, "funcionario");
    EqualsIgnoreCaseIffSameLower(line, "administrador");
  }

  // -------------------------------------------------------------- password

  /** `[!@#$%^&*()_+\-=\[\]{};':"\\|,.<>\/?]`, the class of required symbols. */
  predicate IsPasswordSymbol(c: char)
  {
    c in "!@#$%^&*()_+-=[]{};':\"\\|,.<>/?"
  }

  /** The trimmed line, when at least 8 UTF-16 units long and each of the four classes matches somewhere. */
  function AcceptPassword(line: string): (r: Option<string>)
    ensures r.Some? ==> r.value == Trim(line) && Utf16Length(r.value) >= 8
  {
    var password := Trim(line);
    if || Utf16Length(password) < 8
       || !MatchesSomewhere(password, IsAsciiUpper)
       || !MatchesSomewhere(password, IsAsciiLower)
       || !MatchesSomewhere(password, IsAsciiDigit)
       || !MatchesSomewhere(password, IsPasswordSymbol)
    then None
    else Some(password)
  }

  predicate HasCharIn(s: string, cls: char -> bool)
  {
    exists k :: 0 <= k < |s| && cls(s[k])
  }

  /**
   * For a line with no line terminator, a password is accepted iff its
   * trimmed form has 8 or more UTF-16 units, an upper-case letter, a lower-case
   * letter, a digit and a symbol.
   */
  lemma AcceptPasswordOnOneLine(line: string)
    requires NoLineTerminator(line)
    ensures AcceptPassword(line).Some? <==>
              var p := Trim(line);
              && Utf16Length(p) >= 8
              && HasCharIn(p, IsAsciiUpper) && HasCharIn(p, IsAsciiLower)
              && HasCharIn(p, IsAsciiDigit) && HasCharIn(p, IsPasswordSymbol)
  {
    var p := Trim(line);
    TrimOfOneLine(line);
    MatchesSomewhereOnOneLine(p, IsAsciiUpper);
    MatchesSomewhereOnOneLine(p, IsAsciiLower);
    MatchesSomewhereOnOneLine(p, IsAsciiDigit);
    MatchesSomewhereOnOneLine(p, IsPasswordSymbol);
  }

  /** A line with no blank at either end is its own trimmed form. */
  lemma TrimOfUnpadded(s: string)
    requires s != [] && !IsTrimmable(s[0]) && !IsTrimmable(s[|s| - 1])
    ensures Trim(s) == s
  {
  }

  lemma SampleStrongPassword(good: string)
    requires good == "Password1!"
    ensures AcceptPassword(good) == Some(good)
  {
    TrimOfUnpadded(good);
    assert NoLineTerminator(good);
    AcceptPasswordOnOneLine(good);
    assert IsAsciiUpper(good[0]) && IsAsciiLower(good[1]) && IsAsciiDigit(good[8]) && IsPasswordSymbol(good[9]);
  }

  /** Six chars, two of them emoji, make eight UTF-16 units: long enough. */
  lemma SampleEmojiPassword(good: string)
    requires good == "Aa1!\U{1F600}\U{1F600}"
    ensures AcceptPassword(good) == Some(good)
  {
    TrimOfUnpadded(good);
    assert NoLineTerminator(good);
    assert good[..5][..4] == good[..4] == "Aa1!";
    assert AllBmp(good[..4]);
    Utf16LengthOfBmp(good[..4]);
    assert Utf16Length(good) == 8;
    AcceptPasswordOnOneLine(good);
    assert IsAsciiUpper(good[0]) && IsAsciiLower(good[1]) && IsAsciiDigit(good[2]) && IsPasswordSymbol(good[3]);
  }

  /** A password without an upper-case letter is refused. */
  lemma SampleLowerCasePasswordRefused(bad: string)
    requires bad == "alllower1!"
    ensures AcceptPassword(bad) == None
  {
    TrimOfUnpadded(bad);
    assert NoLineTerminator(bad);
    assert IsLowerCase(bad);
    assert !HasCharIn(bad, IsAsciiUpper);
    AcceptPasswordOnOneLine(bad);
  }

  // ----------------------------------------------------------------- phone

  /** The trimmed line, when exactly 8 ASCII digits remain once every non-digit is removed. */
  function AcceptPhone(line: string): (r: Option<string>)
    ensures r.Some? ==> r.value == Trim(line)
    ensures r.Some? <==> |Digits(line)| == 8
  {
    var phone := Trim(line);
    TrimKeepsDigits(line);
    if |Digits(phone)| != 8 then None else Some(phone)
  }

  /** A separator between the two halves does not matter. */
  lemma SampleHyphenatedPhone()
    ensures AcceptPhone("1234-5678") == Some("1234-5678")
  {
    TrimOfUnpadded("1234-5678");
  }

  /** Six digits are refused. */
  lemma SampleShortPhoneRefused()
    ensures AcceptPhone("123456") == None
  {
    TrimOfUnpadded("123456");
  }
}
