/**
 * The format test of validarCorreo:
 *   correo.matches("^[A-Za-z0-9+_.-]+@[A-Za-z0-9.-]+\\.[A-Za-z]{2,}$")
 * String.matches anchors the pattern to the whole string.
 */
module EmailPattern {
  import opened Text

  /** `[A-Za-z0-9+_.-]`, the local part's class. */
  predicate IsLocalChar(c: char)
  {
    IsAsciiLetter(c) || IsAsciiDigit(c) || c == '+' || c == '_' || c == '.' || c == '-'
  }

  /** `[A-Za-z0-9.-]`, the domain's class. */
  predicate IsDomainChar(c: char)
  {
    IsAsciiLetter(c) || IsAsciiDigit(c) || c == '.' || c == '-'
  }

  predicate AllLocal(s: string) { forall k :: 0 <= k < |s| ==> IsLocalChar(s[k]) }
  predicate AllDomain(s: string) { forall k :: 0 <= k < |s| ==> IsDomainChar(s[k]) }
  predicate AllLetters(s: string) { forall k :: 0 <= k < |s| ==> IsAsciiLetter(s[k]) }

  /**
   * The pattern's own reading: `s` splits as L '@' D '.' T with the '@' at
   * `at` and the '.' at `dot`, L a non-empty run of local chars, D a
   * non-empty run of domain chars and T two or more letters.
   */
  ghost predicate SplitsAsEmail(s: string, at: int, dot: int)
  {
    && 0 < at && at + 1 < dot && dot + 2 < |s|
    && s[at] == '@' && s[dot] == '.'
    && AllLocal(s[..at]) && AllDomain(s[at + 1..dot]) && AllLetters(s[dot + 1..])
  }

  ghost predicate PatternMatches(s: string)
  {
    exists at, dot :: SplitsAsEmail(s, at, dot)
  }

  /** The index of the first `c` in `s`, or |s| when there is none. */
  function IndexOf(s: string, c: char): (r: nat)
    ensures r <= |s|
    ensures r < |s| ==> s[r] == c
    ensures forall k :: 0 <= k < r ==> s[k] != c
  {
    if s == [] then 0
    else if s[0] == c then 0
    else 1 + IndexOf(s[1..], c)
  }

  /** The index of the last `c` in `s`, or -1 when there is none. */
  function LastIndexOf(s: string, c: char): (r: int)
    ensures -1 <= r < |s|
    ensures r >= 0 ==> s[r] == c
    ensures forall k :: r < k < |s| ==> s[k] != c
  {
    if s == [] then -1
    else if s[|s| - 1] == c then |s| - 1
    else LastIndexOf(s[..|s| - 1], c)
  }

  /**
   * An executable recognizer: the '@' is the first one, the '.' before T is
   * the last one, and the three runs are checked by class.
   */
  predicate IsWellFormedEmail(s: string)
  {
    var at := IndexOf(s, '@');
    var dot := LastIndexOf(s, '.');
    && 0 < at < |s| && at + 1 < dot && dot + 2 < |s|
    && AllLocal(s[..at]) && AllDomain(s[at + 1..]) && AllLetters(s[dot + 1..])
  }

  /** The recognizer accepts exactly the strings the pattern matches. */
  lemma WellFormedIffPatternMatches(s: string)
    ensures IsWellFormedEmail(s) <==> PatternMatches(s)
  {
    var at := IndexOf(s, '@');
    var dot := LastIndexOf(s, '.');
    if IsWellFormedEmail(s) {
      forall k | at + 1 <= k < dot ensures IsDomainChar(s[k]) {
        assert s[k] == s[at + 1..][k - at - 1];
      }
      assert AllDomain(s[at + 1..dot]);
      assert SplitsAsEmail(s, at, dot);
    }
    if PatternMatches(s) {
      var a, d :| SplitsAsEmail(s, a, d);
      forall k | 0 <= k < a ensures s[k] != '@' {
        assert s[k] == s[..a][k];
      }
      forall k | d < k < |s| ensures s[k] != '.' {
        assert s[k] == s[d + 1..][k - d - 1];
      }
      assert at == a && dot == d;
      forall k | a + 1 <= k < |s| ensures IsDomainChar(s[k]) {
        if k < d {
          assert s[k] == s[a + 1..d][k - a - 1];
        } else if k > d {
          assert s[k] == s[d + 1..][k - d - 1];
        }
      }
      assert AllDomain(s[a + 1..]);
    }
  }

  /** A matching string has exactly one '@', the one that ends the local part. */
  lemma WellFormedHasOneAt(s: string)
    requires IsWellFormedEmail(s)
    ensures forall k :: 0 <= k < |s| && s[k] == '@' <==> k == IndexOf(s, '@')
  {
    var at := IndexOf(s, '@');
    DomainFollowsAt(s);
    forall k | 0 <= k < |s|
      ensures s[k] == '@' <==> k == at
    {
      if at < k {
        assert IsDomainChar(s[k]);
      }
    }
  }

  /** In a matching string every char after the first '@' is a domain char. */
  lemma DomainFollowsAt(s: string)
    requires IsWellFormedEmail(s)
    ensures IndexOf(s, '@') < |s|
    ensures forall k :: IndexOf(s, '@') < k < |s| ==> IsDomainChar(s[k])
  {
    var at := IndexOf(s, '@');
    assert AllDomain(s[at + 1..]);
    DomainSuffix(s, at);
  }

  lemma DomainSuffix(s: string, at: nat)
    requires at < |s| && AllDomain(s[at + 1..])
    ensures forall k :: at < k < |s| ==> IsDomainChar(s[k])
  {
    forall k | at < k < |s|
      ensures IsDomainChar(s[k])
    {
      assert s[at + 1..][k - at - 1] == s[k];
    }
  }

  /** A matching string is ASCII, so its Java length() is its number of chars. */
  lemma WellFormedLengthIsChars(s: string)
    requires IsWellFormedEmail(s)
    ensures Utf16Length(s) == |s|
  {
    var at := IndexOf(s, '@');
    LocalPrecedesAt(s);
    DomainFollowsAt(s);
    SplitByAtIsBmp(s, at);
    Utf16LengthOfBmp(s);
  }

  /** Local chars, an '@' and domain chars are all ASCII. */
  lemma SplitByAtIsBmp(s: string, at: nat)
    requires at < |s| && s[at] == '@'
    requires forall k :: 0 <= k < at ==> IsLocalChar(s[k])
    requires forall k :: at < k < |s| ==> IsDomainChar(s[k])
    ensures AllBmp(s)
  {
  }

  /** In a matching string every char before the first '@' is a local char. */
  lemma LocalPrecedesAt(s: string)
    requires IsWellFormedEmail(s)
    ensures forall k :: 0 <= k < IndexOf(s, '@') ==> IsLocalChar(s[k])
  {
    var at := IndexOf(s, '@');
    assert AllLocal(s[..at]);
    LocalPrefix(s, at);
  }

  lemma LocalPrefix(s: string, at: nat)
    requires at <= |s| && AllLocal(s[..at])
    ensures forall k :: 0 <= k < at ==> IsLocalChar(s[k])
  {
    forall k | 0 <= k < at
      ensures IsLocalChar(s[k])
    {
      assert s[..at][k] == s[k];
    }
  }
  /** The shortest matches are six chars long ("a@b.cd"). */
  lemma WellFormedIsAtLeastSix(s: string)
    requires IsWellFormedEmail(s)
    ensures |s| >= 6
  {
  }

  lemma SampleAccepted()
    ensures IsWellFormedEmail("ana@uc.cr")
  {
    assert SplitsAsEmail("ana@uc.cr", 3, 6);
    WellFormedIffPatternMatches("ana@uc.cr");
  }

  /** A top-level domain of one letter is refused. */
  lemma SampleShortSuffixRefused()
    ensures !IsWellFormedEmail("ana@x.c")
  {
    assert LastIndexOf("ana@x.c", '.') == 5;
  }

  /** A second '@' is refused: it belongs to neither class. */
  lemma SampleSecondAtRefused()
    ensures !IsWellFormedEmail("a@b@x.cr")
  {
    assert IndexOf("a@b@x.cr", '@') == 1;
    assert "a@b@x.cr"[2..][1] == '@';
  }
}
