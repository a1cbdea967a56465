/**
 * The java.lang.String operations the help-desk rules are built from:
 * trim(), toLowerCase(), equalsIgnoreCase(), replaceAll("[^\\d]", "")
 * and matches(".*[C].*"). Case mapping is restricted to ASCII.
 */
module Text {

  predicate IsAsciiUpper(c: char) { 'A' <= c <= 'Z' }
  predicate IsAsciiLower(c: char) { 'a' <= c <= 'z' }
  predicate IsAsciiLetter(c: char) { IsAsciiUpper(c) || IsAsciiLower(c) }

  /** `\d` and `[0-9]` in a Java pattern compiled without UNICODE_CHARACTER_CLASS. */
  predicate IsAsciiDigit(c: char) { '0' <= c <= '9' }

  // ---------------------------------------------------------------- trim

  /** String.trim() strips every leading and trailing char whose code is at most U+0020. */
  predicate IsTrimmable(c: char) { c <= ' ' }

  predicate AllTrimmable(s: string) { forall k :: 0 <= k < |s| ==> IsTrimmable(s[k]) }

  /** The first loop of trim(): from `st`, skip forward over blanks. */
  function SkipLeading(s: string, st: nat): (r: nat)
    requires st <= |s|
    ensures st <= r <= |s|
    ensures forall k :: st <= k < r ==> IsTrimmable(s[k])
    ensures r == |s| || !IsTrimmable(s[r])
    decreases |s| - st
  {
    if st < |s| && IsTrimmable(s[st]) then SkipLeading(s, st + 1) else st
  }

  /** The second loop of trim(): from `len`, step back over blanks, never past `st`. */
  function SkipTrailing(s: string, st: nat, len: nat): (r: nat)
    requires st <= len <= |s|
    ensures st <= r <= len
    ensures forall k :: r <= k < len ==> IsTrimmable(s[k])
    ensures r == st || !IsTrimmable(s[r - 1])
    decreases len
  {
    if st < len && IsTrimmable(s[len - 1]) then SkipTrailing(s, st, len - 1) else len
  }

  /** String.trim(): the text between the two loops' stopping points. */
  function Trim(s: string): (r: string)
    ensures |r| <= |s|
    ensures r == [] || (!IsTrimmable(r[0]) && !IsTrimmable(r[|r| - 1]))
  {
    var st := SkipLeading(s, 0);
    s[st..SkipTrailing(s, st, |s|)]
  }

  /** trim() removes exactly a run of blanks on each side: `s == blanks + Trim(s) + blanks`. */
  lemma TrimSplitsInput(s: string) returns (i: nat)
    ensures i + |Trim(s)| <= |s|
    ensures s == s[..i] + Trim(s) + s[i + |Trim(s)|..]
    ensures AllTrimmable(s[..i]) && AllTrimmable(s[i + |Trim(s)|..])
  {
    i := SkipLeading(s, 0);
    var len := SkipTrailing(s, i, |s|);
    assert Trim(s) == s[i..len];
    assert s == s[..i] + s[i..len] + s[len..];
  }

  /** Trimming twice is trimming once. */
  lemma TrimIdempotent(s: string)
    ensures Trim(Trim(s)) == Trim(s)
  {
    var r := Trim(s);
    assert SkipLeading(r, 0) == 0;
    assert SkipTrailing(r, 0, |r|) == |r|;
    assert r[0..|r|] == r;
  }

  // -------------------------------------------------------------- length()

  /** A char of the Basic Multilingual Plane, which Java stores as one UTF-16 unit. */
  predicate IsBmp(c: char) { c as int < 0x1_0000 }

  predicate AllBmp(s: string) { forall k :: 0 <= k < |s| ==> IsBmp(s[k]) }

  /**
   * String.length(): the number of UTF-16 units, so a char outside the
   * Basic Multilingual Plane (a surrogate pair) counts twice.
   */
  function Utf16Length(s: string): (n: nat)
    ensures |s| <= n <= 2 * |s|
  {
    if s == [] then 0 else Utf16Length(s[..|s| - 1]) + (if IsBmp(s[|s| - 1]) then 1 else 2)
  }

  /** On text within the Basic Multilingual Plane, length() counts chars. */
  lemma {:induction false} Utf16LengthOfBmp(s: string)
    requires AllBmp(s)
    ensures Utf16Length(s) == |s|
  {
    if s != [] {
      assert AllBmp(s[..|s| - 1]);
      Utf16LengthOfBmp(s[..|s| - 1]);
    }
  }

  /** One emoji is two UTF-16 units. */
  lemma EmojiIsTwoUnits(e: string)
    requires e == "\U{1F600}"
    ensures |e| == 1 && Utf16Length(e) == 2
  {
    assert e[..0] == [];
  }

  // ---------------------------------------------------------- case mapping

  /** Character.toLowerCase on ASCII letters; every other char is unchanged. */
  function LowerChar(c: char): char
  {
    if IsAsciiUpper(c) then (c as int + 32) as char else c
  }

  /** Character.toUpperCase on ASCII letters; every other char is unchanged. */
  function UpperChar(c: char): char
  {
    if IsAsciiLower(c) then (c as int - 32) as char else c
  }

  predicate IsLowerCase(s: string) { forall k :: 0 <= k < |s| ==> !IsAsciiUpper(s[k]) }

  /** String.toLowerCase(), char by char. */
  function ToLower(s: string): (r: string)
    ensures |r| == |s|
    ensures forall k :: 0 <= k < |s| ==> r[k] == LowerChar(s[k])
  {
    if s == [] then [] else [LowerChar(s[0])] + ToLower(s[1..])
  }

  /** toLowerCase() yields a lower-case string and leaves lower-case strings alone. */
  lemma ToLowerIsLowerCase(s: string)
    ensures IsLowerCase(ToLower(s))
    ensures ToLower(s) == s <==> IsLowerCase(s)
    ensures ToLower(ToLower(s)) == ToLower(s)
  {
    if IsLowerCase(s) {
      assert forall k :: 0 <= k < |s| ==> ToLower(s)[k] == s[k];
    }
    assert forall k :: 0 <= k < |s| ==> ToLower(ToLower(s))[k] == ToLower(s)[k];
  }

  /** The per-char test of String.regionMatches(ignoreCase = true), on which equalsIgnoreCase rests. */
  predicate CharsEqualIgnoreCase(a: char, b: char)
  {
    a == b || UpperChar(a) == UpperChar(b) || LowerChar(UpperChar(a)) == LowerChar(UpperChar(b))
  }

  /** String.equalsIgnoreCase for non-null arguments. */
  predicate EqualsIgnoreCase(a: string, b: string)
  {
    |a| == |b| && forall k :: 0 <= k < |a| ==> CharsEqualIgnoreCase(a[k], b[k])
  }

  lemma CharsEqualIgnoreCaseIffSameLower(a: char, b: char)
    ensures CharsEqualIgnoreCase(a, b) <==> LowerChar(a) == LowerChar(b)
  {
  }

  /** equalsIgnoreCase holds exactly when both strings lower-case to the same string. */
  lemma EqualsIgnoreCaseIffSameLower(a: string, b: string)
    ensures EqualsIgnoreCase(a, b) <==> ToLower(a) == ToLower(b)
  {
    if |a| == |b| {
      forall k | 0 <= k < |a|
        ensures CharsEqualIgnoreCase(a[k], b[k]) <==> ToLower(a)[k] == ToLower(b)[k]
      {
        CharsEqualIgnoreCaseIffSameLower(a[k], b[k]);
      }
      if ToLower(a) == ToLower(b) {
        assert forall k :: 0 <= k < |a| ==> ToLower(a)[k] == ToLower(b)[k];
      }
    } else {
      assert |ToLower(a)| != |ToLower(b)|;
    }
  }

  // ---------------------------------------------------------- digits only

  /** s.replaceAll("[^\\d]", ""): the ASCII digits of `s`, in order. */
  function Digits(s: string): (r: string)
    ensures |r| <= |s|
    ensures forall k :: 0 <= k < |r| ==> IsAsciiDigit(r[k])
  {
    if s == [] then [] else (if IsAsciiDigit(s[0]) then [s[0]] else []) + Digits(s[1..])
  }

  lemma {:induction false} DigitsAppend(a: string, b: string)
    ensures Digits(a + b) == Digits(a) + Digits(b)
  {
    if a == [] {
      assert a + b == b;
    } else {
      assert (a + b)[0] == a[0];
      assert (a + b)[1..] == a[1..] + b;
      DigitsAppend(a[1..], b);
    }
  }

  lemma {:induction false} DigitsOfBlanks(s: string)
    requires AllTrimmable(s)
    ensures Digits(s) == []
  {
    if s != [] {
      DigitsOfBlanks(s[1..]);
    }
  }

  /** replaceAll keeps each digit as often as `s` holds it, and nothing else. */
  lemma {:induction false} DigitsCountEveryDigit(s: string, c: char)
    ensures multiset(Digits(s))[c] == if IsAsciiDigit(c) then multiset(s)[c] else 0
  {
    if s != [] {
      DigitsCountEveryDigit(s[1..], c);
      assert s == [s[0]] + s[1..];
      assert multiset(s) == multiset([s[0]]) + multiset(s[1..]);
    }
  }

  /** trim() only removes blanks, so it never changes the digits of a string. */
  lemma TrimKeepsDigits(s: string)
    ensures Digits(Trim(s)) == Digits(s)
  {
    var i := TrimSplitsInput(s);
    var r := Trim(s);
    var before, after := s[..i], s[i + |r|..];
    assert s == before + r + after;
    DigitsAppend(before + r, after);
    DigitsAppend(before, r);
    DigitsOfBlanks(before);
    DigitsOfBlanks(after);
  }

  // ------------------------------------------------- matches(".*[C].*")

  /** The chars a Java `.` refuses when DOTALL is off. */
  predicate IsLineTerminator(c: char)
  {
    c == '\n' || c == '\r' || c == '\U{0085}' || c == '\U{2028}' || c == '\U{2029}'
  }

  predicate NoLineTerminator(s: string) { forall k :: 0 <= k < |s| ==> !IsLineTerminator(s[k]) }

  /**
   * s.matches(".*[C].*") where `cls` is the class C: the whole of `s` is
   * some `.*`, one char of C, and some `.*`.
   */
  predicate MatchesSomewhere(s: string, cls: char -> bool)
  {
    exists i :: 0 <= i < |s| && cls(s[i]) && NoLineTerminator(s[..i]) && NoLineTerminator(s[i + 1..])
  }

  /** On a line that holds no line terminator, ".*[C].*" just asks for one char of C. */
  lemma MatchesSomewhereOnOneLine(s: string, cls: char -> bool)
    requires NoLineTerminator(s)
    ensures MatchesSomewhere(s, cls) <==> exists k :: 0 <= k < |s| && cls(s[k])
  {
    if k :| 0 <= k < |s| && cls(s[k]) {
      assert NoLineTerminator(s[..k]) && NoLineTerminator(s[k + 1..]);
    }
  }

  /** A line terminator anywhere makes ".*[C].*" fail, whatever C is. */
  lemma LineTerminatorDefeatsMatch(s: string, cls: char -> bool, t: nat)
    requires t < |s| && IsLineTerminator(s[t])
    requires forall c :: cls(c) ==> !IsLineTerminator(c)
    ensures !MatchesSomewhere(s, cls)
  {
    forall i | 0 <= i < |s|
      ensures !(cls(s[i]) && NoLineTerminator(s[..i]) && NoLineTerminator(s[i + 1..]))
    {
      if t < i {
        assert s[..i][t] == s[t];
      } else if t > i {
        assert s[i + 1..][t - i - 1] == s[t];
      }
    }
  }
}
