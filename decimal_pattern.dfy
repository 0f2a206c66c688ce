/** The "decimal-looking" test: the .NET regular expression
    `^[+-]?(\d+.)?\d+$` written as a recognizer over characters, together with
    a declarative statement of the language it describes.

    Regex semantics modelled: `.` is any character but '\n' (it is not escaped,
    so it is not only a dot); `\d` is an ASCII digit; `$` matches at the end of
    the text and also just before a '\n' that ends it.

    A Dafny `char` is a Unicode scalar value, while .NET's regex engine reads
    UTF-16 code units. A character outside the Basic Multilingual Plane is two
    code units there: `.` could take only its first half, and no part of the
    pattern takes the second. So `.` matches only a character that is a single
    code unit. */
module DecimalPattern {

  predicate IsDigit(c: char) {
    '0' <= c <= '9'
  }

  /** A character .NET stores as one UTF-16 code unit. */
  predicate IsSingleCodeUnit(c: char) {
    (c as int) < 0x1_0000
  }

  /** What the unescaped `.` matches. */
  predicate IsAnyChar(c: char) {
    c != '\n' && IsSingleCodeUnit(c)
  }

  predicate AllDigits(s: string) {
    forall i :: 0 <= i < |s| ==> IsDigit(s[i])
  }

  // ---------------------------------------------------------------------
  // The language of the pattern, piece by piece.

  /** `[+-]?` */
  ghost predicate IsSign(t: string) {
    t == [] || t == "+" || t == "-"
  }

  /** `\d+` */
  ghost predicate IsDigits(t: string) {
    |t| > 0 && AllDigits(t)
  }

  /** `(\d+.)?` */
  ghost predicate IsIntegerPart(t: string) {
    t == [] || (|t| >= 2 && IsDigits(t[..|t| - 1]) && IsAnyChar(t[|t| - 1]))
  }

  /** `(\d+.)?\d+` */
  ghost predicate IsUnsigned(t: string) {
    exists j :: 0 <= j <= |t| && IsIntegerPart(t[..j]) && IsDigits(t[j..])
  }

  /** `[+-]?(\d+.)?\d+` */
  ghost predicate IsBody(s: string) {
    exists i :: 0 <= i <= |s| && IsSign(s[..i]) && IsUnsigned(s[i..])
  }

  /** `^[+-]?(\d+.)?\d+$`, with `$` also matching before a final '\n'. */
  ghost predicate MatchesPattern(s: string) {
    IsBody(s) || (|s| > 0 && s[|s| - 1] == '\n' && IsBody(s[..|s| - 1]))
  }

  // ---------------------------------------------------------------------
  // The recognizer.

  /** Index of the first non-digit of `t`, or |t| when there is none. */
  function FirstNonDigit(t: string): (k: nat)
    ensures k <= |t|
    ensures AllDigits(t[..k])
    ensures k < |t| ==> !IsDigit(t[k])
  {
    if t == [] then 0
    else if !IsDigit(t[0]) then 0
    else
      var k := 1 + FirstNonDigit(t[1..]);
      assert t[..k] == [t[0]] + t[1..][..k - 1];
      k
  }

  /** `(\d+.)?\d+`: either digits only, or one non-digit that `.` matches with
      digits on both sides. A digit in the place of `.` is covered by "digits
      only". */
  function UnsignedMatch(t: string): bool {
    var k := FirstNonDigit(t);
    if k == |t| then |t| > 0
    else 1 <= k && k + 1 < |t| && IsAnyChar(t[k]) && AllDigits(t[k + 1..])
  }

  function BodyMatch(s: string): bool {
    if |s| > 0 && (s[0] == '+' || s[0] == '-') then UnsignedMatch(s[1..]) else UnsignedMatch(s)
  }

  /** ValueComparer.IsDecimalString. Digits alone are accepted; whatever is
      accepted starts with a sign or a digit. (`IsDecimalStringCorrect` gives
      the exact language.) */
  function IsDecimalString(s: string): (r: bool)
    ensures |s| > 0 && AllDigits(s) ==> r
    ensures r ==> |s| > 0 && (IsDigit(s[0]) || s[0] == '+' || s[0] == '-')
  {
    assert |s| > 0 && AllDigits(s) ==> BodyMatch(s) by {
      if |s| > 0 && AllDigits(s) {
        assert !(s[0] == '+' || s[0] == '-');
        assert FirstNonDigit(s) == |s|;
      }
    }
    BodyMatch(s) || (|s| > 0 && s[|s| - 1] == '\n' && BodyMatch(s[..|s| - 1]))
  }

  // ---------------------------------------------------------------------
  // The recognizer decides exactly the language of the pattern.

  lemma UnsignedMatchCorrect(t: string)
    ensures UnsignedMatch(t) <==> IsUnsigned(t)
  {
    var k := FirstNonDigit(t);
    if UnsignedMatch(t) {
      if k == |t| {
        assert t[..k] == t;
        assert t[..0] == [] && t[0..] == t;
      } else {
        assert t[..k + 1][..k] == t[..k];
        assert IsIntegerPart(t[..k + 1]);
        assert IsDigits(t[k + 1..]);
      }
    }
    if IsUnsigned(t) {
      var j :| 0 <= j <= |t| && IsIntegerPart(t[..j]) && IsDigits(t[j..]);
      // every character but the one at j - 1 is a digit
      assert forall i :: 0 <= i < |t| && i != j - 1 ==> IsDigit(t[i]) by {
        forall i | 0 <= i < |t| && i != j - 1 ensures IsDigit(t[i]) {
          if i < j - 1 {
            assert t[..j][..j - 1][i] == t[i];
          } else {
            assert t[j..][i - j] == t[i];
          }
        }
      }
      if j == 0 || IsDigit(t[j - 1]) {
        assert k == |t|;
      } else {
        assert k == j - 1;
        assert t[..j][j - 1] == t[j - 1];
        assert t[k + 1..] == t[j..];
      }
    }
  }

  lemma BodyMatchCorrect(s: string)
    ensures BodyMatch(s) <==> IsBody(s)
  {
    if |s| > 0 && (s[0] == '+' || s[0] == '-') {
      UnsignedMatchCorrect(s[1..]);
      if BodyMatch(s) {
        assert IsSign(s[..1]) by { assert s[..1] == [s[0]]; }
      }
      if IsBody(s) {
        var i :| 0 <= i <= |s| && IsSign(s[..i]) && IsUnsigned(s[i..]);
        if i == 0 {
          // the unsigned part would start with the sign character
          assert s[0..] == s;
          UnsignedStartsWithDigit(s);
        }
        assert i == 1;
      }
    } else {
      UnsignedMatchCorrect(s);
      if BodyMatch(s) {
        assert s[..0] == [] && s[0..] == s;
      }
      if IsBody(s) {
        var i :| 0 <= i <= |s| && IsSign(s[..i]) && IsUnsigned(s[i..]);
        if i > 0 {
          assert s[..i][0] == s[0];
        }
        assert s[0..] == s;
      }
    }
  }

  lemma UnsignedStartsWithDigit(t: string)
    requires IsUnsigned(t)
    ensures |t| > 0 && IsDigit(t[0])
  {
  }

  /** IsDecimalString accepts exactly the strings the pattern matches. */
  lemma IsDecimalStringCorrect(s: string)
    ensures IsDecimalString(s) <==> MatchesPattern(s)
  {
    BodyMatchCorrect(s);
    if |s| > 0 {
      BodyMatchCorrect(s[..|s| - 1]);
    }
  }

  // ---------------------------------------------------------------------
  // Texts read by the recognizer.

  /** The unescaped `.` takes any one code unit but '\n': "1a5" looks decimal,
      while a character that needs two code units cannot stand in for it. */
  lemma DotIsOneCodeUnit()
    ensures IsDecimalString("1a5")
    ensures !IsDecimalString("1\U{1F600}5")
  {
    assert FirstNonDigit("1a5") == 1 by {
      assert "1a5"[1..] == "a5";
    }
    assert FirstNonDigit("1\U{1F600}5") == 1 by {
      assert "1\U{1F600}5"[1..] == "\U{1F600}5";
    }
  }

  lemma FourTexts()
    ensures IsDecimalString("4.00") && IsDecimalString("4.0")
  {
    assert FirstNonDigit("4.00") == 1 by { assert "4.00"[1..] == ".00"; }
    assert FirstNonDigit("4.0") == 1 by { assert "4.0"[1..] == ".0"; }
  }

  lemma FourteenHundredTexts()
    ensures IsDecimalString("1400.00") && IsDecimalString("1400")
  {
    assert FirstNonDigit("1400.00") == 4 by {
      assert "1400.00"[1..] == "400.00" && "400.00"[1..] == "00.00";
      assert "00.00"[1..] == "0.00" && "0.00"[1..] == ".00";
    }
    assert "1400.00"[5..] == "00";
    assert FirstNonDigit("1400") == 4 by {
      assert "1400"[1..] == "400" && "400"[1..] == "00" && "00"[1..] == "0" && "0"[1..] == "";
    }
  }

  lemma OneTexts()
    ensures IsDecimalString("1.0") && IsDecimalString("1.00") && !IsDecimalString("1.0 ")
  {
    assert FirstNonDigit("1.0 ") == 1 by { assert "1.0 "[1..] == ".0 "; }
    assert !AllDigits("1.0 "[2..]) by { assert "1.0 "[2..][1] == ' '; }
  }
}
