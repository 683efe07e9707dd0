/** The shared validators for mainland-China mobile numbers, resident
    identity-card numbers and e-mail addresses. Each regular expression is
    written out as a predicate over the string, read as JavaScript reads it:
    anchored at both ends, `\d` meaning the ASCII digits only. */
module Regulars {
  import opened Text

  /** Every character of `s` satisfies `p`. */
  predicate All(s: string, p: char -> bool) {
    forall i :: 0 <= i < |s| ==> p(s[i])
  }

  predicate AllDigits(s: string) {
    All(s, IsDigit)
  }

  // ---------------------------------------------------------------- phone

  /** `^1[3-9]\d{9}$`: eleven digits, the first a 1, the second 3 to 9. */
  function IsValidPhone(s: string): (r: bool)
    ensures r ==> |s| == 11 && AllDigits(s)
  {
    if |s| == 11 && s[0] == '1' && '3' <= s[1] <= '9' && AllDigits(s[2..]) then
      DigitsAfterTwo(s);
      true
    else false
  }

  /** Two leading digits in front of a digit string make a digit string. */
  lemma {:induction false} DigitsAfterTwo(s: string)
    requires |s| >= 2 && IsDigit(s[0]) && IsDigit(s[1]) && AllDigits(s[2..])
    ensures AllDigits(s)
  {
    forall i | 2 <= i < |s| ensures IsDigit(s[i]) {
      assert s[i] == s[2..][i - 2];
    }
  }

  /** 10^n: never zero, a multiple of ten once n > 0, and larger than n. */
  function Pow10(n: nat): (r: nat)
    ensures r >= 1 && r > n
    ensures n > 0 ==> r % 10 == 0
  {
    if n == 0 then 1 else 10 * Pow10(n - 1)
  }

  /** A prefix of a digit string is a digit string. */
  lemma {:induction false} DigitsPrefix(t: string, n: nat)
    requires AllDigits(t) && n <= |t|
    ensures AllDigits(t[..n])
  {
    forall i | 0 <= i < n ensures IsDigit(t[..n][i]) {
      assert t[..n][i] == t[i];
    }
  }

  lemma {:induction false} DigitsConcat(a: string, b: string)
    requires AllDigits(a) && AllDigits(b)
    ensures AllDigits(a + b)
  {
    forall i | 0 <= i < |a + b| ensures IsDigit((a + b)[i]) {
      if i < |a| { assert (a + b)[i] == a[i]; } else { assert (a + b)[i] == b[i - |a|]; }
    }
  }

  /** A string of `n` digits denotes a number below 10^n. */
  lemma {:induction false} DecimalBelowPow10(t: string)
    requires AllDigits(t)
    ensures DecimalValue(t) < Pow10(|t|)
    decreases |t|
  {
    if |t| > 0 {
      var init := t[..|t| - 1];
      DigitsPrefix(t, |t| - 1);
      DecimalBelowPow10(init);
      assert IsDigit(t[|t| - 1]);
      assert DecimalValue(t) <= (Pow10(|init|) - 1) * 10 + 9;
    }
  }

  lemma {:induction false} Regroup(x: int, p: int, y: int, d: int)
    ensures (x * p + y) * 10 + d == x * (10 * p) + (y * 10 + d)
  { }

  /** Reading digits is positional: the digits of `b` are the low ones. */
  lemma {:induction false} DecimalOfConcat(a: string, b: string)
    requires AllDigits(a) && AllDigits(b)
    ensures AllDigits(a + b)
    ensures DecimalValue(a + b) == DecimalValue(a) * Pow10(|b|) + DecimalValue(b)
    decreases |b|
  {
    DigitsConcat(a, b);
    if |b| == 0 {
      assert a + b == a;
    } else {
      var ab := a + b;
      var init := b[..|b| - 1];
      DigitsPrefix(b, |b| - 1);
      assert ab[..|ab| - 1] == a + init;
      assert ab[|ab| - 1] == b[|b| - 1];
      DecimalOfConcat(a, init);
      var d := b[|b| - 1] as int - '0' as int;
      assert DecimalValue(ab) == DecimalValue(a + init) * 10 + d;
      assert DecimalValue(b) == DecimalValue(init) * 10 + d;
      Regroup(DecimalValue(a), Pow10(|init|), DecimalValue(init), d);
    }
  }

  /** The valid numbers are exactly the eleven-digit numerals of the numbers
      13 000 000 000 to 19 999 999 999. */
  lemma {:induction false} PhoneRange(s: string)
    requires |s| == 11 && AllDigits(s)
    ensures IsValidPhone(s) <==> 13_000_000_000 <= DecimalValue(s) < 20_000_000_000
  {
    var head, tail := s[..2], s[2..];
    assert s == head + tail;
    DigitsPrefix(s, 2);
    assert AllDigits(tail) by {
      forall i | 0 <= i < |tail| ensures IsDigit(tail[i]) { assert tail[i] == s[i + 2]; }
    }
    DecimalOfConcat(head, tail);
    DecimalBelowPow10(tail);
    assert Pow10(9) == 1_000_000_000 by {
      assert Pow10(3) == 1000;
      assert Pow10(6) == 1000 * 1000 by { assert Pow10(6) == 1000 * Pow10(3); }
      assert Pow10(9) == 1000 * Pow10(6);
    }
    assert head[..1] == [s[0]] && [s[0]][..0] == [];
    assert DecimalValue([s[0]]) == s[0] as int - '0' as int;
    var d0, d1 := s[0] as int - '0' as int, s[1] as int - '0' as int;
    assert DecimalValue(head) == d0 * 10 + d1;
    assert IsDigit(s[0]) && IsDigit(s[1]);
    LeadingDigits(d0, d1, DecimalValue(tail));
  }

  /** An eleven-digit number with leading digits `d0 d1` and the nine-digit
      rest `t` lies in [13e9, 20e9) exactly when `d0 d1` is 13 to 19. */
  lemma {:induction false} LeadingDigits(d0: int, d1: int, t: int)
    requires 0 <= d0 <= 9 && 0 <= d1 <= 9 && 0 <= t < 1_000_000_000
    ensures var n := (d0 * 10 + d1) * 1_000_000_000 + t;
      13_000_000_000 <= n < 20_000_000_000 <==> d0 == 1 && 3 <= d1 <= 9
  {
    var v := d0 * 10 + d1;
    var n := v * 1_000_000_000 + t;
    if 13 <= v < 20 {
      assert 13 * 1_000_000_000 <= v * 1_000_000_000 <= 19 * 1_000_000_000;
    } else if v < 13 {
      assert v * 1_000_000_000 <= 12 * 1_000_000_000;
    } else {
      assert v * 1_000_000_000 >= 20 * 1_000_000_000;
    }
  }

  lemma {:induction false} PhoneExamples()
    ensures IsValidPhone("13812345678")
    ensures !IsValidPhone("12812345678") && !IsValidPhone("1381234567")
  {
    assert AllDigits("13812345678"[2..]) by {
      var t := "13812345678"[2..];
      assert t == "812345678";
    }
  }

  // -------------------------------------------------------------- ID card

  predicate IsCheckChar(c: char) {
    IsDigit(c) || c == 'X' || c == 'x'
  }

  /** `(^\d{15}$)|(^\d{18}$)|(^\d{17}(\d|X|x)$)`, alternative by alternative. */
  function IsValidIdCard(s: string): (r: bool)
    ensures r ==> (|s| == 15 || |s| == 18) && IsCheckChar(s[|s| - 1])
  {
    || (|s| == 15 && AllDigits(s))
    || (|s| == 18 && AllDigits(s))
    || (|s| == 18 && AllDigits(s[..17]) && IsCheckChar(s[17]))
  }

  /** The same set, described by length: fifteen digits, or seventeen digits
      and a check character that is a digit or an X of either case. */
  lemma {:induction false} IdCardByLength(s: string)
    ensures IsValidIdCard(s) <==>
      (|s| == 15 && AllDigits(s)) || (|s| == 18 && AllDigits(s[..17]) && IsCheckChar(s[17]))
    ensures IsValidIdCard(s) ==> |s| == 15 || |s| == 18
  {
    if |s| == 18 && AllDigits(s) {
      assert IsDigit(s[17]);
      DigitsPrefix(s, 17);
    }
  }

  // --------------------------------------------------------------- e-mail

  predicate IsLocalChar(c: char) {
    IsLetter(c) || IsDigit(c) || c in "._%+-"
  }

  predicate IsDomainChar(c: char) {
    IsLetter(c) || IsDigit(c) || c in ".-"
  }

  /** One way to match `^[a-zA-Z0-9._%+-]+@[a-zA-Z0-9.-]+\.[a-zA-Z]{2,}$`:
      the '@' at `i` and the '.' before the final letters at `j`. */
  ghost predicate EmailSplit(s: string, i: int, j: int) {
    && 0 < i && i + 1 < j && j + 2 < |s|
    && s[i] == '@' && s[j] == '.'
    && All(s[..i], IsLocalChar)
    && All(s[i + 1..j], IsDomainChar)
    && All(s[j + 1..], IsLetter)
  }

  /** The pattern matches: some split exists. */
  ghost predicate MatchesEmailPattern(s: string) {
    exists i, j :: EmailSplit(s, i, j)
  }

  /** `isValidEmail`, decided without search: the final letters are what
      follows the last '.', and the domain is what lies between the last '@'
      and that dot. */
  function IsValidEmail(s: string): (r: bool)
    ensures r ==> |s| >= 6 && '@' in s && '.' in s
  {
    var top := AfterLast(s, '.');
    |top| < |s| && |top| >= 2 && All(top, IsLetter) &&
    var before := s[..|s| - |top| - 1];
    var domain := AfterLast(before, '@');
    var i := |before| - |domain| - 1;
    |domain| < |before| && |domain| >= 1 && i > 0 &&
    All(domain, IsDomainChar) && All(before[..i], IsLocalChar)
  }

  /** The decision agrees with the regular expression on every string. */
  lemma {:induction false} EmailDecision(s: string)
    ensures IsValidEmail(s) <==> MatchesEmailPattern(s)
  {
    if IsValidEmail(s) {
      var top := AfterLast(s, '.');
      var j := |s| - |top| - 1;
      var before := s[..j];
      var domain := AfterLast(before, '@');
      var i := |before| - |domain| - 1;
      assert s[..i] == before[..i];
      assert s[i + 1..j] == domain;
      assert s[j + 1..] == top;
      assert EmailSplit(s, i, j);
    }
    if MatchesEmailPattern(s) {
      var i, j :| EmailSplit(s, i, j);
      SplitIsDecided(s, i, j);
    }
  }

  /** A character that fails `p` does not occur where all characters pass. */
  lemma {:induction false} Excluded(t: string, p: char -> bool, c: char)
    requires All(t, p) && !p(c)
    ensures c !in t
  {
    forall k | 0 <= k < |t| ensures t[k] != c {
      assert p(t[k]);
    }
  }

  /** A split is the one the decision finds. */
  lemma {:induction false} SplitIsDecided(s: string, i: int, j: int)
    requires EmailSplit(s, i, j)
    ensures IsValidEmail(s)
  {
    var top, before, domain := s[j + 1..], s[..j], s[i + 1..j];
    assert All(top, IsLetter) && All(domain, IsDomainChar) && All(s[..i], IsLocalChar);
    LastSegmentAt(s, j, '.', IsLetter);
    assert before == s[..|s| - |top| - 1];
    assert before[i + 1..] == domain && before[..i] == s[..i];
    LastSegmentAt(before, i, '@', IsDomainChar);
    DecidedBy(s, top, before, domain, i);
  }

  /** The decision's conditions, each given as a fact of its own. */
  lemma {:induction false} DecidedBy(s: string, top: string, before: string, domain: string, i: int)
    requires top == AfterLast(s, '.') && 2 <= |top| < |s| && All(top, IsLetter)
    requires before == s[..|s| - |top| - 1]
    requires domain == AfterLast(before, '@') && 1 <= |domain| < |before|
    requires i == |before| - |domain| - 1 && i > 0
    requires All(domain, IsDomainChar) && All(before[..i], IsLocalChar)
    ensures IsValidEmail(s)
  { }

  /** When the characters after a `sep` at `j` all pass a test that `sep`
      fails, they are the last `sep`-separated segment. */
  lemma {:induction false} LastSegmentAt(s: string, j: int, sep: char, p: char -> bool)
    requires 0 <= j < |s| && s[j] == sep && All(s[j + 1..], p) && !p(sep)
    ensures AfterLast(s, sep) == s[j + 1..]
  {
    Excluded(s[j + 1..], p, sep);
    assert s == s[..j] + [sep] + s[j + 1..];
    AfterLastOfJoined(s[..j], sep, s[j + 1..]);
  }

  /** A valid address holds exactly one '@'. */
  lemma {:induction false} ValidEmailHasOneAt(s: string)
    requires IsValidEmail(s)
    ensures exists i :: 0 <= i < |s| && s[i] == '@' && forall k :: 0 <= k < |s| && s[k] == '@' ==> k == i
  {
    EmailDecision(s);
    var i, j :| EmailSplit(s, i, j);
    forall k | 0 <= k < |s| && k != i ensures s[k] != '@' {
      if k < i {
        assert IsLocalChar(s[..i][k]);
        assert s[..i][k] == s[k];
      } else if k < j {
        assert IsDomainChar(s[i + 1..j][k - i - 1]);
        assert s[i + 1..j][k - i - 1] == s[k];
      } else if k > j {
        assert IsLetter(s[j + 1..][k - j - 1]);
        assert s[j + 1..][k - j - 1] == s[k];
      }
    }
  }

  lemma {:induction false} EmailExample()
    ensures IsValidEmail("a.b@example.com")
  {
    var s := "a.b@example.com";
    assert s[..3] == "a.b" && s[4..11] == "example" && s[12..] == "com";
    assert EmailSplit(s, 3, 11);
    SplitIsDecided(s, 3, 11);
  }
}
