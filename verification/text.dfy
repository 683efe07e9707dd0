/** String helpers shared by the components: ASCII character classes and case
    mapping, `s.split(sep).pop()`, `includes`, `join`, and decimal rendering of
    numbers inside messages. The application's strings are UTF-16; here a
    `char` is one Unicode code point, so a character outside the Basic
    Multilingual Plane counts once rather than as two units. */
module Text {

  predicate IsDigit(c: char) { '0' <= c <= '9' }
  predicate IsUpper(c: char) { 'A' <= c <= 'Z' }
  predicate IsLower(c: char) { 'a' <= c <= 'z' }
  predicate IsLetter(c: char) { IsUpper(c) || IsLower(c) }

  /** ASCII `toLowerCase` of one character; every other character is kept. */
  function LowerChar(c: char): char {
    if IsUpper(c) then (c as int + 32) as char else c
  }

  /** ASCII `toUpperCase` of one character; every other character is kept. */
  function UpperChar(c: char): char {
    if IsLower(c) then (c as int - 32) as char else c
  }

  function Lower(s: string): (r: string)
    ensures |r| == |s|
    ensures forall i :: 0 <= i < |s| ==> r[i] == LowerChar(s[i])
  {
    seq(|s|, i requires 0 <= i < |s| => LowerChar(s[i]))
  }

  /** Lower-casing twice is lower-casing once. */
  lemma {:induction false} LowerIdempotent(s: string)
    ensures Lower(Lower(s)) == Lower(s)
  {
    var l := Lower(s);
    forall i | 0 <= i < |s| ensures Lower(l)[i] == l[i] {
      assert l[i] == LowerChar(s[i]);
    }
  }

  /** Lower-casing never produces a dot. */
  lemma {:induction false} LowerKeepsDot(s: string)
    requires '.' !in s
    ensures '.' !in Lower(s)
  {
    forall i | 0 <= i < |s| ensures Lower(s)[i] != '.' {
      assert s[i] != '.';
    }
  }

  /** The index of the last `sep` in `s`, or -1 when there is none. */
  function LastIndexOf(s: string, sep: char): (i: int)
    ensures -1 <= i < |s|
    ensures i >= 0 ==> s[i] == sep
    ensures forall k :: i < k < |s| ==> s[k] != sep
    decreases |s|
  {
    if |s| == 0 then -1
    else if s[|s| - 1] == sep then |s| - 1
    else
      var init := s[..|s| - 1];
      var i := LastIndexOf(init, sep);
      assert forall k :: i < k < |init| ==> s[k] == init[k];
      i
  }

  /** `s.split(sep).pop()`: the text after the last `sep`, or all of `s` when
      `sep` does not occur. The contract pins the result down uniquely: a
      suffix free of `sep` that is either all of `s` or preceded by `sep`. */
  function AfterLast(s: string, sep: char): (r: string)
    ensures sep !in r
    ensures |r| <= |s| && r == s[|s| - |r|..]
    ensures |r| < |s| ==> s[|s| - |r| - 1] == sep
  {
    var i := LastIndexOf(s, sep);
    AfterIndexFree(s, sep, i);
    s[i + 1..]
  }

  /** Nothing after the last `sep` is a `sep`. */
  lemma {:induction false} AfterIndexFree(s: string, sep: char, i: int)
    requires -1 <= i < |s| && forall k :: i < k < |s| ==> s[k] != sep
    ensures sep !in s[i + 1..]
  {
    var r := s[i + 1..];
    forall k | 0 <= k < |r| ensures r[k] != sep {
      assert r[k] == s[i + 1 + k];
    }
  }

  /** Whatever comes before the last separator does not matter. */
  lemma {:induction false} AfterLastOfJoined(p: string, sep: char, e: string)
    requires sep !in e
    ensures AfterLast(p + [sep] + e, sep) == e
  {
    var s := p + [sep] + e;
    assert s[|p|] == sep;
    forall k | |p| < k < |s| ensures s[k] != sep {
      assert s[k] == e[k - |p| - 1];
    }
    assert LastIndexOf(s, sep) == |p|;
    assert s[|p| + 1..] == e;
  }

  /** Without the separator the whole text is the last segment. */
  lemma {:induction false} AfterLastOfFree(s: string, sep: char)
    requires sep !in s
    ensures AfterLast(s, sep) == s
  {
    forall k | 0 <= k < |s| ensures s[k] != sep {
      assert s[k] in s;
    }
    assert LastIndexOf(s, sep) == -1;
  }

  /** `needle` occurs in `hay` starting at index `i`. */
  predicate OccursAt(hay: string, needle: string, i: nat) {
    i + |needle| <= |hay| && hay[i..i + |needle|] == needle
  }

  /** `hay.includes(needle)`, computed by scanning from the left. */
  function Contains(hay: string, needle: string): bool
    decreases |hay|
  {
    if |needle| > |hay| then false
    else if hay[..|needle|] == needle then true
    else Contains(hay[1..], needle)
  }

  /** The scan agrees with the definition of a substring occurrence. */
  lemma {:induction false} ContainsIsOccurrence(hay: string, needle: string)
    ensures Contains(hay, needle) <==> exists i: nat :: OccursAt(hay, needle, i)
    decreases |hay|
  {
    if |needle| > |hay| {
      forall i: nat ensures !OccursAt(hay, needle, i) { }
    } else if hay[..|needle|] == needle {
      assert OccursAt(hay, needle, 0);
    } else {
      ContainsIsOccurrence(hay[1..], needle);
      if Contains(hay[1..], needle) {
        var i: nat :| OccursAt(hay[1..], needle, i);
        assert hay[i + 1..i + 1 + |needle|] == hay[1..][i..i + |needle|];
        assert OccursAt(hay, needle, i + 1);
      } else {
        forall i: nat | OccursAt(hay, needle, i) ensures false {
          assert i != 0;
          assert hay[1..][i - 1..i - 1 + |needle|] == hay[i..i + |needle|];
          assert OccursAt(hay[1..], needle, i - 1);
        }
      }
    }
  }

  /** `xs.join(sep)`. */
  function Join(xs: seq<string>, sep: string): string {
    if |xs| == 0 then ""
    else if |xs| == 1 then xs[0]
    else xs[0] + sep + Join(xs[1..], sep)
  }

  function DigitChar(d: nat): char
    requires d < 10
  {
    ('0' as int + d) as char
  }

  /** Decimal rendering of a non-negative number, as JavaScript's template
      literals print an integer: no sign, no leading zeros. */
  function NatToString(n: nat): (r: string)
    ensures |r| > 0
    ensures forall i :: 0 <= i < |r| ==> IsDigit(r[i])
    ensures |r| > 1 ==> r[0] != '0'
  {
    if n < 10 then [DigitChar(n)] else NatToString(n / 10) + [DigitChar(n % 10)]
  }

  /** The number a string of decimal digits denotes. */
  function DecimalValue(s: string): nat
    requires forall i :: 0 <= i < |s| ==> IsDigit(s[i])
  {
    if |s| == 0 then 0
    else
      assert IsDigit(s[|s| - 1]);
      DecimalValue(s[..|s| - 1]) * 10 + (s[|s| - 1] as int - '0' as int)
  }

  /** Rendering loses nothing: reading the digits back gives the number. */
  lemma {:induction false} NatToStringRoundTrip(n: nat)
    ensures DecimalValue(NatToString(n)) == n
  {
    if n >= 10 {
      NatToStringRoundTrip(n / 10);
      var s := NatToString(n);
      assert s[..|s| - 1] == NatToString(n / 10);
    }
  }

  /** Distinct numbers are rendered differently. */
  lemma {:induction false} NatToStringInjective(m: nat, n: nat)
    requires NatToString(m) == NatToString(n)
    ensures m == n
  {
    NatToStringRoundTrip(m);
    NatToStringRoundTrip(n);
  }
}
