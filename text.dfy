/**
 * The decimal text of a bigint: which characters are digits, the number a
 * digit string spells, what the string constructor yields (Parsed) and what
 * to_string yields (Render), and the round trips between the two.
 */
module DecimalText {
  import opened Digits

  /** A character the string constructor accepts: in ['0', '0' + BASE). */
  predicate IsDigitChar(c: char) {
    '0' <= c && (c as int) < ('0' as int) + BASE
  }

  predicate AllDigitChars(s: string) {
    forall i :: 0 <= i < |s| ==> IsDigitChar(s[i])
  }

  function CharDigit(c: char): int {
    c as int - '0' as int
  }

  function DigitChar(x: int): char
    requires IsDigit(x)
  {
    (x + '0' as int) as char
  }

  /** The number a string of digit characters spells, most-significant first. */
  function StringValue(s: string): (v: int)
    ensures AllDigitChars(s) ==> v >= 0
  {
    if |s| == 0 then 0 else StringValue(s[..|s| - 1]) * BASE + CharDigit(s[|s| - 1])
  }

  /** The digit values of s in the order of the characters (most significant first). */
  function CharDigits(s: string): seq<int> {
    seq(|s|, i requires 0 <= i < |s| => CharDigit(s[i]))
  }

  /** A string to_string can produce: non-empty, no leading '0' unless it is "0". */
  predicate NoLeadingZero(s: string) {
    |s| >= 1 && (s[0] != '0' || |s| == 1)
  }

  /** What the string constructor yields: the canonical digits of the number
      the string spells, or zero if any character is not a digit of the radix. */
  function Parsed(s: string): (d: seq<int>)
    ensures Canonical(d)
    ensures AllDigitChars(s) ==> Value(d) == StringValue(s)
    ensures !AllDigitChars(s) ==> d == [0]
  {
    if AllDigitChars(s) then DigitsOf(StringValue(s)) else [0]
  }

  /** What to_string yields: one character per digit, most significant first. */
  function Render(d: seq<int>): string
    requires AllDigits(d)
  {
    seq(|d|, i requires 0 <= i < |d| => DigitChar(d[|d| - 1 - i]))
  }

  // ---------------------------------------------------------------------
  // Leading zeros

  lemma {:induction false} ZerosSpellZero(z: string)
    requires forall i :: 0 <= i < |z| ==> z[i] == '0'
    ensures StringValue(z) == 0
  {
    if |z| > 0 {
      ZerosSpellZero(z[..|z| - 1]);
    }
  }

  /** Leading '0' characters do not change the number a string spells. */
  lemma {:induction false} ZeroPrefixIgnored(z: string, t: string)
    requires forall i :: 0 <= i < |z| ==> z[i] == '0'
    ensures StringValue(z + t) == StringValue(t)
  {
    if |t| == 0 {
      assert z + t == z;
      ZerosSpellZero(z);
    } else {
      assert (z + t)[..|z + t| - 1] == z + t[..|t| - 1];
      ZeroPrefixIgnored(z, t[..|t| - 1]);
    }
  }

  /** "007" and "7" construct the same bigint. */
  lemma LeadingZerosIgnored(z: string, t: string)
    requires forall i :: 0 <= i < |z| ==> z[i] == '0'
    ensures Parsed(z + t) == Parsed(t)
  {
    ZeroPrefixIgnored(z, t);
    if AllDigitChars(t) {
      assert AllDigitChars(z + t);
    } else {
      var k :| 0 <= k < |t| && !IsDigitChar(t[k]);
      assert (z + t)[|z| + k] == t[k];
    }
  }

  // ---------------------------------------------------------------------
  // Digits in both orders

  /** Reversing the characters' digit values gives the little-endian
      sequence of the number the string spells. */
  lemma {:induction false} ReversedDigitsValue(s: string)
    requires AllDigitChars(s)
    ensures Value(Reverse(CharDigits(s))) == StringValue(s)
  {
    if |s| > 0 {
      var p := s[..|s| - 1];
      var r := Reverse(CharDigits(s));
      assert r[1..] == Reverse(CharDigits(p));
      ReversedDigitsValue(p);
    }
  }

  /** After the leading '0's of a digit string, the remaining characters,
      reversed into little-endian order and trimmed, are what the string
      constructor yields. */
  lemma ParsedAfterZeros(s: string, start: nat)
    requires start < |s| && AllDigitChars(s)
    requires forall k :: 0 <= k < start ==> s[k] == '0'
    ensures Parsed(s) == Trimmed(Reverse(CharDigits(s[start..])))
  {
    var rest := s[start..];
    assert s == s[..start] + rest;
    ZeroPrefixIgnored(s[..start], rest);
    assert AllDigitChars(rest) by {
      forall k | 0 <= k < |rest| ensures IsDigitChar(rest[k]) {
        assert rest[k] == s[start + k];
      }
    }
    ReversedDigitsValue(rest);
    var e := Reverse(CharDigits(rest));
    assert AllDigits(e) by {
      forall k | 0 <= k < |e| ensures IsDigit(e[k]) {
        assert e[k] == CharDigit(rest[|rest| - 1 - k]);
      }
    }
    TrimmedIsDigitsOf(e);
  }

  /** to_string's characters spell the number the digits denote. */
  lemma {:induction false} RenderValue(d: seq<int>)
    requires AllDigits(d)
    ensures AllDigitChars(Render(d)) && StringValue(Render(d)) == Value(d)
  {
    var r := Render(d);
    forall i | 0 <= i < |r| ensures IsDigitChar(r[i]) {
      assert r[i] == DigitChar(d[|d| - 1 - i]);
      assert CharDigit(r[i]) == d[|d| - 1 - i];
    }
    if |d| > 0 {
      assert AllDigits(d[1..]);
      assert r[..|r| - 1] == Render(d[1..]);
      RenderValue(d[1..]);
      assert r[|r| - 1] == DigitChar(d[0]);
    }
  }

  /** The text of a canonical sequence has no leading zero. */
  lemma RenderNoLeadingZero(d: seq<int>)
    requires Canonical(d)
    ensures NoLeadingZero(Render(d))
  {
    assert Render(d)[0] == DigitChar(d[|d| - 1]);
  }

  // ---------------------------------------------------------------------
  // Round trips

  /** Parsing the text of a canonical sequence gives the sequence back. */
  lemma ParseRender(d: seq<int>)
    requires Canonical(d)
    ensures Parsed(Render(d)) == d
  {
    RenderValue(d);
    CanonicalUnique(d);
  }

  /** A digit string without leading zero survives construction and to_string unchanged. */
  lemma RenderParse(s: string)
    requires AllDigitChars(s) && NoLeadingZero(s)
    ensures Render(Parsed(s)) == s
  {
    var c := CharDigits(s);
    var e := Reverse(c);
    assert |e| == |s| && e[|e| - 1] == c[0];
    forall i | 0 <= i < |e| ensures IsDigit(e[i]) {
      assert e[i] == CharDigit(s[|s| - 1 - i]);
    }
    assert Canonical(e);
    ReversedDigitsValue(s);
    CanonicalUnique(e);
    assert Parsed(s) == e;
    forall i | 0 <= i < |s| ensures Render(e)[i] == s[i] {
      assert e[|e| - 1 - i] == CharDigit(s[i]);
      assert Render(e)[i] == DigitChar(CharDigit(s[i]));
      assert (s[i] as int) as char == s[i];
    }
  }
}
