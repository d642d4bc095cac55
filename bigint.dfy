/**
 * lab_bigint::bigint: an arbitrary-precision non-negative integer held as a
 * little-endian sequence of base-BASE digits in canonical form. Binary
 * operators build a new object; the compound operators and the increment and
 * decrement operators overwrite the receiver's digits.
 */
module Bigint {
  import opened Digits
  import opened DecimalText
  import opened MachineInt

  class BigInt {
    var digits: seq<int>

    /** The class invariant: every constructor establishes it and every operation keeps it. */
    ghost predicate Valid()
      reads this
    {
      Canonical(digits)
    }

    /** trim: pops most-significant zero digits while more than one digit is left. */
    method Trim()
      modifies this
      ensures digits == Trimmed(old(digits))
    {
      while |digits| > 1 && digits[|digits| - 1] == 0
        invariant Trimmed(digits) == Trimmed(old(digits))
        decreases |digits|
      {
        digits := digits[..|digits| - 1];
      }
    }

    /** The default constructor: zero. */
    constructor ()
      ensures Valid() && digits == [0]
    {
      digits := [0];
    }

    /** The string constructor. Leading '0's are skipped; a string that is
        empty or all '0' gives zero, and so does any character outside
        ['0', '0' + BASE) after them. */
    constructor FromString(str: string)
      ensures Valid() && digits == Parsed(str)
    {
      digits := [];
      new;
      if |str| == 0 {
        digits := digits + [0];
        return;
      }
      var start := 0;
      while start < |str| && str[start] == '0'
        invariant 0 <= start <= |str|
        invariant forall k :: 0 <= k < start ==> str[k] == '0'
      {
        start := start + 1;
      }
      if start == |str| {
        assert AllDigitChars(str);
        ZerosSpellZero(str);
        digits := digits + [0];
        return;
      }
      var i := start;
      while i < |str|
        invariant start <= i <= |str|
        invariant digits == CharDigits(str[start..i])
        invariant AllDigitChars(str[..i])
      {
        if str[i] < '0' || str[i] as int >= BASE + '0' as int {
          assert !IsDigitChar(str[i]);
          digits := [];
          digits := digits + [0];
          return;
        }
        assert str[start..i + 1] == str[start..i] + [str[i]];
        digits := digits + [str[i] as int - '0' as int];
        i := i + 1;
      }
      assert str[..i] == str;
      ParsedAfterZeros(str, start);
      digits := Reverse(digits);
      Trim();
    }

    /** The unsigned int constructor: repeatedly takes value % BASE and divides by BASE. */
    constructor FromUnsigned(value: UInt32)
      ensures Valid() && digits == DigitsOf(value)
    {
      digits := [];
      new;
      if value == 0 {
        digits := digits + [0];
      } else {
        var v: nat := value;
        while v > 0
          invariant digits + Expand(v) == Expand(value)
        {
          ExpandStep(digits, v);
          digits := digits + [v % BASE];
          v := v / BASE;
        }
        assert digits + [] == digits;
      }
    }

    /** operator==: equal digit sequences, which under the invariant means equal numbers. */
    function Equals(other: BigInt): (r: bool)
      reads this, other
      requires Valid() && other.Valid()
      ensures r <==> Value(digits) == Value(other.digits)
    {
      SameDigitsIffSameValue(digits, other.digits);
      digits == other.digits
    }

    /** operator!= */
    function NotEquals(other: BigInt): (r: bool)
      reads this, other
      requires Valid() && other.Valid()
      ensures r <==> Value(digits) != Value(other.digits)
    {
      !Equals(other)
    }

    /** operator<: fewer digits is smaller; at equal lengths the
        most-significant differing digit decides. */
    method Less(other: BigInt) returns (r: bool)
      requires Valid() && other.Valid()
      ensures r == LexLess(digits, other.digits)
      ensures r <==> Value(digits) < Value(other.digits)
    {
      LexLessIsValueLess(digits, other.digits);
      if |digits| != |other.digits| {
        return |digits| < |other.digits|;
      }
      var i := |digits| - 1;
      while i >= 0
        invariant -1 <= i < |digits|
        invariant LexLessBelow(digits, other.digits, i + 1) == LexLess(digits, other.digits)
      {
        if digits[i] != other.digits[i] {
          return digits[i] < other.digits[i];
        }
        i := i - 1;
      }
      return false;
    }

    /** operator<=: less or equal. */
    method LessOrEqual(other: BigInt) returns (r: bool)
      requires Valid() && other.Valid()
      ensures r <==> Value(digits) <= Value(other.digits)
    {
      var lt := Less(other);
      r := lt || Equals(other);
    }

    /** operator>: not less or equal. */
    method Greater(other: BigInt) returns (r: bool)
      requires Valid() && other.Valid()
      ensures r <==> Value(digits) > Value(other.digits)
    {
      var le := LessOrEqual(other);
      r := !le;
    }

    /** operator>=: not less. */
    method GreaterOrEqual(other: BigInt) returns (r: bool)
      requires Valid() && other.Valid()
      ensures r <==> Value(digits) >= Value(other.digits)
    {
      var lt := Less(other);
      r := !lt;
    }

    /** to_string: "0" for zero, otherwise one character per digit, most significant first. */
    method ToString() returns (s: string)
      requires Valid()
      ensures s == Render(digits)
      ensures NoLeadingZero(s) && AllDigitChars(s) && StringValue(s) == Value(digits)
    {
      RenderValue(digits);
      RenderNoLeadingZero(digits);
      if |digits| == 0 || (|digits| == 1 && digits[0] == 0) {
        assert Render(digits) == [DigitChar(0)];
        return "0";
      }
      s := "";
      var i := |digits|;
      while i > 0
        invariant 0 <= i <= |digits|
        invariant |s| == |digits| - i
        invariant forall k :: 0 <= k < |s| ==> s[k] == DigitChar(digits[|digits| - 1 - k])
      {
        i := i - 1;
        s := s + [(digits[i] + '0' as int) as char];
      }
    }

    /** operator unsigned int: folds the digits from the most significant one
        as value * BASE + digit in unsigned arithmetic, i.e. modulo 2^32. */
    method ToUnsigned() returns (value: UInt32)
      ensures value == Value(digits) % WORD
    {
      value := 0;
      var i := |digits|;
      while i > 0
        invariant 0 <= i <= |digits|
        invariant value == Value(digits[i..]) % WORD
      {
        i := i - 1;
        assert digits[i..][1..] == digits[i + 1..];
        FoldStep(Value(digits[i + 1..]), digits[i]);
        value := (value * BASE + digits[i]) % WORD;
      }
      assert digits[0..] == digits;
    }

    /** operator+: schoolbook addition with carry. */
    method Plus(other: BigInt) returns (result: BigInt)
      requires Valid() && other.Valid()
      ensures fresh(result) && result.Valid()
      ensures result.digits == DigitsOf(Value(digits) + Value(other.digits))
      ensures |result.digits| <= Max(|digits|, |other.digits|) + 1
    {
      result := new BigInt();
      var sum: seq<int> := [];
      var carry := 0;
      var maxSize := Max(|digits|, |other.digits|);
      var i := 0;
      while i < maxSize || carry != 0
        invariant 0 <= i <= maxSize + 1
        invariant |sum| == i && AllDigits(sum)
        invariant 0 <= carry <= 1
        invariant i == maxSize + 1 ==> carry == 0
        invariant Value(sum + [carry]) == PrefixValue(digits, i) + PrefixValue(other.digits, i)
        decreases maxSize + 1 - i
      {
        ghost var before, c := sum, carry;
        if i == |sum| {
          sum := sum + [0];
        }
        if i < |digits| {
          sum := sum[i := sum[i] + digits[i]];
        }
        if i < |other.digits| {
          sum := sum[i := sum[i] + other.digits[i]];
        }
        sum := sum[i := sum[i] + carry];
        ghost var column := sum[i];
        assert sum == before + [column];
        assert column == DigitAt(digits, i) + DigitAt(other.digits, i) + c;
        carry := sum[i] / BASE;
        sum := sum[i := sum[i] % BASE];
        assert sum == before + [column % BASE];
        AddStep(digits, other.digits, before, c, column, i);
        i := i + 1;
      }
      ValueAppendZero(sum);
      PrefixValueWhole(digits, i);
      PrefixValueWhole(other.digits, i);
      TrimmedIsDigitsOf(sum);
      result.digits := sum;
      result.Trim();
    }

    /** operator-: schoolbook subtraction with borrow, saturating at zero. */
    method Minus(other: BigInt) returns (result: BigInt)
      requires Valid() && other.Valid()
      ensures fresh(result) && result.Valid()
      ensures result.digits == DigitsOf(if Value(digits) < Value(other.digits) then 0 else Value(digits) - Value(other.digits))
    {
      var less := Less(other);
      if less {
        result := new BigInt.FromUnsigned(0);
        return;
      }
      result := new BigInt();
      result.digits := [];
      var borrow := 0;
      var i := 0;
      while i < |digits|
        invariant 0 <= i <= |digits|
        invariant |result.digits| == i && AllDigits(result.digits)
        invariant 0 <= borrow <= 1
        invariant Value(result.digits + [-borrow]) == PrefixValue(digits, i) - PrefixValue(other.digits, i)
      {
        ghost var before, b := result.digits, borrow;
        var sub := digits[i] - borrow;
        if i < |other.digits| {
          sub := sub - other.digits[i];
        }
        if sub < 0 {
          sub := sub + BASE;
          borrow := 1;
        } else {
          borrow := 0;
        }
        SubtractStep(digits, other.digits, before, sub, b, borrow, i);
        result.digits := result.digits + [sub];
        i := i + 1;
      }
      assert |other.digits| <= |digits|;
      PrefixValueWhole(digits, i);
      PrefixValueWhole(other.digits, i);
      NoFinalBorrow(result.digits, borrow);
      ValueAppendZero(result.digits);
      TrimmedIsDigitsOf(result.digits);
      result.Trim();
    }

    /** operator+=: the receiver becomes this + other. */
    method AddAssign(other: BigInt)
      requires Valid() && other.Valid()
      modifies this
      ensures Valid() && digits == DigitsOf(Value(old(digits)) + Value(old(other.digits)))
    {
      var sum := Plus(other);
      digits := sum.digits;
    }

    /** operator-=: the receiver becomes this - other, saturating at zero. */
    method SubtractAssign(other: BigInt)
      requires Valid() && other.Valid()
      modifies this
      ensures Valid()
      ensures digits == DigitsOf(if Value(old(digits)) < Value(old(other.digits)) then 0 else Value(old(digits)) - Value(old(other.digits)))
    {
      var difference := Minus(other);
      digits := difference.digits;
    }

    /** Prefix operator++: adds one in place. */
    method PreIncrement()
      requires Valid()
      modifies this
      ensures Valid() && digits == DigitsOf(Value(old(digits)) + 1)
    {
      var one := new BigInt.FromUnsigned(1);
      AddAssign(one);
    }

    /** Postfix operator++: adds one in place and returns a copy taken before. */
    method PostIncrement() returns (temp: BigInt)
      requires Valid()
      modifies this
      ensures fresh(temp) && temp.digits == old(digits)
      ensures Valid() && digits == DigitsOf(Value(old(digits)) + 1)
    {
      temp := new BigInt();
      temp.digits := digits;
      PreIncrement();
    }

    /** Prefix operator--: subtracts one in place; zero stays zero. */
    method PreDecrement()
      requires Valid()
      modifies this
      ensures Valid() && digits == DigitsOf(if Value(old(digits)) == 0 then 0 else Value(old(digits)) - 1)
    {
      var one := new BigInt.FromUnsigned(1);
      SubtractAssign(one);
    }

    /** Postfix operator--: subtracts one in place and returns a copy taken before. */
    method PostDecrement() returns (temp: BigInt)
      requires Valid()
      modifies this
      ensures fresh(temp) && temp.digits == old(digits)
      ensures Valid() && digits == DigitsOf(if Value(old(digits)) == 0 then 0 else Value(old(digits)) - 1)
    {
      temp := new BigInt();
      temp.digits := digits;
      PreDecrement();
    }
  }

  /** One step of the unsigned constructor's loop: emitting v % BASE and
      continuing with v / BASE produces the same digits. */
  lemma ExpandStep(done: seq<int>, v: nat)
    requires v > 0
    ensures done + Expand(v) == (done + [v % BASE]) + Expand(v / BASE)
  {
    var d, e := [v % BASE], Expand(v / BASE);
    calc {
      done + Expand(v);
      done + (d + e);
      (done + d) + e;
    }
  }

  /** One step of the unsigned fold: reducing the accumulator modulo 2^32
      before the step gives the same residue as reducing after it. */
  lemma FoldStep(x: int, d: int)
    ensures ((x % WORD) * BASE + d) % WORD == (x * BASE + d) % WORD
  {
    var q := x / WORD;
    assert x * BASE + d == ((x % WORD) * BASE + d) + (q * BASE) * WORD;
  }

  // -----------------------------------------------------------------------
  // Round trips through the class

  /** An unsigned int survives the unsigned constructor and operator unsigned int. */
  method UnsignedRoundTrip(value: UInt32) returns (back: UInt32)
    ensures back == value
  {
    var b := new BigInt.FromUnsigned(value);
    back := b.ToUnsigned();
  }

  /** A digit string without leading zero survives the string constructor and to_string. */
  method StringRoundTrip(s: string) returns (back: string)
    requires AllDigitChars(s) && NoLeadingZero(s)
    ensures back == s
  {
    var b := new BigInt.FromString(s);
    RenderParse(s);
    back := b.ToString();
  }

  // -----------------------------------------------------------------------
  // The friend comparisons with an unsigned int operand: the operand is
  // first turned into a bigint, in either argument order.

  method EqualsUnsigned(lhs: BigInt, rhs: UInt32) returns (r: bool)
    requires lhs.Valid()
    ensures r <==> Value(lhs.digits) == rhs
  {
    var other := new BigInt.FromUnsigned(rhs);
    r := lhs.Equals(other);
  }

  method UnsignedEquals(lhs: UInt32, rhs: BigInt) returns (r: bool)
    requires rhs.Valid()
    ensures r <==> lhs == Value(rhs.digits)
  {
    var other := new BigInt.FromUnsigned(lhs);
    r := other.Equals(rhs);
  }

  method NotEqualsUnsigned(lhs: BigInt, rhs: UInt32) returns (r: bool)
    requires lhs.Valid()
    ensures r <==> Value(lhs.digits) != rhs
  {
    var eq := EqualsUnsigned(lhs, rhs);
    r := !eq;
  }

  method UnsignedNotEquals(lhs: UInt32, rhs: BigInt) returns (r: bool)
    requires rhs.Valid()
    ensures r <==> lhs != Value(rhs.digits)
  {
    var eq := UnsignedEquals(lhs, rhs);
    r := !eq;
  }

  method LessUnsigned(lhs: BigInt, rhs: UInt32) returns (r: bool)
    requires lhs.Valid()
    ensures r <==> Value(lhs.digits) < rhs
  {
    var other := new BigInt.FromUnsigned(rhs);
    r := lhs.Less(other);
  }

  method UnsignedLess(lhs: UInt32, rhs: BigInt) returns (r: bool)
    requires rhs.Valid()
    ensures r <==> lhs < Value(rhs.digits)
  {
    var other := new BigInt.FromUnsigned(lhs);
    r := other.Less(rhs);
  }

  method LessOrEqualUnsigned(lhs: BigInt, rhs: UInt32) returns (r: bool)
    requires lhs.Valid()
    ensures r <==> Value(lhs.digits) <= rhs
  {
    var other := new BigInt.FromUnsigned(rhs);
    r := lhs.LessOrEqual(other);
  }

  method UnsignedLessOrEqual(lhs: UInt32, rhs: BigInt) returns (r: bool)
    requires rhs.Valid()
    ensures r <==> lhs <= Value(rhs.digits)
  {
    var other := new BigInt.FromUnsigned(lhs);
    r := other.LessOrEqual(rhs);
  }

  method GreaterUnsigned(lhs: BigInt, rhs: UInt32) returns (r: bool)
    requires lhs.Valid()
    ensures r <==> Value(lhs.digits) > rhs
  {
    var other := new BigInt.FromUnsigned(rhs);
    r := lhs.Greater(other);
  }

  method UnsignedGreater(lhs: UInt32, rhs: BigInt) returns (r: bool)
    requires rhs.Valid()
    ensures r <==> lhs > Value(rhs.digits)
  {
    var other := new BigInt.FromUnsigned(lhs);
    r := other.Greater(rhs);
  }

  method GreaterOrEqualUnsigned(lhs: BigInt, rhs: UInt32) returns (r: bool)
    requires lhs.Valid()
    ensures r <==> Value(lhs.digits) >= rhs
  {
    var other := new BigInt.FromUnsigned(rhs);
    r := lhs.GreaterOrEqual(other);
  }

  method UnsignedGreaterOrEqual(lhs: UInt32, rhs: BigInt) returns (r: bool)
    requires rhs.Valid()
    ensures r <==> lhs >= Value(rhs.digits)
  {
    var other := new BigInt.FromUnsigned(lhs);
    r := other.GreaterOrEqual(rhs);
  }

  // -----------------------------------------------------------------------
  // The friend + and - with an int operand: the int converts implicitly to
  // unsigned int (modulo 2^32) and then to a bigint.

  method IntPlus(lhs: Int32, rhs: BigInt) returns (r: BigInt)
    requires rhs.Valid()
    ensures fresh(r) && r.Valid() && r.digits == DigitsOf(Unsigned(lhs) + Value(rhs.digits))
  {
    var other := new BigInt.FromUnsigned(Unsigned(lhs));
    r := other.Plus(rhs);
  }

  method PlusInt(lhs: BigInt, rhs: Int32) returns (r: BigInt)
    requires lhs.Valid()
    ensures fresh(r) && r.Valid() && r.digits == DigitsOf(Value(lhs.digits) + Unsigned(rhs))
  {
    var other := new BigInt.FromUnsigned(Unsigned(rhs));
    r := lhs.Plus(other);
  }

  method IntMinus(lhs: Int32, rhs: BigInt) returns (r: BigInt)
    requires rhs.Valid()
    ensures fresh(r) && r.Valid()
    ensures r.digits == DigitsOf(if Unsigned(lhs) < Value(rhs.digits) then 0 else Unsigned(lhs) - Value(rhs.digits))
  {
    var other := new BigInt.FromUnsigned(Unsigned(lhs));
    r := other.Minus(rhs);
  }

  method MinusInt(lhs: BigInt, rhs: Int32) returns (r: BigInt)
    requires lhs.Valid()
    ensures fresh(r) && r.Valid()
    ensures r.digits == DigitsOf(if Value(lhs.digits) < Unsigned(rhs) then 0 else Value(lhs.digits) - Unsigned(rhs))
  {
    var other := new BigInt.FromUnsigned(Unsigned(rhs));
    r := lhs.Minus(other);
  }
}
