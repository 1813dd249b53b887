/** `Itoa` and `Atoi` of package `internal/uint128`: the same conversions as
    `Int.String` and `NewFromString`, as free functions. */
module Strconv {
  import opened Bits
  import opened Wrappers
  import opened Decimal
  import opened UInt128

  /** `Itoa`: the canonical base-10 form of the value. */
  function Itoa(x: Int): (r: string)
    ensures Canonical(r)
    ensures DigitsValue(r) == Value(x)
  {
    String(x)
  }

  /** `Atoi`: anything but a base-10 integer is ErrInvalidString, a number
      of 2^128 or more is ErrOverflow, anything else is its value. */
  function Atoi(s: string): (r: (Int, Option<Error>))
    ensures !IsDecimal(s) ==> r == (Zero, Some(ErrInvalidString))
    ensures IsDecimal(s) && DigitsValue(s) >= TWO128 ==> r == (Zero, Some(ErrOverflow))
    ensures IsDecimal(s) && DigitsValue(s) < TWO128 ==> r.1 == None && Value(r.0) == DigitsValue(s)
  {
    NewFromString(s)
  }

  /** Parsing the printed form gives the number back. */
  lemma AtoiItoa(x: Int)
    ensures Atoi(Itoa(x)) == (x, None)
  {
    ValueInjective(Atoi(Itoa(x)).0, x);
  }

  /** Printing a parsed canonical decimal gives the string back. */
  lemma ItoaAtoi(s: string)
    requires Canonical(s) && DigitsValue(s) < TWO128
    ensures Atoi(s).1 == None && Itoa(Atoi(s).0) == s
  {
    CanonicalUnique(s);
  }

  /** Leading zeros are accepted and ignored. */
  lemma AtoiLeadingZero(s: string)
    requires IsDecimal(s)
    ensures Atoi("0" + s) == Atoi(s)
  {
    LeadingZero(s);
    var a, b := Atoi("0" + s), Atoi(s);
    if DigitsValue(s) < TWO128 {
      ValueInjective(a.0, b.0);
    }
  }

  /** The cases of the package's test table, with the long literals written
      as the canonical forms of 2^128 - 1 and 2^128. The largest value
      parses; one more is an overflow that yields Zero. */
  lemma StrconvCases()
    ensures Atoi("") == (Zero, Some(ErrInvalidString))
    ensures Atoi("0") == (Zero, None) && Itoa(Zero) == "0"
    ensures Atoi(ToDecimal(TWO128 - 1)) == (Max, None)
    ensures Atoi(ToDecimal(TWO128)) == (Zero, Some(ErrOverflow))
  {
    assert "0"[..0] == [];
    ValueInjective(Atoi("0").0, Zero);
    ValueInjective(Atoi(ToDecimal(TWO128 - 1)).0, Max);
    assert ToDecimal(0) == "0" by {
      assert [DigitChar(0)] == "0";
    }
  }
}
