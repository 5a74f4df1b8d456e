/**
  Numeric string validation shared by the client and the server
  (Project1/utils.h): `string2int` accepts decimal digit strings that fit
  in a C `int`, and `string2ushort` narrows that to a 16-bit port number.

  Both source functions return `bool` and write an out-parameter only on
  success; here they return an `Option`, so a failed call hands back no
  value and the caller's variable keeps whatever it held.
*/
module Utils {
  import opened Wrappers

  /** The largest value of a 32-bit C `int`; `std::stoi` throws `out_of_range` above it. */
  const INT_MAX: int := 0x7FFF_FFFF
  /** The smallest value of a 32-bit C `int`. */
  const INT_MIN: int := -0x8000_0000
  /** The largest value of an `unsigned short`. */
  const USHORT_MAX: int := 0xFFFF

  type UShort = x: int | 0 <= x <= USHORT_MAX

  /** A value of a 32-bit C `int`. */
  type Int32 = x: int | INT_MIN <= x <= INT_MAX

  /** `std::isdigit` in the C locale. */
  predicate IsDigit(c: char) {
    '0' <= c <= '9'
  }

  predicate AllDigits(s: string) {
    forall i :: 0 <= i < |s| ==> IsDigit(s[i])
  }

  function DigitValue(c: char): (d: nat)
    requires IsDigit(c)
    ensures d < 10
  {
    c as int - '0' as int
  }

  function DigitChar(d: nat): (c: char)
    requires d < 10
    ensures IsDigit(c) && DigitValue(c) == d
  {
    ('0' as int + d) as char
  }

  /** The number a digit string denotes, read most significant digit first. */
  function DecimalValue(s: string): nat
    requires AllDigits(s)
  {
    if s == [] then 0 else 10 * DecimalValue(s[..|s| - 1]) + DigitValue(s[|s| - 1])
  }

  /**
    `std::stoi` on a string that holds only digits: no digit at all throws
    `invalid_argument`, a value above INT_MAX throws `out_of_range`; both
    are caught and turned into a failure by `string2int`.
  */
  function Stoi(s: string): Option<int>
    requires AllDigits(s)
  {
    if s == [] then None
    else if DecimalValue(s) > INT_MAX then None
    else Some(DecimalValue(s))
  }

  /** `string2int`: only digits (no sign, no blank), at least one of them, value within `int`. */
  function String2Int(s: string): (r: Option<int>)
    ensures (exists i :: 0 <= i < |s| && !IsDigit(s[i])) ==> r.None?
    ensures r.Some? <==> s != [] && AllDigits(s) && DecimalValue(s) <= INT_MAX
    ensures r.Some? ==> r.value == DecimalValue(s) && 0 <= r.value <= INT_MAX
  {
    if !AllDigits(s) then None else Stoi(s)
  }

  /** `string2ushort`: `string2int` followed by the 0..65535 range check. */
  function String2UShort(s: string): (r: Option<UShort>)
    ensures r.Some? <==> s != [] && AllDigits(s) && DecimalValue(s) <= USHORT_MAX
    ensures r.Some? ==> r.value == DecimalValue(s)
    ensures r.Some? ==> String2Int(s).Some? && String2Int(s).value == r.value
  {
    match String2Int(s)
    case None => None
    case Some(t) => if t < 0 || t > USHORT_MAX then None else Some(t)
  }

  /** `k` zero digits. */
  function Zeros(k: nat): (z: string)
    ensures |z| == k && AllDigits(z)
    ensures forall i :: 0 <= i < k ==> z[i] == '0'
  {
    seq(k, _ => '0')
  }

  /** How many zeros pad the front of `s` before its canonical spelling begins. */
  function LeadingZeros(s: string): (k: nat)
    requires s != []
    ensures k < |s|
  {
    if |s| > 1 && s[0] == '0' then 1 + LeadingZeros(s[1..]) else 0
  }

  /** The canonical decimal spelling of `n`: no leading zero, "0" for zero. */
  function ToDecimal(n: nat): (s: string)
    ensures s != [] && AllDigits(s)
    ensures s[0] != '0' || s == ['0']
  {
    if n < 10 then [DigitChar(n)] else ToDecimal(n / 10) + [DigitChar(n % 10)]
  }

  lemma {:induction false} ZerosValue(k: nat)
    ensures DecimalValue(Zeros(k)) == 0
  {
    if k > 0 {
      assert Zeros(k)[..k - 1] == Zeros(k - 1);
      ZerosValue(k - 1);
    }
  }

  /** Leading zeros contribute nothing to the value. */
  lemma {:induction false} LeadingZerosIgnored(k: nat, s: string)
    requires AllDigits(s)
    ensures AllDigits(Zeros(k) + s)
    ensures DecimalValue(Zeros(k) + s) == DecimalValue(s)
  {
    var t := Zeros(k) + s;
    assert AllDigits(t) by {
      forall i | 0 <= i < |t| ensures IsDigit(t[i]) {
        if i < k { assert t[i] == Zeros(k)[i]; } else { assert t[i] == s[i - k]; }
      }
    }
    if s == [] {
      assert t == Zeros(k);
      ZerosValue(k);
    } else {
      assert t[..|t| - 1] == Zeros(k) + s[..|s| - 1];
      assert t[|t| - 1] == s[|s| - 1];
      LeadingZerosIgnored(k, s[..|s| - 1]);
    }
  }

  /** Reading the canonical spelling back gives the number. */
  lemma {:induction false} DecimalRoundTrip(n: nat)
    ensures DecimalValue(ToDecimal(n)) == n
  {
    var s := ToDecimal(n);
    if n >= 10 {
      assert s[..|s| - 1] == ToDecimal(n / 10);
      DecimalRoundTrip(n / 10);
    }
  }

  /** A digit string with a non-zero first digit is worth at least one. */
  lemma {:induction false} NonZeroLeadPositive(t: string)
    requires t != [] && AllDigits(t) && t[0] != '0'
    ensures DecimalValue(t) >= 1
  {
    if |t| > 1 {
      NonZeroLeadPositive(t[..|t| - 1]);
    }
  }

  /** A digit string without leading zero is the canonical spelling of its value. */
  lemma {:induction false} CanonicalSpelling(t: string)
    requires t != [] && AllDigits(t) && t[0] != '0'
    ensures ToDecimal(DecimalValue(t)) == t
  {
    var v := DecimalValue(t);
    if |t| > 1 {
      var init := t[..|t| - 1];
      NonZeroLeadPositive(init);
      CanonicalSpelling(init);
      assert v / 10 == DecimalValue(init) && v % 10 == DigitValue(t[|t| - 1]);
      assert t == init + [t[|t| - 1]];
    }
  }

  /** Every digit string is its leading zeros followed by the canonical spelling of its value. */
  lemma {:induction false} PaddedCanonical(s: string)
    requires s != [] && AllDigits(s)
    ensures s == Zeros(LeadingZeros(s)) + ToDecimal(DecimalValue(s))
  {
    if s[0] != '0' {
      assert s == Zeros(0) + ToDecimal(DecimalValue(s)) by {
        CanonicalSpelling(s);
        assert s == [] + s;
      }
    } else if |s| == 1 {
      assert s == Zeros(0) + ToDecimal(DecimalValue(s)) by {
        assert s[..0] == [];
        assert s == [s[0]] == ToDecimal(0);
        assert s == [] + s;
      }
    } else {
      var rest := s[1..];
      PaddedCanonical(rest);
      ZeroPadStep(rest);
      assert s == ['0'] + rest;
    }
  }

  /** One more leading zero: padding grows by one and the value stays. */
  lemma ZeroPadStep(rest: string)
    requires rest != [] && AllDigits(rest)
    requires rest == Zeros(LeadingZeros(rest)) + ToDecimal(DecimalValue(rest))
    ensures AllDigits(['0'] + rest)
    ensures ['0'] + rest == Zeros(LeadingZeros(['0'] + rest)) + ToDecimal(DecimalValue(['0'] + rest))
  {
    var s := ['0'] + rest;
    var k := LeadingZeros(rest);
    var digits := ToDecimal(DecimalValue(rest));
    assert s[1..] == rest;
    assert LeadingZeros(s) == k + 1;
    assert DecimalValue(s) == DecimalValue(rest) by {
      LeadingZerosIgnored(1, rest);
      assert s == Zeros(1) + rest;
    }
    assert s == Zeros(k + 1) + digits by {
      var padded := Zeros(k + 1) + digits;
      forall i | 0 <= i < |s| ensures s[i] == padded[i] {
        if i > 0 {
          assert s[i] == rest[i - 1];
        }
      }
      assert |s| == |padded|;
    }
  }

  /**
    `string2int` accepts exactly the zero-padded decimal spellings of the
    numbers 0..INT_MAX: every such spelling yields its number, and every
    accepted string is such a spelling of the value returned.
  */
  lemma String2IntExactly(k: nat, n: nat, s: string)
    ensures String2Int(Zeros(k) + ToDecimal(n)) == if n <= INT_MAX then Some(n) else None
    ensures String2Int(s).Some? ==> s == Zeros(LeadingZeros(s)) + ToDecimal(String2Int(s).value)
  {
    DecimalRoundTrip(n);
    LeadingZerosIgnored(k, ToDecimal(n));
    if String2Int(s).Some? {
      PaddedCanonical(s);
    }
  }

  /** `string2ushort` accepts exactly the zero-padded spellings of 0..65535. */
  lemma String2UShortExactly(k: nat, n: nat)
    ensures String2UShort(Zeros(k) + ToDecimal(n)) == if n <= USHORT_MAX then Some(n) else None
  {
    DecimalRoundTrip(n);
    LeadingZerosIgnored(k, ToDecimal(n));
  }
}
