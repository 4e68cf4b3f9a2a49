/** The part of Go's `strconv` package the option parsers use: Atoi, and
    Itoa as its inverse. Go's `int` is taken to be 64 bits wide. */
module GoStrconv {
  import opened Wrappers

  /** The range of int64, which is also that of int on 64-bit platforms. */
  const MinInt64: int := -0x8000_0000_0000_0000
  const MaxInt64: int := 0x7fff_ffff_ffff_ffff

  predicate InInt64(v: int)
  {
    MinInt64 <= v <= MaxInt64
  }

  predicate IsDigit(c: char)
  {
    '0' <= c <= '9'
  }

  predicate AllDigits(d: string)
  {
    forall k :: 0 <= k < |d| ==> IsDigit(d[k])
  }

  /** The value of a decimal digit string, most significant digit first. */
  function DecimalValue(d: string): nat
    requires AllDigits(d)
  {
    if d == [] then 0
    else DecimalValue(d[..|d| - 1]) * 10 + (d[|d| - 1] as int - '0' as int)
  }

  /** strconv.Atoi: an optional sign and at least one decimal digit, and a
      value inside the int range; anything else is an error (None). A
      value out of range is an error as well. */
  function Atoi(s: string): (r: Option<int>)
    ensures r.Some? ==> InInt64(r.value)
  {
    var digits := if |s| > 0 && (s[0] == '+' || s[0] == '-') then s[1..] else s;
    if |digits| == 0 || !AllDigits(digits) then None
    else
      var v: int := DecimalValue(digits);
      var n := if |s| > 0 && s[0] == '-' then -v else v;
      if InInt64(n) then Some(n) else None
  }

  /** The decimal digits of a natural number, without leading zeros. */
  function FormatNat(n: nat): (d: string)
    ensures |d| >= 1 && AllDigits(d)
  {
    var last := ('0' as int + n % 10) as char;
    if n < 10 then [last] else FormatNat(n / 10) + [last]
  }

  /** strconv.Itoa. */
  function FormatInt(n: int): (s: string)
    ensures |s| >= 1
  {
    if n < 0 then "-" + FormatNat(-n) else FormatNat(n)
  }

  /** The digits FormatNat writes read back as the number. */
  lemma {:induction false} FormatNatValue(n: nat)
    ensures DecimalValue(FormatNat(n)) == n
  {
    var d := FormatNat(n);
    if n >= 10 {
      FormatNatValue(n / 10);
      assert d[..|d| - 1] == FormatNat(n / 10);
    }
  }

  /** Atoi reads back every int that Itoa writes. */
  lemma AtoiFormatInt(n: int)
    requires InInt64(n)
    ensures Atoi(FormatInt(n)) == Some(n)
  {
    var s := FormatInt(n);
    if n < 0 {
      FormatNatValue(-n);
      assert s[1..] == FormatNat(-n);
    } else {
      FormatNatValue(n);
      assert IsDigit(s[0]);
    }
  }

  /** A run of '0' characters. */
  predicate Zeros(z: string)
  {
    forall k :: 0 <= k < |z| ==> z[k] == '0'
  }

  lemma {:induction false} ZerosValue(z: string)
    requires Zeros(z)
    ensures AllDigits(z) && DecimalValue(z) == 0
    decreases |z|
  {
    if z != [] {
      ZerosValue(z[..|z| - 1]);
    }
  }

  /** Leading zeros do not change the value of a digit string. */
  lemma {:induction false} LeadingZeros(z: string, d: string)
    requires Zeros(z) && AllDigits(d)
    ensures AllDigits(z + d) && DecimalValue(z + d) == DecimalValue(d)
    decreases |d|
  {
    ZerosValue(z);
    if d == [] {
      assert z + d == z;
    } else {
      var front := d[..|d| - 1];
      LeadingZeros(z, front);
      assert (z + d)[..|z + d| - 1] == z + front;
    }
  }

  /** A digit string without a leading zero is what FormatNat writes for
      its value. */
  lemma {:induction false} NoLeadingZero(e: string)
    requires AllDigits(e) && |e| >= 1 && e[0] != '0'
    ensures DecimalValue(e) >= 1 && FormatNat(DecimalValue(e)) == e
    decreases |e|
  {
    var c := e[|e| - 1] as int - '0' as int;
    if |e| == 1 {
      assert e == [e[0]];
    } else {
      var front := e[..|e| - 1];
      NoLeadingZero(front);
      var a := DecimalValue(front);
      var n := a * 10 + c;
      assert n / 10 == a && n % 10 == c;
      assert e == front + [e[|e| - 1]];
    }
  }

  /** The number of leading zeros of a digit string that are not its last
      character. */
  function ZeroRun(d: string): (k: nat)
    requires |d| >= 1
    ensures k < |d| && Zeros(d[..k]) && (d[k] != '0' || k == |d| - 1)
    ensures d[..k] + d[k..] == d
  {
    if |d| > 1 && d[0] == '0' then
      var k := 1 + ZeroRun(d[1..]);
      assert forall q :: 1 <= q < k ==> d[..k][q] == d[1..][..k - 1][q - 1];
      k
    else 0
  }

  /** A digit string that is "0" or has no leading zero is what FormatNat
      writes for its value. */
  lemma CanonicalDigits(e: string)
    requires AllDigits(e) && |e| >= 1 && (e[0] != '0' || |e| == 1)
    ensures FormatNat(DecimalValue(e)) == e
  {
    if e[0] != '0' {
      NoLeadingZero(e);
    } else {
      assert e == "0";
    }
  }

  /** Every digit string is some zeros followed by what FormatNat writes
      for its value. */
  lemma DigitsForm(d: string)
    requires AllDigits(d) && |d| >= 1
    ensures exists z :: Zeros(z) && d == z + FormatNat(DecimalValue(d))
  {
    var k := ZeroRun(d);
    var z, e := d[..k], d[k..];
    assert AllDigits(e) && e[0] == d[k] by {
      forall q | 0 <= q < |e| ensures IsDigit(e[q]) {
        assert e[q] == d[k + q];
      }
    }
    CanonicalDigits(e);
    LeadingZeros(z, e);
    assert d == z + FormatNat(DecimalValue(d));
  }


  /** `s` is an optional sign, the zeros `z`, and the digits FormatNat
      writes for the magnitude of `v`; the sign is `-` only when `v <= 0`
      and `+` or absent only when `v >= 0`. */
  predicate SignedAs(s: string, z: string, v: int)
  {
    var d := z + FormatNat(if v < 0 then -v else v);
    (v >= 0 && (s == d || s == "+" + d)) || (v <= 0 && s == "-" + d)
  }

  /** What Atoi accepts is a signed decimal text of the value. */
  lemma AtoiSound(s: string, v: int)
    requires Atoi(s) == Some(v)
    ensures exists z :: Zeros(z) && SignedAs(s, z, v)
  {
    var signed := s[0] == '+' || s[0] == '-';
    var digits := if signed then s[1..] else s;
    DigitsForm(digits);
    var z :| Zeros(z) && digits == z + FormatNat(DecimalValue(digits));
    if signed {
      assert s == [s[0]] + digits;
    }
    assert SignedAs(s, z, v);
  }

  /** Atoi accepts every signed decimal text of an int, leading zeros and
      all, and reads its value. */
  lemma AtoiComplete(s: string, z: string, v: int)
    requires InInt64(v) && Zeros(z) && SignedAs(s, z, v)
    ensures Atoi(s) == Some(v)
  {
    var n := if v < 0 then -v else v;
    var d := z + FormatNat(n);
    FormatNatValue(n);
    LeadingZeros(z, FormatNat(n));
    assert IsDigit(d[0]);
    if s == "+" + d || s == "-" + d {
      assert s[1..] == d;
    }
  }

  /** Atoi(s) reads `v` exactly when `v` is an int and `s` is an optional
      sign, any number of zeros and the decimal digits of `v`'s magnitude,
      with `-` only for `v <= 0` (so "-0", "+7" and "007" are accepted). */
  lemma AtoiValue(s: string, v: int)
    ensures Atoi(s) == Some(v) <==> InInt64(v) && exists z :: Zeros(z) && SignedAs(s, z, v)
  {
    if Atoi(s) == Some(v) {
      AtoiSound(s, v);
    }
    if InInt64(v) && exists z :: Zeros(z) && SignedAs(s, z, v) {
      var z :| Zeros(z) && SignedAs(s, z, v);
      AtoiComplete(s, z, v);
    }
  }

  /** Atoi fails on any character other than a digit, save one leading sign. */
  lemma AtoiRejectsNonDigit(s: string, k: nat)
    requires k < |s| && !IsDigit(s[k])
    requires k > 0 || (s[0] != '+' && s[0] != '-')
    ensures Atoi(s) == None
  {
    if s[0] == '+' || s[0] == '-' {
      assert s[1..][k - 1] == s[k];
    }
  }

  /** Atoi fails on the empty string and on a lone sign. */
  lemma AtoiNeedsDigits(s: string)
    requires s == "" || s == "+" || s == "-"
    ensures Atoi(s) == None
  {
  }
}
