/** Decimal text of integers as the commands read and write it: the
    conversions of `std::stoi` and `std::stoul` (built on `strtol` and
    `strtoul`), and what `operator<<` writes for an `int` or a `size_t`. */
module Decimal {
  import opened CType
  import opened Wrappers

  const INT_MIN: int := -0x8000_0000
  const INT_MAX: int := 0x7FFF_FFFF
  const ULONG_MAX: int := 0xFFFF_FFFF_FFFF_FFFF

  function DigitValue(c: char): nat
    requires IsDigit(c)
  {
    c as int - '0' as int
  }

  function DigitChar(d: nat): (c: char)
    requires d < 10
    ensures IsDigit(c) && DigitValue(c) == d
  {
    ('0' as int + d) as char
  }

  /** The decimal digits of `n`, without leading zeros. */
  function NatToString(n: nat): (r: string)
    ensures |r| > 0
    ensures forall i :: 0 <= i < |r| ==> IsDigit(r[i])
    ensures |r| > 1 ==> r[0] != '0'
    decreases n
  {
    if n < 10 then [DigitChar(n)] else NatToString(n / 10) + [DigitChar(n % 10)]
  }

  /** `os << n` for an `int`: a minus sign before the digits when negative. */
  function IntToString(n: int): string
  {
    if n < 0 then "-" + NatToString(-n) else NatToString(n)
  }

  /** The number a string of digits denotes. */
  function ValueOf(digits: string): nat
    requires forall i :: 0 <= i < |digits| ==> IsDigit(digits[i])
    decreases |digits|
  {
    if digits == [] then 0
    else ValueOf(digits[..|digits| - 1]) * 10 + DigitValue(digits[|digits| - 1])
  }

  /** How many characters at the front of `s` are digits. */
  function LeadingDigits(s: string): (k: nat)
    ensures k <= |s|
    ensures forall i :: 0 <= i < k ==> IsDigit(s[i])
    ensures k < |s| ==> !IsDigit(s[k])
  {
    if s != [] && IsDigit(s[0]) then 1 + LeadingDigits(s[1..]) else 0
  }

  /** How many characters at the front of `s` are white space. */
  function LeadingSpaces(s: string): (k: nat)
    ensures k <= |s|
    ensures forall i :: 0 <= i < k ==> IsSpace(s[i])
    ensures k < |s| ==> !IsSpace(s[k])
  {
    if s != [] && IsSpace(s[0]) then 1 + LeadingSpaces(s[1..]) else 0
  }

  datatype Scanned = Scanned(negative: bool, magnitude: nat)
  {
    /** The signed number the scan denotes. */
    function Signed(): int
    {
      if negative then -(magnitude as int) else magnitude
    }
  }

  /** The scan `strtol` and `strtoul` share: white space skipped, an optional
      sign, then the longest run of digits, of which there must be at least
      one; whatever follows the digits is ignored. */
  function Scan(s: string): (r: Option<Scanned>)
  {
    var t := s[LeadingSpaces(s)..];
    var signed := |t| > 0 && (t[0] == '-' || t[0] == '+');
    var u := if signed then t[1..] else t;
    var k := LeadingDigits(u);
    if k == 0 then None
    else Some(Scanned(signed && t[0] == '-', ValueOf(u[..k])))
  }

  /** `std::stoi`: invalid_argument when no number starts the string,
      out_of_range when the number does not fit in an `int`. */
  function Stoi(s: string): (r: Result<int>)
    ensures r.Ok? ==> INT_MIN <= r.value <= INT_MAX
    ensures r.Ok? <==> Scan(s).Some? && INT_MIN <= Scan(s).value.Signed() <= INT_MAX
    ensures r.Ok? ==> r.value == Scan(s).value.Signed()
    ensures r.Throws? ==> r.exception == (if Scan(s).None? then InvalidArgument else OutOfRange)
  {
    match Scan(s)
    case None => Throws(InvalidArgument)
    case Some(p) =>
      if INT_MIN <= p.Signed() <= INT_MAX then Ok(p.Signed()) else Throws(OutOfRange)
  }

  /** `std::stoul`: invalid_argument when no number starts the string,
      out_of_range when its digits exceed `ULONG_MAX`; a minus sign negates
      the value modulo 2^64, as `strtoul` does. */
  function Stoul(s: string): (r: Result<nat>)
    ensures r.Ok? ==> r.value <= ULONG_MAX
    ensures r.Ok? <==> Scan(s).Some? && Scan(s).value.magnitude <= ULONG_MAX
    ensures r.Ok? && !Scan(s).value.negative ==> r.value == Scan(s).value.magnitude
    ensures r.Ok? && Scan(s).value.negative ==>
              r.value + Scan(s).value.magnitude == 0 || r.value + Scan(s).value.magnitude == ULONG_MAX + 1
    ensures r.Throws? ==> r.exception == (if Scan(s).None? then InvalidArgument else OutOfRange)
  {
    match Scan(s)
    case None => Throws(InvalidArgument)
    case Some(p) =>
      if p.magnitude > ULONG_MAX then Throws(OutOfRange)
      else if p.negative then Ok(if p.magnitude == 0 then 0 else ULONG_MAX + 1 - p.magnitude)
      else Ok(p.magnitude)
  }

  /** Reading back the digits that are written gives the number. */
  lemma {:induction false} ValueOfNatToString(n: nat)
    ensures ValueOf(NatToString(n)) == n
    decreases n
  {
    if n >= 10 {
      ValueOfNatToString(n / 10);
      var r := NatToString(n);
      assert r[..|r| - 1] == NatToString(n / 10);
    }
  }

  /** The whole written form is one run of digits, and a non-digit after it
      ends the run. */
  lemma LeadingDigitsOfWritten(n: nat, rest: string)
    requires rest == [] || !IsDigit(rest[0])
    ensures LeadingDigits(NatToString(n) + rest) == |NatToString(n)|
    ensures (NatToString(n) + rest)[..|NatToString(n)|] == NatToString(n)
  {
    var w := NatToString(n);
    LeadingDigitsPrefix(w, rest);
  }

  lemma {:induction false} LeadingDigitsPrefix(w: string, rest: string)
    requires forall i :: 0 <= i < |w| ==> IsDigit(w[i])
    requires rest == [] || !IsDigit(rest[0])
    ensures LeadingDigits(w + rest) == |w|
    decreases |w|
  {
    if w != [] {
      assert (w + rest)[1..] == w[1..] + rest;
      LeadingDigitsPrefix(w[1..], rest);
    } else {
      assert w + rest == rest;
    }
  }

  /** `stoi` reads back what `os << n` writes for every `int`, and a
      non-digit suffix is ignored. */
  lemma StoiOfWritten(n: int, rest: string)
    requires INT_MIN <= n <= INT_MAX
    requires rest == [] || !IsDigit(rest[0])
    ensures Stoi(IntToString(n) + rest) == Ok(n)
  {
    if n < 0 {
      StoiOfNegative(n, rest);
    } else {
      ScanNonNegative(n, rest);
    }
  }

  /** A string that starts with a digit is scanned from its start. */
  lemma ScanUnsigned(s: string)
    requires s != [] && IsDigit(s[0])
    ensures Scan(s) == Some(Scanned(false, ValueOf(s[..LeadingDigits(s)])))
  {
    assert LeadingSpaces(s) == 0;
    assert s[0..] == s;
  }

  /** A string that starts with a minus sign and a digit is scanned as a
      negative number. */
  lemma ScanMinus(s: string)
    requires |s| > 1 && s[0] == '-' && IsDigit(s[1])
    ensures Scan(s) == Some(Scanned(true, ValueOf(s[1..][..LeadingDigits(s[1..])])))
  {
    assert LeadingSpaces(s) == 0;
    assert s[0..] == s;
  }

  lemma StoiOfNegative(n: int, rest: string)
    requires INT_MIN <= n < 0
    requires rest == [] || !IsDigit(rest[0])
    ensures Stoi(IntToString(n) + rest) == Ok(n)
  {
    var w := NatToString(-n);
    assert IntToString(n) == "-" + w;
    ScanNegative(-n, rest);
    ScannedStoi(IntToString(n) + rest, Scanned(true, -n));
  }

  /** A scan whose signed value fits in an `int` is what `stoi` returns. */
  lemma ScannedStoi(s: string, p: Scanned)
    requires Scan(s) == Some(p) && INT_MIN <= p.Signed() <= INT_MAX
    ensures Stoi(s) == Ok(p.Signed())
  {
  }

  lemma ScanNonNegative(m: nat, rest: string)
    requires rest == [] || !IsDigit(rest[0])
    ensures Scan(NatToString(m) + rest) == Some(Scanned(false, m))
  {
    var w := NatToString(m);
    ValueOfNatToString(m);
    LeadingDigitsOfWritten(m, rest);
    ScanUnsigned(w + rest);
  }

  lemma ScanNegative(m: nat, rest: string)
    requires rest == [] || !IsDigit(rest[0])
    ensures Scan("-" + NatToString(m) + rest) == Some(Scanned(true, m))
  {
    var w := NatToString(m);
    ValueOfNatToString(m);
    LeadingDigitsOfWritten(m, rest);
    var s := "-" + w + rest;
    assert s[1..] == w + rest;
    ScanMinus(s);
  }

  /** `stoul` reads back what `os << n` writes for every `size_t`. */
  lemma StoulOfWritten(n: nat)
    requires n <= ULONG_MAX
    ensures Stoul(NatToString(n)) == Ok(n)
  {
    ScanNonNegative(n, []);
    assert NatToString(n) + [] == NatToString(n);
  }

  /** Text without any digit after the optional sign is rejected with
      invalid_argument by both conversions. */
  lemma NoDigitsRejected(s: string)
    requires LeadingSpaces(s) == 0
    requires s == [] || (!IsDigit(s[0]) && s[0] != '-' && s[0] != '+')
    ensures Stoi(s) == Throws(InvalidArgument) && Stoul(s) == Throws(InvalidArgument)
  {
    assert s[0..] == s;
  }
}
