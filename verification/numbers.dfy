/** Decimal text of integers: `strconv.Itoa` and `strconv.Atoi` on a 64-bit platform. */
module Numbers {
  import opened Wrappers
  import Text

  const MaxUint64: int := 0xFFFF_FFFF_FFFF_FFFF
  const MaxInt64: int := 0x7FFF_FFFF_FFFF_FFFF
  const MinInt64: int := -0x8000_0000_0000_0000

  predicate IsInt64(i: int) {
    MinInt64 <= i <= MaxInt64
  }

  predicate IsDigit(c: char) {
    '0' <= c <= '9'
  }

  predicate AllDigits(s: string) {
    forall i :: 0 <= i < |s| ==> IsDigit(s[i])
  }

  function DigitValue(c: char): nat
    requires IsDigit(c)
  {
    c as int - '0' as int
  }

  function DigitChar(d: nat): (c: char)
    requires d < 10
    ensures IsDigit(c) && DigitValue(c) == d
  {
    (d + '0' as int) as char
  }

  /** Decimal digits of `n`, most significant first, without leading zeros. */
  function NatToString(n: nat): (r: string)
    ensures |r| > 0 && AllDigits(r)
    ensures |r| > 1 ==> r[0] != '0'
  {
    if n < 10 then [DigitChar(n)] else NatToString(n / 10) + [DigitChar(n % 10)]
  }

  /** `strconv.Itoa`. */
  function IntToString(i: int): string {
    if i < 0 then "-" + NatToString(-i) else NatToString(i)
  }

  /** Value of a digit string read left to right onto the accumulator `acc`. */
  function Horner(acc: nat, s: string): nat
    requires AllDigits(s)
    decreases |s|
  {
    if |s| == 0 then acc else Horner(acc * 10 + DigitValue(s[0]), s[1..])
  }

  lemma {:induction false} HornerSnoc(acc: nat, s: string, c: char)
    requires AllDigits(s) && IsDigit(c)
    ensures AllDigits(s + [c])
    ensures Horner(acc, s + [c]) == Horner(acc, s) * 10 + DigitValue(c)
    decreases |s|
  {
    if |s| > 0 {
      assert (s + [c])[1..] == s[1..] + [c];
      HornerSnoc(acc * 10 + DigitValue(s[0]), s[1..], c);
    }
  }

  lemma {:induction false} HornerGrows(acc: nat, s: string)
    requires AllDigits(s)
    ensures acc <= Horner(acc, s)
    decreases |s|
  {
    if |s| > 0 {
      HornerGrows(acc * 10 + DigitValue(s[0]), s[1..]);
    }
  }

  /** Reading back the decimal text of `n` gives `n`. */
  lemma {:induction false} NatToStringValue(n: nat)
    ensures Horner(0, NatToString(n)) == n
  {
    if n < 10 {
      assert Horner(0, NatToString(n)) == Horner(n, []);
    } else {
      NatToStringValue(n / 10);
      HornerSnoc(0, NatToString(n / 10), DigitChar(n % 10));
    }
  }

  datatype NumError = InvalidSyntax | OutOfRange

  /** The digit loop of `strconv.ParseUint` in base 10 with 64 bits: characters are read
      left to right, and overflow is reported as soon as the value leaves 64 bits, even
      if an invalid character follows. */
  function ScanUint(s: string, acc: nat): (r: Result<nat, NumError>)
    requires acc <= MaxUint64
    ensures r.Ok? ==> AllDigits(s) && r.value == Horner(acc, s) && r.value <= MaxUint64
    ensures r == Err(InvalidSyntax) ==> !AllDigits(s)
  {
    if |s| == 0 then Ok(acc)
    else if !IsDigit(s[0]) then Err(InvalidSyntax)
    else
      var n := acc * 10 + DigitValue(s[0]);
      if n > MaxUint64 then Err(OutOfRange)
      else
        var r := ScanUint(s[1..], n);
        assert r == Err(InvalidSyntax) ==> !AllDigits(s) by {
          if r == Err(InvalidSyntax) { assert !AllDigits(s[1..]); }
        }
        r
  }

  lemma {:induction false} ScanUintDigits(s: string, acc: nat)
    requires acc <= MaxUint64 && AllDigits(s) && Horner(acc, s) <= MaxUint64
    ensures ScanUint(s, acc) == Ok(Horner(acc, s))
    decreases |s|
  {
    if |s| > 0 {
      var n := acc * 10 + DigitValue(s[0]);
      HornerGrows(n, s[1..]);
      ScanUintDigits(s[1..], n);
    }
  }

  /** The text after one optional leading sign. */
  function Unsigned(s: string): string {
    if |s| > 0 && (s[0] == '+' || s[0] == '-') then s[1..] else s
  }

  /** The value of the magnitude `u` under the sign `s` starts with. */
  function Signed(s: string, u: nat): int {
    if |s| > 0 && s[0] == '-' then -(u as int) else u as int
  }

  /** What `strconv.Atoi` accepts: one optional sign, then at least one decimal digit and
      nothing else, with a value that fits in 64 bits. */
  predicate AtoiAccepts(s: string) {
    var d := Unsigned(s);
    |d| > 0 && AllDigits(d) && IsInt64(Signed(s, Horner(0, d)))
  }

  /** `strconv.Atoi`: the digits are scanned as `ParseUint` does, then the sign is applied
      and the 64-bit range checked. */
  function Atoi(s: string): (r: Result<int, NumError>)
    ensures r.Ok? <==> AtoiAccepts(s)
    ensures r.Ok? ==> AllDigits(Unsigned(s)) && r.value == Signed(s, Horner(0, Unsigned(s)))
    ensures r.Ok? ==> IsInt64(r.value)
  {
    if |s| == 0 then Err(InvalidSyntax)
    else
      var neg := s[0] == '-';
      var digits := if s[0] == '+' || s[0] == '-' then s[1..] else s;
      if |digits| == 0 then Err(InvalidSyntax)
      else
        assert AllDigits(digits) && Horner(0, digits) <= MaxUint64 ==> ScanUint(digits, 0) == Ok(Horner(0, digits)) by {
          if AllDigits(digits) && Horner(0, digits) <= MaxUint64 {
            ScanUintDigits(digits, 0);
          }
        }
        match ScanUint(digits, 0)
        case Err(e) => Err(e)
        case Ok(u) =>
          if !neg && u > MaxInt64 then Err(OutOfRange)
          else if neg && u > -MinInt64 then Err(OutOfRange)
          else
            var v: int := if neg then 0 - (u as int) else u as int;
            Ok(v)
  }

  /** Text that is not an integer is a syntax error. */
  lemma AtoiRejects()
    ensures Atoi("1x") == Err(InvalidSyntax)
    ensures Atoi("1.5") == Err(InvalidSyntax)
    ensures Atoi("+") == Err(InvalidSyntax)
  {
    assert Atoi("1x") == Err(InvalidSyntax) by {
      assert ScanUint("x", 1) == Err(InvalidSyntax);
    }
    assert Atoi("1.5") == Err(InvalidSyntax) by {
      assert ScanUint(".5", 1) == Err(InvalidSyntax);
    }
  }

  /** `Atoi` reads back what `Itoa` writes, for every 64-bit integer. */
  lemma AtoiOfIntToString(i: int)
    requires IsInt64(i)
    ensures Atoi(IntToString(i)) == Ok(i)
  {
    var m: nat := if i < 0 then -i else i;
    var d := NatToString(m);
    NatToStringValue(m);
    ScanUintDigits(d, 0);
    if i < 0 {
      assert IntToString(i)[1..] == d;
    }
  }

  /** The error text of a failed `strconv.Atoi`. */
  function AtoiErrorText(s: string, e: NumError): string {
    "strconv.Atoi: parsing " + Text.Quote(s) + ": "
      + (match e case InvalidSyntax => "invalid syntax" case OutOfRange => "value out of range")
  }
}
