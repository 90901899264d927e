/** Decimal integers as the program reads and writes them: Go's `strconv.ParseInt(s, 10, 64)`
    for the manifest's numeric attributes and the record header's size field, and the `%d`
    verb that writes that size. Go's `int64` is modelled by unbounded integers together with
    explicit range constants. */
module Numbers {

  const MaxInt64: int := 0x7FFF_FFFF_FFFF_FFFF
  const MinInt64: int := -0x8000_0000_0000_0000
  const MaxUint64: int := 0xFFFF_FFFF_FFFF_FFFF

  predicate InInt64(n: int) {
    MinInt64 <= n <= MaxInt64
  }

  /** What `ParseInt` hands back: a value with no error, a syntax error (value 0), or a
      range error (value clamped to the nearer `int64` bound). */
  datatype Parsed = Value(n: int) | SyntaxError | RangeError(clamped: int) {

    /** The integer the caller receives when it ignores the error, as `x, _ := ParseInt(…)`
        does. */
    function Got(): int {
      match this
      case Value(n) => n
      case SyntaxError => 0
      case RangeError(c) => c
    }
  }

  predicate IsDigit(c: char) {
    '0' <= c <= '9'
  }

  function DigitValue(c: char): nat
    requires IsDigit(c)
  {
    c as int - '0' as int
  }

  function DigitChar(d: nat): (c: char)
    requires d < 10
    ensures IsDigit(c) && DigitValue(c) == d
  {
    ('0' as int + d) as char
  }

  /** The outcome of `ParseUint`'s digit loop. */
  datatype Scan = Done(n: nat) | BadSyntax | Overflow

  /** `ParseUint`'s base-10 loop, from accumulator `acc`: each character is first checked to
      be a digit, then the new accumulator is checked against `MaxUint64`, so an overflow is
      reported before any syntax error further right. */
  function ScanDigits(s: string, acc: nat): Scan
    requires acc <= MaxUint64
  {
    if |s| == 0 then Done(acc)
    else if !IsDigit(s[0]) then BadSyntax
    else
      var n := acc * 10 + DigitValue(s[0]);
      if n > MaxUint64 then Overflow else ScanDigits(s[1..], n)
  }

  /** `strconv.ParseInt(s, 10, 64)`: an optional sign, then `ParseUint` on the rest (an empty
      rest is a syntax error), then clamping to the `int64` range. */
  function ParseInt64(s: string): (p: Parsed)
    ensures p.Value? ==> InInt64(p.n)
    ensures p.RangeError? ==> p.clamped == MinInt64 || p.clamped == MaxInt64
    ensures InInt64(p.Got())
  {
    if |s| == 0 then SyntaxError
    else
      var neg := s[0] == '-';
      var body := if s[0] == '+' || s[0] == '-' then s[1..] else s;
      if |body| == 0 then SyntaxError
      else
        match ScanDigits(body, 0)
        case BadSyntax => SyntaxError
        case Overflow => if neg then RangeError(MinInt64) else RangeError(MaxInt64)
        case Done(u) =>
          if !neg && u > MaxInt64 then RangeError(MaxInt64)
          else if neg && u > -MinInt64 then RangeError(MinInt64)
          else Value(if neg then -(u as int) else u)
  }

  /** The decimal digits of `m`, most significant first, without leading zeros. */
  function NatDigits(m: nat): (s: string)
    ensures |s| > 0
    ensures forall i :: 0 <= i < |s| ==> IsDigit(s[i])
  {
    if m < 10 then [DigitChar(m)] else NatDigits(m / 10) + [DigitChar(m % 10)]
  }

  /** Go's `%d` on an `int64`: a minus sign for negative values, then the digits. */
  function FormatInt(n: int): (s: string)
    ensures |s| > 0
    ensures forall i :: 0 <= i < |s| ==> IsDigit(s[i]) || (i == 0 && s[i] == '-')
  {
    if n < 0 then "-" + NatDigits(-n) else NatDigits(n)
  }

  /** Scanning one more character continues from where the scan of the prefix stopped. */
  lemma {:induction false} ScanSnoc(s: string, c: char, acc: nat)
    requires acc <= MaxUint64
    ensures ScanDigits(s + [c], acc) ==
      match ScanDigits(s, acc)
      case Done(v) =>
        if !IsDigit(c) then BadSyntax
        else if v * 10 + DigitValue(c) > MaxUint64 then Overflow
        else Done(v * 10 + DigitValue(c))
      case other => other
  {
    if |s| == 0 {
      assert s + [c] == [c];
    } else {
      assert (s + [c])[0] == s[0];
      assert (s + [c])[1..] == s[1..] + [c];
      if IsDigit(s[0]) && acc * 10 + DigitValue(s[0]) <= MaxUint64 {
        ScanSnoc(s[1..], c, acc * 10 + DigitValue(s[0]));
      }
    }
  }

  /** The digits of a number within `uint64` scan back to that number. */
  lemma {:induction false} ScanNatDigits(m: nat)
    requires m <= MaxUint64
    ensures ScanDigits(NatDigits(m), 0) == Done(m)
  {
    if m >= 10 {
      ScanNatDigits(m / 10);
      ScanSnoc(NatDigits(m / 10), DigitChar(m % 10), 0);
    }
  }

  /** Writing an `int64` with `%d` and parsing it back with `ParseInt` is lossless. */
  lemma ParseFormatInt(n: int)
    requires InInt64(n)
    ensures ParseInt64(FormatInt(n)) == Value(n)
  {
    var s := FormatInt(n);
    if n < 0 {
      ScanNatDigits(-n);
      assert s[1..] == NatDigits(-n);
    } else {
      ScanNatDigits(n);
    }
  }
}
