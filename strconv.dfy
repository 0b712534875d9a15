/** The two number conversions the codec relies on: `strconv.Atoi`, which
    parses an integer length or value out of the input, and the `%d` verb of
    `fmt.Sprintf`, which writes one into the output. Go's `int` is 64 bits
    wide here. */
module Strconv {
  import opened Bytes

  const MAX_UINT64: int := 0xFFFF_FFFF_FFFF_FFFF
  const MAX_INT64: int := 0x7FFF_FFFF_FFFF_FFFF
  const MIN_INT64: int := -0x8000_0000_0000_0000

  predicate InInt64(n: int) {
    MIN_INT64 <= n <= MAX_INT64
  }

  /** The `Err` field of the `*strconv.NumError` that `Atoi` returns. */
  datatype NumError = ErrSyntax | ErrRange

  datatype NumResult = Num(n: int) | NumErr(err: NumError)

  predicate AllDigits(s: bytes) {
    forall i :: 0 <= i < |s| ==> IsDigit(s[i])
  }

  /** The number the decimal digits `s` denote, read after the digits already
      accumulated in `acc`. */
  function DecimalValue(s: bytes, acc: nat): nat
    requires AllDigits(s)
  {
    if |s| == 0 then acc else DecimalValue(s[1..], acc * 10 + (s[0] - ZERO))
  }

  lemma {:induction false} DecimalValueGrows(s: bytes, acc: nat)
    requires AllDigits(s)
    ensures acc <= DecimalValue(s, acc)
    decreases |s|
  {
    if |s| > 0 {
      DecimalValueGrows(s[1..], acc * 10 + (s[0] - ZERO));
    }
  }

  lemma {:induction false} DecimalValueAppend(s: bytes, d: byte, acc: nat)
    requires AllDigits(s) && IsDigit(d)
    ensures AllDigits(s + [d])
    ensures DecimalValue(s + [d], acc) == DecimalValue(s, acc) * 10 + (d - ZERO)
    decreases |s|
  {
    if |s| > 0 {
      assert (s + [d])[1..] == s[1..] + [d];
      DecimalValueAppend(s[1..], d, acc * 10 + (s[0] - ZERO));
    }
  }

  /** What `Atoi` accepts as a number: an optional sign, then one or more
      decimal digits. Leading zeros and "-0" are accepted. */
  predicate IsDecimal(s: bytes) {
    var body := if 0 < |s| && (s[0] == MINUS || s[0] == PLUS) then s[1..] else s;
    0 < |body| && AllDigits(body)
  }

  function DecimalOf(s: bytes): int
    requires IsDecimal(s)
  {
    if s[0] == MINUS then -(DecimalValue(s[1..], 0) as int)
    else if s[0] == PLUS then DecimalValue(s[1..], 0)
    else DecimalValue(s, 0)
  }

  /** The unsigned loop of `strconv.ParseUint` in base 10: each digit is
      accumulated in turn, and the parse fails with a range error as soon as
      the value so far passes 2^64 - 1, or with a syntax error at the first
      byte that is not a digit, whichever comes first. */
  function ParseDigits(s: bytes, acc: nat): (r: NumResult)
    requires acc <= MAX_UINT64
    ensures r.Num? ==> acc <= r.n
    decreases |s|
  {
    if |s| == 0 then Num(acc)
    else if !IsDigit(s[0]) then NumErr(ErrSyntax)
    else if acc * 10 + (s[0] - ZERO) > MAX_UINT64 then NumErr(ErrRange)
    else ParseDigits(s[1..], acc * 10 + (s[0] - ZERO))
  }

  /** The digit loop succeeds exactly on digit strings whose value stays
      within 64 unsigned bits, and then yields that value; a syntax error
      means a byte that is not a digit. */
  lemma {:induction false} ParseDigitsMeaning(s: bytes, acc: nat)
    requires acc <= MAX_UINT64
    ensures ParseDigits(s, acc).Num? <==> AllDigits(s) && DecimalValue(s, acc) <= MAX_UINT64
    ensures ParseDigits(s, acc).Num? ==> ParseDigits(s, acc).n == DecimalValue(s, acc)
    ensures ParseDigits(s, acc) == NumErr(ErrSyntax) ==> !AllDigits(s)
    decreases |s|
  {
    if |s| > 0 && IsDigit(s[0]) {
      var next := acc * 10 + (s[0] - ZERO);
      if next > MAX_UINT64 {
        if AllDigits(s) {
          DecimalValueGrows(s[1..], next);
        }
      } else {
        ParseDigitsMeaning(s[1..], next);
        assert AllDigits(s) <==> AllDigits(s[1..]);
      }
    }
  }

  /** `strconv.Atoi` on a 64-bit platform. */
  function Atoi(s: bytes): (r: NumResult)
    ensures r.Num? && 0 < |s| && s[0] != MINUS ==> 0 <= r.n
  {
    if |s| == 0 then NumErr(ErrSyntax)
    else
      var neg := s[0] == MINUS;
      var body := if s[0] == MINUS || s[0] == PLUS then s[1..] else s;
      if |body| == 0 then NumErr(ErrSyntax)
      else
        match ParseDigits(body, 0)
        case NumErr(e) => NumErr(e)
        case Num(u) =>
          if !neg && u > MAX_INT64 then NumErr(ErrRange)
          else if neg && u > MAX_INT64 + 1 then NumErr(ErrRange)
          else Num(if neg then -u else u)
  }

  /** `Atoi` succeeds exactly on what `IsDecimal` describes when the number
      fits in 64 signed bits, and then yields that number; a syntax error
      means the input is not of that form, so every other failure is a range
      error. */
  lemma AtoiMeaning(s: bytes)
    ensures Atoi(s).Num? <==> IsDecimal(s) && InInt64(DecimalOf(s))
    ensures Atoi(s).Num? ==> Atoi(s).n == DecimalOf(s)
    ensures Atoi(s) == NumErr(ErrSyntax) ==> !IsDecimal(s)
  {
    if 0 < |s| {
      var body := if s[0] == MINUS || s[0] == PLUS then s[1..] else s;
      if 0 < |body| {
        ParseDigitsMeaning(body, 0);
      }
    }
  }

  function Digit(d: nat): (b: byte)
    requires d < 10
    ensures IsDigit(b) && b - ZERO == d
  {
    ZERO + d
  }

  /** `fmt.Sprintf("%d", n)` for `n >= 0`. */
  function FormatNat(n: nat): (r: bytes)
    ensures 0 < |r| && IsDigit(r[0])
  {
    if n < 10 then [Digit(n)] else FormatNat(n / 10) + [Digit(n % 10)]
  }

  /** `%d` writes the shortest decimal numeral of `n`: digits only, no
      leading zero, denoting `n`. */
  lemma {:induction false} FormatNatMeaning(n: nat)
    ensures AllDigits(FormatNat(n))
    ensures FormatNat(n)[0] == ZERO ==> FormatNat(n) == [ZERO]
    ensures DecimalValue(FormatNat(n), 0) == n
    decreases n
  {
    if n >= 10 {
      FormatNatMeaning(n / 10);
      DecimalValueAppend(FormatNat(n / 10), Digit(n % 10), 0);
    }
  }

  /** `fmt.Sprintf("%d", n)`: a minus sign for negative numbers, then the
      numeral of the magnitude. */
  function FormatInt(n: int): (r: bytes)
    ensures 0 < |r| && (r[0] == MINUS <==> n < 0)
  {
    if n < 0 then [MINUS] + FormatNat(-n) else FormatNat(n)
  }

  /** `%d` writes a `-` exactly for a negative number, and then the shortest
      numeral of its magnitude: digits only, no leading zero except in "0",
      denoting `|n|`. */
  lemma FormatIntMeaning(n: int)
    ensures var r := FormatInt(n);
      var digits := if n < 0 then r[1..] else r;
      && 0 < |digits| && AllDigits(digits)
      && (digits[0] == ZERO ==> digits == [ZERO])
      && DecimalValue(digits, 0) == (if n < 0 then -n else n)
  {
    FormatNatMeaning(if n < 0 then -n else n);
    if n < 0 {
      assert FormatInt(n)[1..] == FormatNat(-n);
    }
  }

  /** `Atoi` reads back what `%d` writes, for every 64-bit integer. */
  lemma AtoiFormatInt(n: int)
    requires InInt64(n)
    ensures Atoi(FormatInt(n)) == Num(n)
  {
    var s := FormatInt(n);
    AtoiMeaning(s);
    FormatNatMeaning(if n < 0 then -n else n);
    if n < 0 {
      assert s[0] == MINUS && s[1..] == FormatNat(-n);
    } else {
      assert s == FormatNat(n);
    }
  }

  /** A numeral that `%d` writes never contains a byte `e` or `:`, so the
      first such byte after it is the one the decoder is looking for. */
  lemma FormatIntNoDelimiters(n: int)
    ensures LOWER_E !in FormatInt(n) && COLON !in FormatInt(n)
  {
    var s := FormatInt(n);
    var digits := FormatNat(if n < 0 then -n else n);
    FormatNatMeaning(if n < 0 then -n else n);
    assert forall i :: 0 <= i < |digits| ==> IsDigit(digits[i]);
  }
}
