/** Shared vocabulary of the rate-limiting engine: optional values, the
    exceptions the engine can raise (as an error datatype), 32-bit integer
    arithmetic and the "null or white space" test on names and keys. */
module Basics {

  datatype Option<+T> = None | Some(value: T)

  /** The exceptions the engine throws, one constructor per cause. */
  datatype Error =
    | BlankName          // ArgumentException: policy name null, empty or white space
    | NonPositiveLimit   // ArgumentOutOfRangeException: policy limit <= 0
    | NonPositiveWindow  // ArgumentOutOfRangeException: policy window <= 0
    | BlankKey           // ArgumentException: partition key null, empty or white space
    | NegativeCount      // ArgumentOutOfRangeException: counter built with a negative count
    | Cancelled          // OperationCanceledException: the cancellation token was signalled

  /** Either a value or the exception that was thrown instead. */
  datatype Result<+T> = Ok(value: T) | Err(error: Error)

  /** The outcome of an operation that returns nothing. */
  datatype Outcome = Pass | Fail(error: Error)

  const MinInt32: int := -0x8000_0000
  const MaxInt32: int := 0x7FFF_FFFF

  predicate IsInt32(x: int) {
    MinInt32 <= x <= MaxInt32
  }

  /** Unchecked 32-bit two's-complement arithmetic: the int32 congruent to x. */
  function Wrap32(x: int): (r: int)
    ensures IsInt32(r)
    ensures (x - r) % 0x1_0000_0000 == 0
    ensures IsInt32(x) ==> r == x
    ensures x == MaxInt32 + 1 ==> r == MinInt32
    ensures x == MinInt32 - 1 ==> r == MaxInt32
  {
    (x - MinInt32) % 0x1_0000_0000 + MinInt32
  }

  function Min(a: int, b: int): (m: int)
    ensures m <= a && m <= b
    ensures m == a || m == b
  {
    if a <= b then a else b
  }

  /** Integer division rounding toward zero, which is what a C# cast of a
      positive or negative quotient to `int` does. */
  function TruncDiv(a: int, b: int): (q: int)
    requires b > 0
    ensures a >= 0 ==> q == a / b
    ensures a >= 0 ==> q >= 0
    ensures a <= 0 ==> q <= 0
    ensures a < 0 ==> (q - 1) * b < a <= q * b
    ensures q > 0 <==> a >= b
    ensures q < 0 <==> a <= -b
  {
    if a >= 0 then
      QuotientAtLeast(a, b, 0);
      QuotientAtLeast(a, b, 1);
      a / b
    else
      var p := (-a) / b;
      DivBetween(-a, b);
      QuotientAtLeast(-a, b, 1);
      assert (-p - 1) * b == -((p + 1) * b);
      assert (-p) * b == -(p * b);
      -p
  }

  lemma NonNegativeProduct(a: int, b: int)
    ensures a >= 0 && b >= 0 ==> a * b >= 0
  {
  }

  /** The Euclidean quotient of a non-negative dividend is the one whole
      multiple of the divisor at or below it. */
  lemma DivBetween(x: int, d: int)
    requires x >= 0 && d > 0
    ensures (x / d) * d <= x < (x / d + 1) * d
  {
    assert x == (x / d) * d + x % d;
  }

  /** A quotient at least `m` exactly when the dividend reaches `m`
      multiples of the divisor. */
  lemma {:induction false} QuotientAtLeast(x: int, d: int, m: int)
    requires x >= 0 && d > 0
    ensures x / d >= m <==> x >= m * d
  {
    var q := x / d;
    DivBetween(x, d);
    if q >= m {
      assert q * d >= m * d by { NonNegativeProduct(q - m, d); }
    } else {
      assert (q + 1) * d <= m * d by { NonNegativeProduct(m - q - 1, d); }
    }
  }

  /** `char.IsWhiteSpace`: the Unicode space, line and paragraph separators
      together with U+0009..U+000D and U+0085. */
  predicate IsWhiteSpace(c: char) {
    || c == ' ' || ('\t' <= c <= '\r') || c == '\U{0085}' || c == '\U{00A0}'
    || c == '\U{1680}' || ('\U{2000}' <= c <= '\U{200A}') || c == '\U{2028}'
    || c == '\U{2029}' || c == '\U{202F}' || c == '\U{205F}' || c == '\U{3000}'
  }

  /** `string.IsNullOrWhiteSpace` on a non-null string. */
  predicate IsBlank(s: string) {
    forall i :: 0 <= i < |s| ==> IsWhiteSpace(s[i])
  }

  /** The empty string and strings of spaces, tabs, line breaks and
      ideographic spaces are blank; one visible character makes a string
      non-blank, wherever it stands. */
  lemma BlankExamples()
    ensures IsBlank("") && IsBlank(" ") && IsBlank(" \t\r\n") && IsBlank("\U{00A0}\U{3000}")
    ensures !IsBlank("_") && !IsBlank(" a ") && !IsBlank("\t\U{200B}")
  {
    assert " a "[1] == 'a';
    assert "_"[0] == '_';
    assert "\t\U{200B}"[1] == '\U{200B}';
  }

}
