/**
  Shared vocabulary for the model: optional values, results that carry the
  reason a tool gives up, and the few C-library string and integer helpers
  (strtol-style digit parsing, integer truncation) the tools rely on.
 */
module Basics {

  /** A value that may be absent (a NULL pointer in the C code). */
  datatype Option<+T> = None | Some(value: T)

  /** The outcome of a step that may fail; the failure value says why. */
  datatype Result<+T, +E> = Ok(value: T) | Err(error: E) {
    predicate IsFailure() {
      Err?
    }

    function PropagateFailure<U>(): Result<U, E>
      requires Err?
    {
      Err(error)
    }

    function Extract(): T
      requires Ok?
    {
      value
    }
  }

  const U32_LIMIT: int := 0x1_0000_0000
  const INT32_MAX: int := 0x7FFF_FFFF
  /** LONG_MAX on an LP64 system: where strtol saturates. */
  const LONG_MAX: int := 0x7FFF_FFFF_FFFF_FFFF

  predicate IsDigit(c: char) {
    '0' <= c <= '9'
  }

  predicate AllDigits(s: string) {
    forall i :: 0 <= i < |s| ==> IsDigit(s[i])
  }

  /** True when `c` occurs in `s` (strchr/memchr succeeding). */
  predicate Contains(s: string, c: char) {
    exists i :: 0 <= i < |s| && s[i] == c
  }

  /** Index of the first `c` in `s`, or |s| when there is none. */
  function IndexOf(s: string, c: char): (k: nat)
    ensures k <= |s|
    ensures k < |s| ==> s[k] == c
  {
    if |s| == 0 then 0
    else if s[0] == c then 0
    else 1 + IndexOf(s[1..], c)
  }

  /** No `c` comes before the index `IndexOf` finds. */
  lemma {:induction false} IndexOfFirst(s: string, c: char)
    ensures forall i :: 0 <= i < IndexOf(s, c) ==> s[i] != c
    decreases |s|
  {
    if |s| > 0 && s[0] != c {
      IndexOfFirst(s[1..], c);
      assert forall i :: 1 <= i < IndexOf(s, c) ==> s[i] == s[1..][i - 1];
    }
  }

  lemma IndexOfContains(s: string, c: char)
    ensures IndexOf(s, c) < |s| <==> Contains(s, c)
  {
    IndexOfFirst(s, c);
    if Contains(s, c) {
      var i :| 0 <= i < |s| && s[i] == c;
      assert IndexOf(s, c) <= i;
    }
  }

  /** The first `c` is at `k` when nothing before `k` is `c` and `k` is
      either the end or a `c`. */
  lemma {:induction false} IndexOfExact(s: string, c: char, k: nat)
    requires k <= |s|
    requires forall i :: 0 <= i < k ==> s[i] != c
    requires k < |s| ==> s[k] == c
    ensures IndexOf(s, c) == k
    decreases k
  {
    if k > 0 {
      assert forall i :: 0 <= i < k - 1 ==> s[1..][i] == s[i + 1];
      IndexOfExact(s[1..], c, k - 1);
    }
  }

  /** The decimal value of a string of digits, most significant first. */
  function DecimalValue(s: string): nat
    requires AllDigits(s)
  {
    if |s| == 0 then 0
    else 10 * DecimalValue(s[..|s| - 1]) + ((s[|s| - 1] as int) - ('0' as int))
  }

  /** Length of the longest run of digits at the start of `s`. */
  function DigitPrefixLength(s: string): (n: nat)
    ensures n <= |s|
    ensures AllDigits(s[..n])
    ensures n < |s| ==> !IsDigit(s[n])
  {
    if |s| == 0 || !IsDigit(s[0]) then 0
    else
      var n := 1 + DigitPrefixLength(s[1..]);
      assert s[..n] == [s[0]] + s[1..][..n - 1];
      n
  }

  /** What strtol(s, &end, 10) computes when the text carries no leading
      blanks and no sign: the value of the leading digits, saturated at
      LONG_MAX, together with how many characters were consumed (0 when
      there are no digits, as strtol leaves `end` at the start). */
  datatype Strtol = Strtol(value: int, consumed: nat)

  function ParseLong(s: string): (r: Strtol)
    ensures 0 <= r.value <= LONG_MAX
    ensures r.consumed <= |s|
    ensures r.consumed == 0 ==> r.value == 0
  {
    var n := DigitPrefixLength(s);
    var v := DecimalValue(s[..n]);
    Strtol(if v > LONG_MAX then LONG_MAX else v, n)
  }

  /** The value a non-negative `long` takes when stored into a 32-bit `int`
      (two's complement truncation, as GCC defines it). */
  function TruncateToInt32(x: int): (r: int)
    requires 0 <= x
    ensures -0x8000_0000 <= r <= INT32_MAX
    ensures (r - x) % U32_LIMIT == 0
    ensures x <= INT32_MAX ==> r == x
  {
    var low := x % U32_LIMIT;
    if low > INT32_MAX then low - U32_LIMIT else low
  }

  /** The low 32 bits of a non-negative integer, as a bit mask. */
  function Low32(x: int): bv32
    requires 0 <= x
  {
    (x % U32_LIMIT) as bv32
  }

  /** The low 32 bits are all clear exactly when the value is a multiple
      of 2^32. */
  lemma Low32Zero(x: int)
    requires 0 <= x
    ensures Low32(x) == 0 <==> x % U32_LIMIT == 0
  {
  }

  /** Appending a digit: the decimal value grows by one place. */
  lemma DecimalSnoc(s: string, c: char)
    requires AllDigits(s) && IsDigit(c)
    ensures AllDigits(s + [c])
    ensures DecimalValue(s + [c]) == 10 * DecimalValue(s) + ((c as int) - ('0' as int))
  {
    assert (s + [c])[..|s|] == s;
  }
}
