/** Decimal rendering of Go's `int64`, as `fmt.Sprint` prints it, and its
    inverse. A datastore key's numeric ID is shown this way when the key has
    no name. */
module Decimal {
  import opened Wrappers

  newtype int64 = x: int | -0x8000_0000_0000_0000 <= x < 0x8000_0000_0000_0000

  predicate IsDigit(c: char)
  {
    '0' <= c <= '9'
  }

  function DigitChar(d: nat): (c: char)
    requires d < 10
    ensures IsDigit(c)
  {
    (48 + d) as char
  }

  function DigitValue(c: char): (d: nat)
    requires IsDigit(c)
    ensures d < 10
  {
    c as int - 48
  }

  /** Digits of `n`, most significant first, without leading zeros. */
  function ShowNat(n: nat): (s: string)
    ensures |s| > 0
    ensures forall i :: 0 <= i < |s| ==> IsDigit(s[i])
    ensures s[0] == '0' ==> n == 0
    decreases n
  {
    if n < 10 then [DigitChar(n)] else ShowNat(n / 10) + [DigitChar(n % 10)]
  }

  /** `fmt.Sprint(i)`: a minus sign for negative values, then the digits. */
  function Show(i: int): string
  {
    if i < 0 then "-" + ShowNat(-i) else ShowNat(i)
  }

  /** Canonical decimal text: optional minus, non-empty digits, no leading
      zero except for "0" itself, and no "-0". */
  predicate IsCanonical(s: string)
  {
    && |Magnitude(s)| > 0
    && AllDigits(Magnitude(s))
    && (Magnitude(s)[0] == '0' ==> s == "0")
  }

  /** The text after an optional leading minus sign. */
  function Magnitude(s: string): string
  {
    if |s| > 0 && s[0] == '-' then s[1..] else s
  }

  predicate AllDigits(s: string)
  {
    forall i :: 0 <= i < |s| ==> IsDigit(s[i])
  }

  function ParseNat(s: string): nat
    requires AllDigits(s)
    decreases |s|
  {
    if |s| == 0 then 0 else ParseNat(s[..|s| - 1]) * 10 + DigitValue(s[|s| - 1])
  }

  /** Reads back a canonical decimal; `None` for anything else. */
  function Parse(s: string): Option<int>
  {
    if !IsCanonical(s) then None
    else
      var magnitude: int := ParseNat(Magnitude(s));
      Some(if s[0] == '-' then -magnitude else magnitude)
  }

  lemma {:induction false} ParseShowNat(n: nat)
    ensures ParseNat(ShowNat(n)) == n
    decreases n
  {
    if n >= 10 {
      ParseShowNat(n / 10);
      var s := ShowNat(n);
      assert s[..|s| - 1] == ShowNat(n / 10);
    }
  }

  /** `Show` always produces canonical text, and `Parse` inverts it: distinct
      IDs are rendered as distinct strings. */
  lemma ParseShow(i: int)
    ensures IsCanonical(Show(i))
    ensures Parse(Show(i)) == Some(i)
  {
    var s := Show(i);
    var n: nat := if i < 0 then -i else i;
    assert Magnitude(s) == ShowNat(n) by {
      if i < 0 {
        assert s[1..] == ShowNat(n);
      }
    }
    ParseShowNat(n);
    assert (s[0] == '-') == (i < 0);
  }

  lemma ShowInjective(i: int, j: int)
    requires Show(i) == Show(j)
    ensures i == j
  {
    ParseShow(i);
    ParseShow(j);
  }
}
