/** Identifier formats: the provider's `tt` followed by seven digits, and the
    service's own `ttt` followed by six zero-padded digits. */
module ImdbIds {

  predicate IsDigit(c: char)
  {
    '0' <= c <= '9'
  }

  predicate AllDigits(s: string)
  {
    forall i :: 0 <= i < |s| ==> IsDigit(s[i])
  }

  /** `^tt\d{7}$`: an identifier the provider can be asked about. */
  predicate IsProviderId(id: string)
  {
    |id| == 9 && id[..2] == "tt" && AllDigits(id[2..])
  }

  /** `ttt\d{6}`: an identifier minted by the service. */
  predicate IsLocalId(id: string)
  {
    |id| == 9 && id[..3] == "ttt" && AllDigits(id[3..])
  }

  /** The controllers' pattern `^(tt\d{7}|ttt\d{6})$`. */
  predicate IsValidImdbId(id: string)
  {
    IsProviderId(id) || IsLocalId(id)
  }

  /** The two formats are disjoint: the third character of a minted ID is a letter. */
  lemma LocalIdIsNotProviderId(id: string)
    requires IsLocalId(id)
    ensures !IsProviderId(id) && IsValidImdbId(id)
  {
    assert id[2..][0] == id[2] == 't';
  }

  function Pow10(n: nat): nat
  {
    if n == 0 then 1 else 10 * Pow10(n - 1)
  }

  function DigitChar(d: nat): (c: char)
    requires d < 10
    ensures IsDigit(c)
  {
    ('0' as int + d) as char
  }

  function DigitValue(c: char): nat
    requires IsDigit(c)
  {
    c as int - '0' as int
  }

  /** `String.format("%0<width>d", n)` for a number that fits the width. */
  function ZeroPadded(n: nat, width: nat): (r: string)
    requires n < Pow10(width)
    ensures |r| == width && AllDigits(r)
  {
    if width == 0 then [] else ZeroPadded(n / 10, width - 1) + [DigitChar(n % 10)]
  }

  /** The number a string of decimal digits denotes. */
  function ValueOf(s: string): nat
    requires AllDigits(s)
  {
    if s == [] then 0 else ValueOf(s[..|s| - 1]) * 10 + DigitValue(s[|s| - 1])
  }

  /** Reading a padded numeral back gives the number. */
  lemma {:induction false} ZeroPaddedRoundTrip(n: nat, width: nat)
    requires n < Pow10(width)
    ensures ValueOf(ZeroPadded(n, width)) == n
  {
    if width > 0 {
      var s := ZeroPadded(n, width);
      ZeroPaddedRoundTrip(n / 10, width - 1);
      assert s[..|s| - 1] == ZeroPadded(n / 10, width - 1);
    }
  }

  /** The identifier minted from a random draw in [0, 1000000). */
  function LocalId(n: nat): (id: string)
    requires n < 1000000
    ensures IsLocalId(id)
  {
    assert Pow10(6) == 1000000;
    var digits := ZeroPadded(n, 6);
    assert ("ttt" + digits)[3..] == digits;
    "ttt" + digits
  }

  /** Distinct draws mint distinct identifiers. */
  lemma LocalIdInjective(a: nat, b: nat)
    requires a < 1000000 && b < 1000000
    requires LocalId(a) == LocalId(b)
    ensures a == b
  {
    assert Pow10(6) == 1000000;
    ZeroPaddedRoundTrip(a, 6);
    ZeroPaddedRoundTrip(b, 6);
    assert LocalId(a)[3..] == ZeroPadded(a, 6);
    assert LocalId(b)[3..] == ZeroPadded(b, 6);
  }
}
