// What the other modules share.

module Common {

  datatype Option<T> = None | Some(value: T)

  function Max(a: int, b: int): (m: int)
    ensures a <= m && b <= m && (m == a || m == b)
  {
    if a < b then b else a
  }

  function Pow10(k: nat): (p: nat)
    ensures p > 0
  {
    if k == 0 then 1 else 10 * Pow10(k - 1)
  }

  // Characters of the C locale.
  predicate IsDigit(c: char) { '0' <= c <= '9' }

  predicate IsHex(c: char) { IsDigit(c) || 'a' <= c <= 'f' || 'A' <= c <= 'F' }

  lemma WhichDigits(c: char)
    ensures IsDigit(c) <==> c in "0123456789"
    ensures IsHex(c) <==> c in "0123456789abcdefABCDEF"
  {
  }

  // ---------- Decimal numerals -------------------------------------------------

  predicate AreDigits(s: string) { forall i | 0 <= i < |s| :: IsDigit(s[i]) }

  // The number the digits stand for, by the places they stand at.
  function PlaceValue(digits: string): (n: int) {
    if digits == "" then 0
    else (digits[0] as int - '0' as int) * Pow10(|digits| - 1) + PlaceValue(digits[1..])
  }

  lemma {:induction false} LastPlace(d: string, c: char)
    requires AreDigits(d) && IsDigit(c)
    ensures PlaceValue(d + [c]) == 10 * PlaceValue(d) + (c as int - '0' as int)
    decreases |d|
  {
    if d == "" {
      assert d + [c] == [c] && [c][1..] == "" && Pow10(0) == 1;
    } else {
      assert (d + [c])[1..] == d[1..] + [c];
      LastPlace(d[1..], c);
      var p := Pow10(|d| - 1);
      assert Pow10(|d|) == 10 * p;
      TenTimes(d[0] as int - '0' as int, p);
    }
  }

  lemma TenTimes(a: int, p: nat)
    ensures a * (10 * p) == 10 * (a * p)
  {
  }
}
