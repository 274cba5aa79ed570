// Numbers inside directives: reading them off a string, writing them, and the
// offset directive HxW[p|m]V[p|m]H.

module OffsetDirective {
  import opened Common

  const INT_MAX := 0x7fff_ffff

  // ---------- atoi_ptr -----------------------------------------------------

  function DigitSpan(s: string): (n: nat)
    ensures n <= |s| && (forall i | 0 <= i < n :: IsDigit(s[i])) && (n < |s| ==> !IsDigit(s[n]))
  {
    if s == "" || !IsDigit(s[0]) then 0 else 1 + DigitSpan(s[1..])
  }

  // The number that decimal digits stand for.
  function Decimal(d: string): (n: nat)
    requires forall i | 0 <= i < |d| :: IsDigit(d[i])
  {
    if d == "" then 0
    else
      var last := d[|d| - 1];
      assert IsDigit(last);
      10 * Decimal(d[..|d| - 1]) + (last as int - '0' as int)
  }

  // A sign letter, then digits; what follows them is the rest.
  function Unsigned(s: string): (u: string)
    ensures |u| <= |s|
  {
    if s != "" && (s[0] == 'm' || s[0] == 'p') then s[1..] else s
  }

  function Number(s: string): (v: int) {
    var u := Unsigned(s);
    var n: int := Decimal(u[..DigitSpan(u)]);
    if s != "" && s[0] == 'm' then -n else n
  }

  function Rest(s: string): (r: string) {
    var u := Unsigned(s);
    u[DigitSpan(u)..]
  }

  // The digits stand for a C int.  Longer ones make the C code overflow.
  predicate Fits(s: string) {
    var u := Unsigned(s);
    Decimal(u[..DigitSpan(u)]) <= INT_MAX
  }

  lemma {:induction false} DecimalByPlaces(d: string)
    requires AreDigits(d)
    ensures Decimal(d) == PlaceValue(d)
    decreases |d|
  {
    if d != "" {
      DecimalByPlaces(d[..|d| - 1]);
      assert d == d[..|d| - 1] + [d[|d| - 1]];
      LastPlace(d[..|d| - 1], d[|d| - 1]);
    }
  }

  lemma NoDigits()
    ensures Decimal("") == 0
  {
  }

  lemma OneMoreDigit(u: string, k: nat)
    requires k < |u| && k <= DigitSpan(u) && IsDigit(u[k])
    ensures k < DigitSpan(u) && Decimal(u[..k + 1]) == 10 * Decimal(u[..k]) + (u[k] as int - '0' as int)
  {
    assert u[..k + 1][..k] == u[..k];
  }

  lemma AllDigitsRead(u: string, k: nat)
    requires k <= DigitSpan(u) && (k == |u| || !IsDigit(u[k]))
    ensures k == DigitSpan(u)
  {
  }

  lemma RestBehind(s: string)
    ensures Rest(s) == Unsigned(s)[DigitSpan(Unsigned(s))..]
  {
  }

  function Times(out: int, mult: int): (p: int) { out * mult }

  // The sign goes with the factor.
  lemma SignedNumber(ptr: string, out: int, mult: int)
    requires out == Decimal(Unsigned(ptr)[..DigitSpan(Unsigned(ptr))])
    requires mult == if ptr != "" && ptr[0] == 'm' then -1 else 1
    ensures Times(out, mult) == Number(ptr) && (Fits(ptr) <==> out <= INT_MAX)
  {
  }

  // The number, or None when it overflows.
  method AtoiPtr(ptr: string) returns (value: Option<int>, rest: string)
    ensures value == (if Fits(ptr) then Some(Number(ptr)) else None) && rest == Rest(ptr)
  {
    var out, mult, local := 0, 1, ptr;
    var overflow := false;
    if local != "" && local[0] == 'm' {
      local := local[1..];
      mult := -1;
    } else if local != "" && local[0] == 'p' {
      local := local[1..];
    }
    ghost var u, k: nat := local, 0;
    assert u == Unsigned(ptr);
    hide *;
    NoDigits();
    while local != "" && IsDigit(local[0])
      invariant k <= DigitSpan(u) && local == u[k..]
      invariant out == Decimal(u[..k]) && (overflow <==> out > INT_MAX)
      decreases |local|
    {
      OneMoreDigit(u, k);
      out := 10 * out;
      out := out + (local[0] as int - '0' as int);
      overflow := overflow || out > INT_MAX;
      k := k + 1;
      local := local[1..];
    }
    AllDigitsRead(u, k);
    SignedNumber(ptr, out, mult);
    RestBehind(ptr);
    value, rest := if overflow then None else Some(Times(out, mult)), local;
  }

  // ---------- itoa ------------------------------------------------------------

  // No digits at all for zero, and none for a negative number.
  function Itoa(n: int): (d: string)
    ensures forall i | 0 <= i < |d| :: IsDigit(d[i])
    decreases n
  {
    if n <= 0 then "" else Itoa(n / 10) + [((n % 10) + '0' as int) as char]
  }

  lemma {:induction false} DecimalOfItoa(n: int)
    ensures Decimal(Itoa(n)) == if n < 0 then 0 else n
    decreases n
  {
    if n > 0 {
      DecimalOfItoa(n / 10);
      var d := Itoa(n);
      assert d[..|d| - 1] == Itoa(n / 10);
    }
  }

  lemma {:induction false} ItoaLength(n: int, k: nat)
    requires n < Pow10(k)
    ensures |Itoa(n)| <= k
    decreases k
  {
    if n > 0 {
      ItoaLength(n / 10, k - 1);
    }
  }

  // The digits are put in front of each other, from the end of 12 bytes; for
  // a C int they fit.
  method ItoaInPlace(n: int) returns (ret: array<char>, ptr: nat)
    requires n < 0x8000_0000
    ensures fresh(ret) && ret.Length == 12 && ptr < 12 && ret[11] == '\0'
    ensures ret[ptr..11] == Itoa(n)
  {
    ret := new char[12](i => '\0');
    ptr := 11;
    var left := n;
    assert Pow10(10) == 10_000_000_000;
    ItoaLength(n, 10);
    while left > 0
      invariant |Itoa(left)| <= ptr - 1 && ptr <= 11 && ret[11] == '\0'
      invariant Itoa(n) == Itoa(left) + ret[ptr..11]
    {
      ptr := ptr - 1;
      ret[ptr] := ((left % 10) + '0' as int) as char;
      assert ret[ptr..11] == [ret[ptr]] + ret[ptr + 1..11];
      left := left / 10;
    }
  }

  // ---------- image_offset -------------------------------------------------------

  datatype Crop = Crop(width: int, height: int, offsetX: int, offsetY: int)

  // What is asked of the image library: nothing without the 'x', and nothing
  // that can be relied on when a number overflows.
  datatype Asked = Nothing | Overflow | Cut(crop: Crop)

  method ImageOffset(ptr: string) returns (asked: Asked)
    ensures asked == Offset(ptr)
  {
    var height, afterHeight := AtoiPtr(ptr);
    if height == None { return Overflow; }
    if afterHeight == "" || afterHeight[0] != 'x' {
      return Nothing;
    }
    var width, afterWidth := AtoiPtr(afterHeight[1..]);
    if width == None { return Overflow; }
    var offsetY, afterY := AtoiPtr(afterWidth);
    if offsetY == None { return Overflow; }
    var offsetX, afterX := AtoiPtr(afterY);
    if offsetX == None { return Overflow; }
    asked := Cut(Crop(width.value, height.value, offsetX.value, offsetY.value));
  }

  function Offset(s: string): (asked: Asked) {
    if !Fits(s) then Overflow
    else
      var r := Rest(s);
      if r == "" || r[0] != 'x' then Nothing
      else
        var w := r[1..];
        if Fits(w) && Fits(Rest(w)) && Fits(Rest(Rest(w))) then
          Cut(Crop(Number(w), Number(s), Number(Rest(Rest(w))), Number(Rest(w))))
        else Overflow
  }

  // The directive as its documentation writes it.
  function Signed(n: int): (s: string) {
    if n < 0 then "m" + Itoa(-n) else "p" + Itoa(n)
  }

  function Rendered(height: nat, width: nat, vertical: int, horizontal: int): (s: string) {
    Itoa(height) + "x" + Itoa(width) + Signed(vertical) + Signed(horizontal)
  }

  // The numbers of a directive, in the range that can be read back.
  predicate InRange(n: int) { -INT_MAX <= n <= INT_MAX }

  predicate Separate(tail: string) { tail == "" || !IsDigit(tail[0]) }

  lemma {:induction false} SpanOfDigits(d: string, tail: string)
    requires (forall i | 0 <= i < |d| :: IsDigit(d[i])) && Separate(tail)
    ensures DigitSpan(d + tail) == |d|
  {
    if d == "" {
      assert d + tail == tail;
    } else {
      assert (d + tail)[1..] == d[1..] + tail;
      SpanOfDigits(d[1..], tail);
    }
  }

  lemma ReadsSigned(n: int, tail: string)
    requires Separate(tail) && InRange(n)
    ensures Fits(Signed(n) + tail) && Number(Signed(n) + tail) == n && Rest(Signed(n) + tail) == tail
  {
    var d := if n < 0 then Itoa(-n) else Itoa(n);
    DecimalOfItoa(if n < 0 then -n else n);
    SpanOfDigits(d, tail);
    hide Itoa, Decimal;
    var s := Signed(n) + tail;
    assert Unsigned(s) == d + tail;
    assert (d + tail)[..|d|] == d && (d + tail)[|d|..] == tail;
  }

  lemma ReadsDigits(n: nat, tail: string)
    requires Separate(tail) && InRange(n) && (n > 0 || (tail != "" && tail[0] != 'p' && tail[0] != 'm'))
    ensures Fits(Itoa(n) + tail) && Number(Itoa(n) + tail) == n && Rest(Itoa(n) + tail) == tail
  {
    var d := Itoa(n);
    var s := d + tail;
    assert n > 0 ==> |d| > 0 && s[0] == d[0];
    SpanOfDigits(d, tail);
    assert s[..|d|] == d && Unsigned(s) == s;
    DecimalOfItoa(n);
  }

  lemma Split(height: nat, width: nat, vertical: int, horizontal: int)
    ensures Rendered(height, width, vertical, horizontal)
         == Itoa(height) + ("x" + (Itoa(width) + (Signed(vertical) + Signed(horizontal))))
  {
  }

  // What a directive asks for, read off its text: height, width, the way down
  // and the way across, each of the last two behind its sign.
  lemma OffsetMeans(h: string, w: string, down: char, v: string, across: char, z: string, rest: string)
    requires AreDigits(h) && AreDigits(w) && w != "" && h != "" && AreDigits(v) && AreDigits(z) && Separate(rest)
    requires down in "pm" && across in "pm"
    ensures Offset(h + ("x" + (w + ([down] + (v + ([across] + (z + rest))))))) ==
      if PlaceValue(h) <= INT_MAX && PlaceValue(w) <= INT_MAX && PlaceValue(v) <= INT_MAX && PlaceValue(z) <= INT_MAX then
        Cut(Crop(PlaceValue(w), PlaceValue(h), if across == 'm' then -PlaceValue(z) else PlaceValue(z),
                 if down == 'm' then -PlaceValue(v) else PlaceValue(v)))
      else Overflow
  {
    var s3 := [across] + (z + rest);
    var s2 := [down] + (v + s3);
    var s1 := w + s2;
    assert Separate("x" + s1) && Separate(s2) && Separate(s3);
    hide *;
    UnsignedMeans(h, "x" + s1);
    UnsignedMeans(w, s2);
    SignedMeans(down, v, s3);
    SignedMeans(across, z, rest);
    OffsetSteps(h + ("x" + s1), s1, s2, s3);
  }

  lemma OffsetSteps(s: string, s1: string, s2: string, s3: string)
    requires Rest(s) == "x" + s1 && Rest(s1) == s2 && Rest(s2) == s3
    ensures Offset(s) ==
      if Fits(s) && Fits(s1) && Fits(s2) && Fits(s3) then Cut(Crop(Number(s1), Number(s), Number(s3), Number(s2)))
      else Overflow
  {
    hide Rest, Fits, Number;
    assert ("x" + s1)[1..] == s1;
  }

  lemma UnsignedMeans(d: string, tail: string)
    requires AreDigits(d) && d != "" && Separate(tail)
    ensures var s := d + tail;
      Rest(s) == tail && (Fits(s) <==> PlaceValue(d) <= INT_MAX) && Number(s) == PlaceValue(d)
  {
    var s := d + tail;
    assert s[0] == d[0];
    NumberMeans(s, d, tail);
  }

  lemma SignedMeans(sign: char, d: string, tail: string)
    requires AreDigits(d) && Separate(tail) && sign in "pm"
    ensures var s := [sign] + (d + tail);
      && Rest(s) == tail && (Fits(s) <==> PlaceValue(d) <= INT_MAX)
      && Number(s) == if sign == 'm' then -PlaceValue(d) else PlaceValue(d)
  {
    var s := [sign] + (d + tail);
    assert s[1..] == d + tail;
    NumberMeans(s, d, tail);
  }

  // A numeral with or without a sign letter in front of it.
  lemma NumberMeans(s: string, d: string, tail: string)
    requires AreDigits(d) && Separate(tail) && Unsigned(s) == d + tail && s != ""
    ensures Rest(s) == tail && (Fits(s) <==> PlaceValue(d) <= INT_MAX)
    ensures Number(s) == if s[0] == 'm' then -PlaceValue(d) else PlaceValue(d)
  {
    SpanOfDigits(d, tail);
    assert (d + tail)[..|d|] == d && (d + tail)[|d|..] == tail;
    DecimalByPlaces(d);
    hide Decimal, PlaceValue;
  }

  // A width of zero is written as nothing, so that the sign of the vertical
  // offset is taken for its sign: reading gives back what was written exactly
  // when the width is not zero, or both offsets are.
  lemma OffsetOfRenderedIff(height: nat, width: nat, vertical: int, horizontal: int)
    requires InRange(height) && InRange(width) && InRange(vertical) && InRange(horizontal)
    ensures Offset(Rendered(height, width, vertical, horizontal)) == Cut(Crop(width, height, horizontal, vertical))
       <==> width > 0 || (vertical == 0 && horizontal == 0)
  {
    Split(height, width, vertical, horizontal);
    var v, h := Signed(vertical), Signed(horizontal);
    var w := Itoa(width) + (v + h);
    ReadsDigits(height, "x" + w);
    assert ("x" + w)[1..] == w;
    ReadsSigned(horizontal, "");
    assert h + "" == h;
    ReadsSigned(vertical, h);
    if width > 0 {
      ReadsDigits(width, v + h);
    } else {
      assert w == v + h;
      NothingReadsAsZero();
    }
  }

  lemma NothingReadsAsZero()
    ensures Fits("") && Number("") == 0 && Rest("") == ""
  {
  }

  // 10 high, no width, 5 down and 7 across: 5 is taken for the width, 7 for the
  // way down, and nothing is left for the way across.
  lemma ZeroWidthShifts()
    ensures Offset(Rendered(10, 0, 5, 7)) == Cut(Crop(5, 10, 0, 7))
  {
    Split(10, 0, 5, 7);
    var v, h := Signed(5), Signed(7);
    var w := Itoa(0) + (v + h);
    ReadsDigits(10, "x" + w);
    assert ("x" + w)[1..] == w == v + h;
    ReadsSigned(7, "");
    assert h + "" == h;
    ReadsSigned(5, h);
    NothingReadsAsZero();
  }
}
