// Percent encoding: writing it, undoing it in place, and looking up a
// variable in a form body or query string.

module UrlCodec {
  import opened Common

  // ---------- Characters (in the C locale) -----------------------------------

  predicate IsAlnum(c: char) { IsDigit(c) || 'a' <= c <= 'z' || 'A' <= c <= 'Z' }

  function Lower(c: char): (l: char) {
    if 'A' <= c <= 'Z' then (c as int + 32) as char else c
  }

  // The value of a lower-case hexadecimal digit: 'W' is ten less than 'a'.
  function HexToI(c: char): (v: int)
    requires IsHex(c) && c == Lower(c)
    ensures 0 <= v < 16
  {
    if IsDigit(c) then c as int - '0' as int else c as int - 'W' as int
  }

  function HexByte(a: char, b: char): (c: char)
    requires IsHex(a) && IsHex(b)
  {
    (16 * HexToI(Lower(a)) + HexToI(Lower(b))) as char
  }

  const HEX := "0123456789abcdef"
  const DONT_ESCAPE := "._-$,;~()"

  predicate Plain(c: char) { IsAlnum(c) || c in DONT_ESCAPE }

  predicate AreBytes(s: string) { forall i | 0 <= i < |s| :: s[i] as int < 256 }

  // ---------- What encoding and decoding mean -----------------------------------

  function EncodeChar(c: char): (e: string)
    requires c as int < 256
    ensures e == [c] || |e| == 3
  {
    if Plain(c) then [c] else ['%', HEX[c as int / 16], HEX[c as int % 16]]
  }

  function Encode(s: string): (e: string)
    requires AreBytes(s)
    ensures |s| <= |e| <= 3 * |s|
  {
    if s == "" then "" else EncodeChar(s[0]) + Encode(s[1..])
  }

  predicate StartsWithEscape(t: string) {
    |t| > 2 && t[0] == '%' && IsHex(t[1]) && IsHex(t[2])
  }

  // The bytes that the first n of t stand for.  An escape that begins among
  // them is taken whole even when its digits lie behind them.
  function Decode(t: string, n: int, form: bool): (d: string)
    requires n <= |t|
    ensures |d| <= Max(n, 0)
    decreases n
  {
    if n <= 0 then ""
    else if StartsWithEscape(t) then [HexByte(t[1], t[2])] + Decode(t[3..], n - 3, form)
    else [if form && t[0] == '+' then ' ' else t[0]] + Decode(t[1..], n - 1, form)
  }

  // ---------- Decoding undoes encoding ----------------------------------------------

  lemma HexByteOfDigits(c: char)
    requires c as int < 256
    ensures IsHex(HEX[c as int / 16]) && IsHex(HEX[c as int % 16])
    ensures HexByte(HEX[c as int / 16], HEX[c as int % 16]) == c
  {
    HexDigit(c as int / 16);
    HexDigit(c as int % 16);
  }

  lemma HexDigit(v: nat)
    requires v < 16
    ensures IsHex(HEX[v]) && Lower(HEX[v]) == HEX[v] && HexToI(HEX[v]) == v
  {
    if v < 8 {
      assert v == 0 || v == 1 || v == 2 || v == 3 || v == 4 || v == 5 || v == 6 || v == 7;
    } else {
      assert v == 8 || v == 9 || v == 10 || v == 11 || v == 12 || v == 13 || v == 14 || v == 15;
    }
  }

  // In either mode, and whatever stands behind.
  lemma {:induction false} DecodeOfEncode(s: string, behind: string, form: bool)
    requires AreBytes(s)
    ensures Decode(Encode(s) + behind, |Encode(s)|, form) == s
  {
    hide EncodeChar;
    if s != "" {
      var e, rest := EncodeChar(s[0]), Encode(s[1..]);
      hide Decode;
      DecodeOfEncode(s[1..], behind, form);
      Grouped(e, rest, behind);
      DecodeOfChar(s[0], rest + behind, |rest|, form);
    }
  }

  lemma Grouped(a: string, b: string, c: string)
    ensures a + b + c == a + (b + c)
  {
  }

  lemma DecodeOfChar(c: char, behind: string, n: nat, form: bool)
    requires c as int < 256 && n <= |behind|
    ensures Decode(EncodeChar(c) + behind, |EncodeChar(c)| + n, form) == [c] + Decode(behind, n, form)
  {
    var e := EncodeChar(c);
    var t := e + behind;
    assert t[|e|..] == behind && t[0] == e[0];
    if !Plain(c) {
      assert t[1] == e[1] && t[2] == e[2];
      HexByteOfDigits(c);
    }
  }

  // ---------- The two forms of writing, sign by sign -----------------------------------

  // The value of a hexadecimal digit of either case.
  function Place(c: char): (v: int) {
    if '0' <= c <= '9' then c as int - '0' as int
    else if 'a' <= c <= 'f' then 10 + c as int - 'a' as int
    else if 'A' <= c <= 'F' then 10 + c as int - 'A' as int
    else -1
  }

  // Letters, digits and nine signs are left alone; every other byte becomes a
  // percent sign and its two digits, in lower case.
  lemma WhatIsEscaped(c: char)
    requires c as int < 256
    ensures EncodeChar(c) == [c] <==>
      '0' <= c <= '9' || 'a' <= c <= 'z' || 'A' <= c <= 'Z' || c in ['.', '_', '-', '$', ',', ';', '~', '(', ')']
    ensures var e := EncodeChar(c); e != [c] ==>
      e[0] == '%' && 0 <= Place(e[1]) && 0 <= Place(e[2]) && 16 * Place(e[1]) + Place(e[2]) == c as int
      && !('A' <= e[1] <= 'F') && !('A' <= e[2] <= 'F')
  {
    HexPlace(c as int / 16);
    HexPlace(c as int % 16);
  }

  lemma HexPlace(v: nat)
    requires v < 16
    ensures Place(HEX[v]) == v && !('A' <= HEX[v] <= 'F')
  {
    HexDigit(v);
  }

  // A sign that stands for itself or, in a form, for a blank; or an escape.
  datatype Piece = Sign(c: char) | Escape(a: char, b: char)

  function PieceText(p: Piece): (t: string) {
    match p
    case Sign(c) => [c]
    case Escape(a, b) => ['%', a, b]
  }

  function PiecesThen(ps: seq<Piece>, behind: string): (t: string)
    ensures |t| >= |behind|
  {
    if ps == [] then behind else PieceText(ps[0]) + PiecesThen(ps[1..], behind)
  }

  // An escape has two digits, and a percent sign stands for itself only where
  // two digits do not follow.
  predicate CutUp(ps: seq<Piece>, behind: string) {
    ps == [] ||
      var t := PiecesThen(ps[1..], behind);
      && (match ps[0]
          case Sign(c) => !(c == '%' && |t| >= 2 && 0 <= Place(t[0]) && 0 <= Place(t[1]))
          case Escape(a, b) => 0 <= Place(a) && 0 <= Place(b))
      && CutUp(ps[1..], behind)
  }

  function PieceMeans(p: Piece, form: bool): (c: char) {
    match p
    case Sign(c) => if form && c == '+' then ' ' else c
    case Escape(a, b) =>
      if 0 <= Place(a) && 0 <= Place(b) then (16 * Place(a) + Place(b)) as char else '%'
  }

  function PiecesMean(ps: seq<Piece>, form: bool): (d: string) {
    if ps == [] then "" else [PieceMeans(ps[0], form)] + PiecesMean(ps[1..], form)
  }

  // Decoding reads every text piece by piece, upper-case digits as well as
  // lower-case ones.
  lemma {:induction false} DecodePieces(ps: seq<Piece>, behind: string, form: bool)
    requires CutUp(ps, behind)
    ensures var t := PiecesThen(ps, behind);
      Decode(t, |t| - |behind|, form) == PiecesMean(ps, form)
  {
    if ps != [] {
      var t := PiecesThen(ps[1..], behind);
      DecodePieces(ps[1..], behind, form);
      var all := PiecesThen(ps, behind);
      hide Decode, PieceMeans, Place;
      DecodePiece(ps[0], t, all, |t| - |behind|, form);
    }
  }

  lemma DecodePiece(p: Piece, t: string, all: string, k: nat, form: bool)
    requires k <= |t| && all == PieceText(p) + t
    requires match p
             case Sign(c) => !(c == '%' && |t| >= 2 && 0 <= Place(t[0]) && 0 <= Place(t[1]))
             case Escape(a, b) => 0 <= Place(a) && 0 <= Place(b)
    ensures Decode(all, |PieceText(p)| + k, form) == [PieceMeans(p, form)] + Decode(t, k, form)
  {
    assert all[|PieceText(p)|..] == t;
    match p
    case Sign(c) =>
      assert all[0] == c && (|t| >= 2 ==> all[1] == t[0] && all[2] == t[1]);
    case Escape(a, b) =>
      assert all[1] == a && all[2] == b;
  }

  // Every text can be cut up so.
  lemma {:induction false} EveryText(t: string, n: nat) returns (ps: seq<Piece>, behind: string)
    requires n <= |t|
    ensures CutUp(ps, behind) && t == PiecesThen(ps, behind) && |behind| <= |t| - n
    ensures |t| - n <= |behind| + 2
    decreases n
  {
    if n == 0 {
      ps, behind := [], t;
    } else {
      var p := if |t| > 2 && t[0] == '%' && 0 <= Place(t[1]) && 0 <= Place(t[2]) then Escape(t[1], t[2]) else Sign(t[0]);
      var k := |PieceText(p)|;
      assert t == PieceText(p) + t[k..];
      var qs: seq<Piece>;
      if k < n {
        qs, behind := EveryText(t[k..], n - k);
      } else {
        qs, behind := [], t[k..];
      }
      ps := [p] + qs;
      assert ps[1..] == qs;
    }
  }

  // ---------- url_encode ----------------------------------------------------------------

  // What is written for one character over `under`, the room in front of the
  // terminator.  An escape that does not fit is dropped, but a byte is skipped.
  function EmittedChar(c: char, under: string): (w: string)
    requires c as int < 256 && under != ""
    ensures 1 <= |w| <= |under|
  {
    if Plain(c) || |under| >= 3 then EncodeChar(c) else [under[0]]
  }

  function Emitted(s: string, under: string): (w: string)
    requires AreBytes(s)
    ensures |w| <= |under|
  {
    if s == "" || under == "" then ""
    else
      var w := EmittedChar(s[0], under);
      w + Emitted(s[1..], under[|w|..])
  }

  // It is the encoding exactly when the encoding fits.
  lemma {:induction false} EncodesIffRoom(s: string, under: string)
    requires AreBytes(s)
    ensures Emitted(s, under) == Encode(s) <==> |Encode(s)| <= |under|
  {
    if s != "" && |Encode(s)| <= |under| {
      EncodesIffRoom(s[1..], under[|EncodeChar(s[0])|..]);
    }
  }

  // In room for two bytes the escape of a slash is dropped, and the first byte
  // is what was there before.
  lemma NoRoomForEscape(under: string)
    requires |under| == 2
    ensures Emitted("/", under) == under[..1] && Encode("/") == "%2f"
  {
    assert Emitted("", under[1..]) == "";
  }

  lemma ThreeTimesIsEnough(s: string, under: string)
    requires AreBytes(s) && |under| >= 3 * |s|
    ensures Emitted(s, under) == Encode(s)
  {
    EncodesIffRoom(s, under);
  }

  method EmitChar(c: char, dst: array<char>, d: nat, end: nat) returns (next: nat)
    requires c as int < 256 && d < end < dst.Length
    modifies dst
    ensures d < next <= end && dst[d..next] == EmittedChar(c, old(dst[d..end]))
    ensures dst[..d] == old(dst[..d]) && dst[next..] == old(dst[next..])
  {
    next := d + 1;
    if Plain(c) {
      dst[d] := c;
    } else if d + 2 < end {
      dst[d] := '%';
      dst[d + 1] := HEX[c as int / 16];
      dst[d + 2] := HEX[c as int % 16];
      next := d + 3;
    }
  }

  method UrlEncode(s: string, dst: array<char>, dstLen: nat)
    requires AreBytes(s) && 1 <= dstLen <= dst.Length
    modifies dst
    ensures var w := Emitted(s, old(dst[..dstLen - 1]));
      dst[..|w|] == w && dst[|w|] == '\0' && dst[|w| + 1..] == old(dst[|w| + 1..])
  {
    hide EmittedChar, Emitted;
    var end := dstLen - 1;
    var d := 0;
    var src := s;
    ghost var was := dst[..];
    ghost var w := Emitted(s, was[..end]);
    while src != "" && d < end
      invariant d <= end && AreBytes(src)
      invariant w == dst[..d] + Emitted(src, was[d..end])
      invariant dst[d..] == was[d..]
      decreases |src|
    {
      assert dst[d..end] == was[d..end];
      var next := EmitChar(src[0], dst, d, end);
      assert was[d..end][next - d..] == was[next..end];
      EmittedUnfolds(src, was[d..end]);
      Grouped(dst[..d], dst[d..next], Emitted(src[1..], was[next..end]));
      assert dst[..next] == dst[..d] + dst[d..next];
      assert dst[next..] == was[d..][next - d..];
      d := next;
      src := src[1..];
    }
    EmittedUnfolds(src, was[d..end]);
    dst[d] := '\0';
  }

  lemma EmittedUnfolds(s: string, under: string)
    requires AreBytes(s)
    ensures s == "" || under == "" ==> Emitted(s, under) == ""
    ensures s != "" && under != "" ==>
      Emitted(s, under) == EmittedChar(s[0], under) + Emitted(s[1..], under[|EmittedChar(s[0], under)|..])
  {
  }

  // ---------- url_decode ----------------------------------------------------------------

  // What the source must be: n bytes and, only where a percent sign among the
  // last two makes the C code look behind them, a byte or two more.
  predicate Readable(t: string, n: nat) {
    && n <= |t|
    && (n >= 1 && t[n - 1] == '%' ==> n < |t| && (IsHex(t[n]) ==> n + 1 < |t|))
    && (n >= 2 && t[n - 2] == '%' && IsHex(t[n - 1]) ==> n < |t|)
  }

  method DecodeByte(src: array<char>, at: nat, n: nat, form: bool) returns (c: char, used: nat)
    requires 0 < n && at <= src.Length && Readable(src[at..], n)
    ensures 1 <= used && at + used <= src.Length && n - used <= src.Length - (at + used)
    ensures Decode(src[at..], n, form) == [c] + Decode(src[at + used..], n - used, form)
    ensures used <= n ==> Readable(src[at + used..], n - used)
  {
    hide Decode;
    ghost var t := src[at..];
    InBounds(t, n);
    hide Readable;
    used := 1;
    if src[at] == '%' && IsHex(src[at + 1]) && IsHex(src[at + 2]) {
      var a, b := Lower(src[at + 1]), Lower(src[at + 2]);
      c := (16 * HexToI(a) + HexToI(b)) as char;
      used := 3;
      DecodeEscape(t, n, form);
    } else {
      c := if form && src[at] == '+' then ' ' else src[at];
      DecodePlain(t, n, form);
    }
    assert t[used..] == src[at + used..];
    if used <= n {
      ReadableTail(t, n, used);
    }
  }

  lemma InBounds(t: string, n: nat)
    requires 0 < n && Readable(t, n)
    ensures t[0] == '%' ==> |t| > 1 && (IsHex(t[1]) ==> |t| > 2)
  {
  }

  lemma ReadableTail(t: string, n: nat, used: nat)
    requires used <= n && Readable(t, n)
    ensures Readable(t[used..], n - used)
  {
  }

  lemma DecodeEscape(t: string, n: nat, form: bool)
    requires 0 < n <= |t| && StartsWithEscape(t)
    ensures Decode(t, n, form) == [HexByte(t[1], t[2])] + Decode(t[3..], n - 3, form)
  {
  }

  lemma DecodePlain(t: string, n: nat, form: bool)
    requires 0 < n <= |t| && !StartsWithEscape(t)
    ensures Decode(t, n, form) == [if form && t[0] == '+' then ' ' else t[0]] + Decode(t[1..], n - 1, form)
  {
  }

  // One decoded byte, put at j.  In place, j is not behind what is read.
  method DecodeOne(src: array<char>, at: nat, n: nat, dst: array<char>, j: nat, form: bool) returns (used: nat)
    requires 0 < n && at <= src.Length && Readable(src[at..], n)
    requires j < dst.Length && (src == dst ==> j <= at)
    modifies dst
    ensures 1 <= used && at + used <= src.Length && n - used <= src.Length - (at + used)
    ensures src[at + used..] == old(src[at..])[used..]
    ensures Decode(old(src[at..]), n, form) == [dst[j]] + Decode(src[at + used..], n - used, form)
    ensures used <= n ==> Readable(src[at + used..], n - used)
    ensures dst[..j + 1] == old(dst[..j]) + [dst[j]]
    ensures forall k | j < k < dst.Length :: dst[k] == old(dst[k])
  {
    hide Decode, Readable;
    var c: char;
    c, used := DecodeByte(src, at, n, form);
    ghost var rest := src[at + used..];
    dst[j] := c;
    assert src[at + used..] == rest;
  }

  // The loop has read up to i and written up to j: d is what has been written
  // and what the rest of the source gives.  In place, j never passes i.
  ghost predicate Decoding(src: array<char>, from: nat, n: nat, dst: array<char>, i: nat, j: nat, d: string, form: bool)
    reads src, dst
  {
    && from + i <= src.Length && n - i <= src.Length - (from + i) && j <= dst.Length
    && j <= i && (src == dst ==> from == 0)
    && (i <= n ==> Readable(src[from + i..], n - i))
    && d == dst[..j] + Decode(src[from + i..], n - i, form)
  }

  method DecodeNext(src: array<char>, from: nat, n: nat, dst: array<char>, i: nat, j: nat, ghost d: string, form: bool)
    returns (next: nat)
    requires Decoding(src, from, n, dst, i, j, d, form) && i < n && j < dst.Length
    modifies dst
    ensures i < next && Decoding(src, from, n, dst, next, j + 1, d, form)
    ensures forall k | j < k < dst.Length :: dst[k] == old(dst[k])
  {
    hide Decode, Readable;
    ghost var done := dst[..j];
    var used := DecodeOne(src, from + i, n - i, dst, j, form);
    Grouped(done, [dst[j]], Decode(src[from + i + used..], n - i - used, form));
    next := i + used;
  }

  lemma DecodingStarts(src: array<char>, from: nat, n: nat, dst: array<char>, form: bool)
    requires from <= src.Length && Readable(src[from..], n) && (src == dst ==> from == 0)
    ensures Decoding(src, from, n, dst, 0, 0, Decode(src[from..], n, form), form)
  {
    hide Decode;
    assert src[from + 0..] == src[from..];
    assert dst[..0] + Decode(src[from..], n, form) == Decode(src[from..], n, form);
  }

  // As much of d as fits in front of a terminator.
  function Fitting(dstLen: nat, d: string): (k: nat)
    requires dstLen > 0
  {
    if |d| < dstLen then |d| else dstLen - 1
  }

  ghost predicate Holds(dst: array<char>, dstLen: nat, d: string)
    requires 0 < dstLen <= dst.Length
    reads dst
  {
    var k := Fitting(dstLen, d);
    dst[..k] == d[..k] && dst[k] == '\0'
  }

  // The source may be the destination itself.
  method UrlDecode(src: array<char>, from: nat, srcLen: nat, dst: array<char>, dstLen: nat, form: bool) returns (r: int)
    requires from <= src.Length && Readable(src[from..], srcLen)
    requires 1 <= dstLen <= dst.Length && (src == dst ==> from == 0)
    modifies dst
    ensures r == if |Decode(old(src[from..]), srcLen, form)| < dstLen then |Decode(old(src[from..]), srcLen, form)| else -1
    ensures Holds(dst, dstLen, Decode(old(src[from..]), srcLen, form))
    ensures forall k | Fitting(dstLen, Decode(old(src[from..]), srcLen, form)) < k < dst.Length :: dst[k] == old(dst[k])
  {
    ghost var d := Decode(src[from..], srcLen, form);
    DecodingStarts(src, from, srcLen, dst, form);
    hide Decode, Readable, Decoding;
    var i, j := 0, 0;
    while i < srcLen && j < dstLen - 1
      invariant Decoding(src, from, srcLen, dst, i, j, d, form)
      invariant j < dstLen && forall k | j <= k < dst.Length :: dst[k] == old(dst[k])
      decreases srcLen - i
    {
      i := DecodeNext(src, from, srcLen, dst, i, j, d, form);
      j := j + 1;
    }
    DecodingEnds(src, from, srcLen, dst, i, j, d, form);
    dst[j] := '\0';
    r := if i >= srcLen then j else -1;
  }

  lemma DecodingEnds(src: array<char>, from: nat, n: nat, dst: array<char>, i: nat, j: nat, d: string, form: bool)
    requires Decoding(src, from, n, dst, i, j, d, form)
    ensures j <= dst.Length && dst[..j] <= d && (i >= n <==> |d| == j)
  {
  }

  // ---------- mg_get_var -------------------------------------------------------------------

  predicate SameNoCase(a: string, b: string) {
    |a| == |b| && forall i | 0 <= i < |a| :: Lower(a[i]) == Lower(b[i])
  }

  predicate VarHere(s: string, q: string) {
    |q| < |s| && s[|q|] == '=' && SameNoCase(q, s[..|q|])
  }

  // The first place behind a '&', or at the very start, where `q` and '='
  // follow; -1 if there is none.
  function FindVar(s: string, first: bool, q: string): (at: int)
    ensures -1 <= at && at + |q| < Max(|s|, |q|)
  {
    if |q| >= |s| then -1
    else if first && VarHere(s, q) then 0
    else
      var at := FindVar(s[1..], s[0] == '&', q);
      if at < 0 then -1 else at + 1
  }

  function ValueLen(s: string): (n: nat)
    ensures n <= |s| && (forall i | 0 <= i < n :: s[i] != '&') && (n < |s| ==> s[n] == '&')
  {
    if s == "" || s[0] == '&' then 0 else 1 + ValueLen(s[1..])
  }

  // The decoded value of variable q in the first n bytes of the memory.
  function Lookup(memory: string, n: nat, q: string): (v: Option<string>)
    requires n <= |memory|
  {
    var at := FindVar(memory[..n], true, q);
    if at < 0 then None
    else
      var v := at + |q| + 1;
      Some(Decode(memory[v..], ValueLen(memory[v..n]), true))
  }

  // The value stands behind the first place of the variable, up to the next '&'
  // or the end of the data, and is decoded as a form.
  lemma LookupMeans(memory: string, n: nat, q: string, at: nat, ps: seq<Piece>, behind: string)
    requires n <= |memory| && StandsAt(memory[..n], at, q) && forall i: nat | i < at :: !StandsAt(memory[..n], i, q)
    requires CutUp(ps, behind) && PiecesThen(ps, behind) == memory[at + |q| + 1..]
    requires var end := |memory| - |behind|;
      at + |q| + 1 <= end <= n && '&' !in memory[at + |q| + 1..end] && (end == n || memory[end] == '&')
    ensures Lookup(memory, n, q) == Some(PiecesMean(ps, true))
  {
    hide Decode, CutUp, PiecesThen, PiecesMean, StandsAt, FindVar;
    FirstVariable(memory[..n], q, at);
    DecodePieces(ps, behind, true);
    LengthOfValue(memory, n, at + |q| + 1, |memory| - |behind|);
  }

  lemma LengthOfValue(memory: string, n: nat, v: nat, end: nat)
    requires v <= end <= n <= |memory| && '&' !in memory[v..end] && (end == n || memory[end] == '&')
    ensures ValueLen(memory[v..n]) == end - v
  {
    var s := memory[v..n];
    assert forall i | 0 <= i < end - v :: s[i] == memory[v..end][i];
    assert end < n ==> s[end - v] == memory[end];
  }

  // The value of the variable, if there is one, can be decoded.
  predicate ValueReadable(memory: string, n: nat, q: string)
    requires n <= |memory|
  {
    var at := FindVar(memory[..n], true, q);
    at >= 0 ==>
      var v := at + |q| + 1;
      Readable(memory[v..], ValueLen(memory[v..n]))
  }

  // It can when the data as a whole could: a value ends at a '&' or with the
  // data.
  lemma ReadableValue(memory: string, n: nat, q: string)
    requires Readable(memory, n)
    ensures ValueReadable(memory, n, q)
  {
    var at := FindVar(memory[..n], true, q);
    if at >= 0 {
      var v := at + |q| + 1;
      var s, k := memory[v..], ValueLen(memory[v..n]);
      assert forall i | 0 <= i < |s| :: s[i] == memory[v + i];
      assert v + k < n ==> memory[v..n][k] == '&';
    }
  }

  // The same characters, or the two cases of one letter.
  lemma EqualUpToCase(a: char, b: char)
    ensures Lower(a) == Lower(b) <==>
      || a == b
      || ('A' <= a <= 'Z' && 'a' <= b <= 'z' && a as int - 'A' as int == b as int - 'a' as int)
      || ('a' <= a <= 'z' && 'A' <= b <= 'Z' && a as int - 'a' as int == b as int - 'A' as int)
  {
  }

  // The first place that is the start or behind a '&', where the name and a
  // '=' stand.
  ghost predicate StandsAt(s: string, i: nat, q: string) {
    i + |q| < |s| && (i == 0 || s[i - 1] == '&') && s[i + |q|] == '=' && SameNoCase(q, s[i..i + |q|])
  }

  lemma {:induction false} FirstVariable(s: string, q: string, at: nat)
    ensures FindVar(s, true, q) == at <==> StandsAt(s, at, q) && forall i: nat | i < at :: !StandsAt(s, i, q)
  {
    assert s[0..] == s;
    Places(s, 0, q);
  }

  // Seen from p on.
  lemma {:induction false} Places(s: string, p: nat, q: string)
    requires p <= |s|
    ensures var at := FindVar(s[p..], p == 0 || s[p - 1] == '&', q);
      && (at >= 0 ==> StandsAt(s, p + at, q) && forall i: nat | p <= i < p + at :: !StandsAt(s, i, q))
      && (at < 0 ==> forall i: nat | p <= i :: !StandsAt(s, i, q))
    decreases |s| - p
  {
    if p + |q| < |s| {
      hide *;
      FindStep(s, p, q);
      Places(s, p + 1, q);
    }
  }

  lemma FindStep(s: string, p: nat, q: string)
    requires p <= |s|
    ensures FindVar(s[p..], p == 0 || s[p - 1] == '&', q) ==
      if p + |q| >= |s| then -1
      else if StandsAt(s, p, q) then 0
      else
        var at := FindVar(s[p + 1..], s[p] == '&', q);
        if at < 0 then -1 else at + 1
  {
    var t := s[p..];
    if |q| < |t| {
      assert t[|q|] == s[p + |q|] && t[..|q|] == s[p..p + |q|] && t[1..] == s[p + 1..];
    }
  }

  method StrNCaseCmp(s1: string, data: array<char>, p: nat, len: nat) returns (diff: int)
    requires len <= |s1| && p + len <= data.Length && '\0' !in s1
    ensures diff == 0 <==> SameNoCase(s1[..len], data[p..p + len])
  {
    diff := 0;
    if len > 0 {
      diff := Lower(s1[0]) as int - Lower(data[p]) as int;
      var i := 1;
      while diff == 0 && s1[i - 1] != '\0' && i < len
        invariant 1 <= i <= len
        invariant forall k | 0 <= k < i - 1 :: Lower(s1[k]) == Lower(data[p + k])
        invariant diff == Lower(s1[i - 1]) as int - Lower(data[p + i - 1]) as int
        decreases len - i
      {
        diff := Lower(s1[i]) as int - Lower(data[p + i]) as int;
        i := i + 1;
      }
      if diff != 0 {
        assert Lower(s1[..len][i - 1]) != Lower(data[p..p + len][i - 1]);
      }
    }
  }

  // Nothing has been found in front of p.
  ghost predicate Searching(s: string, p: nat, q: string) {
    p <= |s| &&
    var at := FindVar(s[p..], p == 0 || s[p - 1] == '&', q);
    FindVar(s, true, q) == if at < 0 then -1 else p + at
  }

  lemma NotHere(s: string, p: nat, q: string)
    requires Searching(s, p, q) && p + |q| < |s| && !((p == 0 || s[p - 1] == '&') && VarHere(s[p..], q))
    ensures Searching(s, p + 1, q)
  {
    hide VarHere;
    assert s[p..][1..] == s[p + 1..];
  }

  // Decode up to the next '&' or the end of the data.
  method DecodeValue(data: array<char>, dataLen: nat, p: nat, dst: array<char>, dstLen: nat) returns (len: int)
    requires p <= dataLen <= data.Length && Readable(data[p..], ValueLen(data[p..dataLen]))
    requires 0 < dstLen <= dst.Length && data != dst
    modifies dst
    ensures var d := Decode(data[p..], ValueLen(data[p..dataLen]), true);
      Holds(dst, dstLen, d) && len == if |d| < dstLen then |d| else -2
  {
    hide Decode, Holds;
    var s := p;
    while s < dataLen && data[s] != '&'
      invariant p <= s <= dataLen && s - p <= ValueLen(data[p..dataLen])
    {
      s := s + 1;
    }
    assert s - p == ValueLen(data[p..dataLen]);
    len := UrlDecode(data, p, s - p, dst, dstLen, true);
    if len == -1 { len := -2; }
  }

  method FindVariable(data: array<char>, dataLen: nat, name: string) returns (at: int)
    requires dataLen <= data.Length && '\0' !in name
    ensures at == FindVar(data[..dataLen], true, name)
  {
    hide ValueLen, VarHere, FindVar;
    ghost var text := data[..dataLen];
    SearchStarts(text, name);
    var p := 0;
    while p + |name| < dataLen
      invariant Searching(text, p, name)
    {
      VarHereAt(data, dataLen, p, name);
      if (p == 0 || data[p - 1] == '&') && data[p + |name|] == '=' {
        var diff := StrNCaseCmp(name, data, p, |name|);
        if diff == 0 {
          FoundHere(text, p, name);
          return p;
        }
      }
      NotHere(text, p, name);
      p := p + 1;
    }
    SearchEnds(text, p, name);
    return -1;
  }

  // -2: the destination is too small; -1: there is no such variable.
  method MgGetVar(data: array<char>, dataLen: nat, name: string, dst: array<char>, dstLen: nat) returns (len: int)
    requires dataLen <= data.Length && ValueReadable(data[..], dataLen, name)
    requires '\0' !in name && dstLen <= dst.Length && data != dst
    modifies dst
    ensures dstLen == 0 ==> len == -2 && dst[..] == old(dst[..])
    ensures dstLen > 0 ==> match Lookup(data[..], dataLen, name)
      case None => len == -1 && dst[0] == '\0'
      case Some(d) => len == (if |d| < dstLen then |d| else -2) && Holds(dst, dstLen, d)
  {
    hide Decode, ValueLen, Holds, FindVar;
    if dstLen == 0 { return -2; }
    dst[0] := '\0';
    assert data[..][..dataLen] == data[..dataLen];
    var at := FindVariable(data, dataLen, name);
    if at < 0 { return -1; }
    var p := at + |name| + 1;
    assert data[..][p..] == data[p..] && data[..][p..dataLen] == data[p..dataLen];
    len := DecodeValue(data, dataLen, p, dst, dstLen);
  }

  lemma SearchStarts(s: string, q: string)
    ensures Searching(s, 0, q) && (s == "" ==> FindVar(s, true, q) == -1)
  {
    assert s[0..] == s;
  }

  lemma SearchEnds(s: string, p: nat, q: string)
    requires Searching(s, p, q) && p + |q| >= |s|
    ensures FindVar(s, true, q) == -1
  {
  }

  lemma FoundHere(s: string, p: nat, q: string)
    requires Searching(s, p, q) && (p == 0 || s[p - 1] == '&') && VarHere(s[p..], q)
    ensures FindVar(s, true, q) == p
  {
  }

  lemma VarHereAt(data: array<char>, n: nat, p: nat, q: string)
    requires p + |q| < n <= data.Length
    ensures VarHere(data[..n][p..], q) <==> data[p + |q|] == '=' && SameNoCase(q, data[p..p + |q|])
    ensures p > 0 ==> data[..n][p - 1] == data[p - 1]
  {
    assert data[..n][p..][..|q|] == data[p..p + |q|];
  }

  // ---------- Variables in a form ------------------------------------------------------------

  datatype Pair = Pair(name: string, value: string)

  predicate Proper(v: Pair) {
    AreBytes(v.value) && '&' !in v.name && '=' !in v.name
  }

  predicate AllProper(form: seq<Pair>) {
    forall i | 0 <= i < |form| :: Proper(form[i])
  }

  function Written(v: Pair): (s: string)
    requires Proper(v)
  {
    v.name + "=" + Encode(v.value)
  }

  function Join(form: seq<Pair>): (s: string)
    requires AllProper(form)
  {
    if form == [] then ""
    else if |form| == 1 then Written(form[0])
    else Written(form[0]) + "&" + Join(form[1..])
  }

  function FirstValue(form: seq<Pair>, q: string): (v: Option<string>) {
    if form == [] then None
    else if SameNoCase(q, form[0].name) then Some(form[0].value)
    else FirstValue(form[1..], q)
  }

  lemma {:induction false} EncodeIsClean(s: string)
    requires AreBytes(s)
    ensures '&' !in Encode(s) && '=' !in Encode(s)
  {
    if s != "" {
      EncodeIsClean(s[1..]);
      CharIsClean(s[0]);
    }
  }

  lemma CharIsClean(c: char)
    requires c as int < 256
    ensures '&' !in EncodeChar(c) && '=' !in EncodeChar(c)
  {
    HexByteOfDigits(c);
  }

  // Inside a pair there is no place where a variable could begin.
  lemma {:induction false} NothingInside(seg: string, q: string)
    requires '&' !in seg
    ensures FindVar(seg, false, q) == -1
  {
    if |q| < |seg| {
      NothingInside(seg[1..], q);
    }
  }

  lemma {:induction false} OnToNextPair(seg: string, rest: string, q: string)
    requires '&' !in seg
    ensures var at := FindVar(rest, true, q);
      FindVar(seg + "&" + rest, false, q) == if at < 0 then -1 else at + |seg| + 1
    decreases |seg|
  {
    var s := seg + "&" + rest;
    if seg == "" {
      assert s[1..] == rest && s[0] == '&';
    } else {
      assert s[1..] == seg[1..] + "&" + rest;
      OnToNextPair(seg[1..], rest, q);
    }
  }

  // A pair is found by its own name only.
  lemma FoundByName(v: Pair, tail: string, q: string)
    requires Proper(v) && '&' !in q && (tail == "" || tail[0] == '&')
    ensures VarHere(Written(v) + tail, q) <==> SameNoCase(q, v.name)
  {
    var w := Written(v);
    var s := w + tail;
    EncodeIsClean(v.value);
    assert s[|v.name|] == '=';
    if VarHere(s, q) {
      assert |q| == |v.name| by { NameEndsAtFirstEquals(v.name, Encode(v.value), tail, q); }
      assert s[..|q|] == v.name;
    }
    if SameNoCase(q, v.name) {
      assert s[..|q|] == v.name;
    }
  }

  lemma NameEndsAtFirstEquals(n: string, e: string, tail: string, q: string)
    requires '=' !in n && '=' !in e && '&' !in q && (tail == "" || tail[0] == '&')
    requires VarHere(n + "=" + e + tail, q)
    ensures |q| == |n|
  {
    var s, k := n + "=" + e + tail, |n + e| + 1;
    assert forall i | 0 <= i < |n| :: s[i] == n[i];
    assert forall i | |n| < i < k :: s[i] == e[i - |n| - 1];
    assert forall i | 0 <= i < |q| :: Lower(q[i]) == Lower(s[..|q|][i]) == Lower(s[i]);
    assert tail != "" ==> s[k] == '&';
    assert forall c | Lower(c) == '&' :: c == '&';
  }

  // The value ends where its encoding ends.
  lemma {:induction false} ValueEnds(e: string, tail: string)
    requires '&' !in e && (tail == "" || tail[0] == '&')
    ensures ValueLen(e + tail) == |e|
  {
    if e == "" {
      assert e + tail == tail;
    } else {
      assert (e + tail)[1..] == e[1..] + tail;
      ValueEnds(e[1..], tail);
    }
  }

  lemma FirstPairFound(v: Pair, tail: string, behind: string, q: string)
    requires Proper(v) && '&' !in q && (tail == "" || tail[0] == '&') && SameNoCase(q, v.name)
    ensures Lookup(Written(v) + tail + behind, |Written(v) + tail|, q) == Some(v.value)
  {
    hide Encode, Decode;
    var w, e := Written(v), Encode(v.value);
    var memory, n := w + tail + behind, |w + tail|;
    FoundByName(v, tail, q);
    assert memory[..n] == w + tail;
    assert memory[|q| + 1..] == e + (tail + behind);
    assert memory[|q| + 1..n] == e + tail;
    EncodeIsClean(v.value);
    ValueEnds(e, tail);
    DecodeOfEncode(v.value, tail + behind, true);
  }

  // What stands in front of a form only moves what is found in it.
  lemma LookupBehind(front: string, rest: string, behind: string, q: string)
    requires var at := FindVar(rest, true, q);
      FindVar(front + rest, true, q) == if at < 0 then -1 else at + |front|
    ensures Lookup(front + rest + behind, |front + rest|, q) == Lookup(rest + behind, |rest|, q)
  {
    hide Decode, ValueLen, FindVar;
    var memory, n, inner := front + rest + behind, |front + rest|, rest + behind;
    assert memory[..n] == front + rest && inner[..|rest|] == rest;
    var at := FindVar(rest, true, q);
    if at >= 0 {
      var v := at + |q| + 1;
      assert memory == front + inner;
      assert memory[v + |front|..] == inner[v..];
      assert memory[v + |front|..n] == inner[v..|rest|];
    }
  }

  lemma NotAtTheStart(s: string, q: string)
    requires s != "" && !VarHere(s, q)
    ensures FindVar(s, true, q) == FindVar(s, false, q)
  {
  }

  // The value found is that of the first pair with the name, whatever the
  // memory behind the form holds.
  lemma {:induction false} LookupInForm(form: seq<Pair>, behind: string, q: string)
    requires AllProper(form) && '&' !in q
    ensures Lookup(Join(form) + behind, |Join(form)|, q) == FirstValue(form, q)
  {
    if form == [] {
      assert (Join(form) + behind)[..0] == "";
    } else {
      hide Lookup, SameNoCase, VarHere;
      var w, more := Written(form[0]), |form| > 1;
      var tail := if more then "&" + Join(form[1..]) else "";
      assert Join(form) == w + tail;
      FoundByName(form[0], tail, q);
      if SameNoCase(q, form[0].name) {
        FirstPairFound(form[0], tail, behind, q);
      } else {
        OtherPairs(form, behind, q);
        LookupInForm(form[1..], behind, q);
      }
    }
  }

  lemma OtherPairs(form: seq<Pair>, behind: string, q: string)
    requires AllProper(form) && '&' !in q && form != [] && !VarHere(Join(form), q)
    ensures Lookup(Join(form) + behind, |Join(form)|, q) == Lookup(Join(form[1..]) + behind, |Join(form[1..])|, q)
  {
    hide Lookup, VarHere;
    var w, rest := Written(form[0]), Join(form[1..]);
    EncodeIsClean(form[0].value);
    NotAtTheStart(Join(form), q);
    if |form| == 1 {
      NothingInside(w, q);
      NoVariable(w, behind, q);
      NoVariable("", behind, q);
    } else {
      OnToNextPair(w, rest, q);
      LookupBehind(w + "&", rest, behind, q);
    }
  }

  lemma NoVariable(s: string, behind: string, q: string)
    requires s == "" || FindVar(s, true, q) == -1
    ensures Lookup(s + behind, |s|, q) == None
  {
    assert (s + behind)[..|s|] == s;
  }

  // ---------- A form that fills its buffer ----------------------------------------------------

  // An encoded text never ends within an escape.
  lemma {:induction false} EncodeEndsWhole(before: string, s: string)
    requires AreBytes(s) && Readable(before, |before|)
    ensures Readable(before + Encode(s), |before + Encode(s)|)
    decreases |s|
  {
    if s == "" {
      assert before + Encode(s) == before;
    } else {
      CharEndsWhole(before, s[0]);
      Grouped(before, EncodeChar(s[0]), Encode(s[1..]));
      EncodeEndsWhole(before + EncodeChar(s[0]), s[1..]);
    }
  }

  lemma CharEndsWhole(before: string, c: char)
    requires c as int < 256 && Readable(before, |before|)
    ensures Readable(before + EncodeChar(c), |before + EncodeChar(c)|)
  {
    EncodedEnd(c);
    hide EncodeChar, Plain, IsHex;
    var e := EncodeChar(c);
    var t, n := before + e, |before + e|;
    assert t[n - 1] == e[|e| - 1];
    assert n >= 2 ==> t[n - 2] == if |e| > 1 then e[|e| - 2] else before[|before| - 1];
  }

  // An escape ends two places behind its percent sign.
  lemma EncodedEnd(c: char)
    requires c as int < 256
    ensures var e := EncodeChar(c); e != "" && e[|e| - 1] != '%' && (|e| > 1 ==> e[|e| - 2] != '%')
  {
    HexByteOfDigits(c);
  }

  lemma PairEndsWhole(before: string, v: Pair)
    requires Proper(v)
    ensures Readable(before + Written(v), |before + Written(v)|)
  {
    var head := before + v.name + "=";
    assert head[|head| - 1] == '=';
    EncodeEndsWhole(head, v.value);
    assert head + Encode(v.value) == before + Written(v);
  }

  // A form of encoded pairs can be decoded with no byte behind it.
  lemma FormIsReadable(form: seq<Pair>)
    requires AllProper(form)
    ensures Readable(Join(form), |Join(form)|)
  {
    FormEndsWhole("", form);
    assert "" + Join(form) == Join(form);
  }

  lemma {:induction false} FormEndsWhole(before: string, form: seq<Pair>)
    requires AllProper(form) && (form == [] ==> before == "")
    ensures Readable(before + Join(form), |before + Join(form)|)
    decreases |form|
  {
    hide Written, Readable;
    if form == [] {
      NothingToRead();
      assert before + Join(form) == "";
    } else if |form| == 1 {
      PairEndsWhole(before, form[0]);
    } else {
      var w := Written(form[0]) + "&";
      Grouped(before, w, Join(form[1..]));
      FormEndsWhole(before + w, form[1..]);
    }
  }

  lemma NothingToRead()
    ensures Readable("", 0)
  {
  }

  // The buffer holds a form and nothing else, as when a request body has been
  // read into it: the variable is found by name, and its value decoded.
  method GetFormVar(data: array<char>, ghost form: seq<Pair>, name: string, dst: array<char>, dstLen: nat)
    returns (len: int)
    requires AllProper(form) && data[..] == Join(form)
    requires '\0' !in name && '&' !in name && 0 < dstLen <= dst.Length && data != dst
    modifies dst
    ensures match FirstValue(form, name)
      case None => len == -1 && dst[0] == '\0'
      case Some(d) => len == (if |d| < dstLen then |d| else -2) && Holds(dst, dstLen, d)
  {
    hide Lookup, ValueReadable, Readable, Holds, Join;
    FormIsReadable(form);
    ReadableValue(data[..], data.Length, name);
    LookupInForm(form, "", name);
    assert Join(form) + "" == Join(form);
    len := MgGetVar(data, data.Length, name, dst, dstLen);
  }
}
