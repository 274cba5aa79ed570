// Whole string literals: what section 7 of RFC 8259 says a well-formed literal
// denotes, and that the parser reads it so.

module JsonLiteral {
  import opened Common
  import opened JsonText

  // ---------- Code points ---------------------------------------------------

  // The code point a byte sequence stands for, by the table in section 3 of
  // RFC 3629: shortest form only, no surrogates.
  function Utf8Decode(b: string): Option<nat> {
    if |b| == 1 && b[0] as int < 0x80 then Some(b[0] as int)
    else if |b| == 2 && 0xC2 <= b[0] as int < 0xE0 && IsTail(b[1]) then
      Some((b[0] as int - 0xC0) * 64 + (b[1] as int - 0x80))
    else if |b| == 3 && 0xE0 <= b[0] as int < 0xF0 && IsTail(b[1]) && IsTail(b[2]) then
      var code := ((b[0] as int - 0xE0) * 64 + (b[1] as int - 0x80)) * 64 + (b[2] as int - 0x80);
      if code < 0x800 || IsSurrogate(code) then None else Some(code)
    else if |b| == 4 && 0xF0 <= b[0] as int < 0xF5 && IsTail(b[1]) && IsTail(b[2]) && IsTail(b[3]) then
      var high := (b[0] as int - 0xF0) * 64 + (b[1] as int - 0x80);
      var code := (high * 64 + (b[2] as int - 0x80)) * 64 + (b[3] as int - 0x80);
      if 0x10000 <= code < 0x110000 then Some(code) else None
    else None
  }

  predicate IsTail(c: char) { 0x80 <= c as int < 0xC0 }

  predicate IsSurrogate(code: int) { 0xD800 <= code < 0xE000 }

  // The bytes stored for a \u escape decode to its code point exactly when
  // the code point is not half of a surrogate pair.
  lemma Utf8DecodesIff(code: nat)
    requires code < 0x10000
    ensures Utf8Decode(Utf8(code)) == Some(code) <==> !IsSurrogate(code)
    ensures forall c | c in Utf8(code) :: c as int < 256
  {
    if code >= 0x800 {
      assert code == (code / 4096 * 64 + code / 64 % 64) * 64 + code % 64;
    }
  }

  // The first half of a surrogate pair is stored as three bytes that decode to
  // nothing.
  lemma HalfPairIsNoCharacter()
    ensures Utf8(0xD800) == ['\U{ed}', '\U{a0}', '\U{80}'] && Utf8Decode(Utf8(0xD800)) == None
  {
  }

  // And no other bytes decode to it.
  lemma Utf8Unique(b: string, code: nat)
    requires code < 0x10000 && Utf8Decode(b) == Some(code)
    ensures b == Utf8(code)
  {
    if |b| == 3 {
      var d := ((b[0] as int - 0xE0) * 64 + (b[1] as int - 0x80)) * 64 + (b[2] as int - 0x80);
      assert d / 4096 == b[0] as int - 0xE0 && d / 64 % 64 == b[1] as int - 0x80 && d % 64 == b[2] as int - 0x80;
    }
  }

  // The code point that four digits of either case stand for.
  lemma CodeOfDigits(h: string)
    requires |h| == 4 && forall c | c in h :: IsHex(c)
    ensures HexCode(h) == 0x1000 * HexValue(h[0]) + 0x100 * HexValue(h[1]) + 0x10 * HexValue(h[2]) + HexValue(h[3])
    ensures forall c | c in h :: c == "0123456789abcdef"[HexValue(c)] || c == "0123456789ABCDEF"[HexValue(c)]
  {
  }

  // ---------- The grammar of a literal -----------------------------------------

  // A byte that stands for itself, a short escape, or four hexadecimal digits.
  datatype Part = Plain(c: char) | Short(e: char) | Code(h: string)

  predicate WellFormedPart(p: Part) {
    match p
    case Plain(c) => c >= ' ' && c != '\"' && c != '\\'
    case Short(e) => e in "\"\\/bfnrt"
    case Code(h) => |h| == 4 && forall c | c in h :: IsHex(c)
  }

  // The parser takes any other character behind a backslash for itself.
  predicate AcceptedPart(p: Part) { WellFormedPart(p) || (p.Short? && p.e != 'u') }

  predicate PartsAccepted(ps: seq<Part>) { forall i | 0 <= i < |ps| :: AcceptedPart(ps[i]) }

  predicate WellFormed(ps: seq<Part>) { forall i | 0 <= i < |ps| :: WellFormedPart(ps[i]) }

  function PartText(p: Part): (t: string) {
    match p
    case Plain(c) => [c]
    case Short(e) => ['\\', e]
    case Code(h) => "\\u" + h
  }

  function Text(ps: seq<Part>): (t: string) {
    if ps == [] then "" else PartText(ps[0]) + Text(ps[1..])
  }

  // The character a short escape stands for.
  function ShortMeans(e: char): (c: char) {
    match e
    case 'b' => '\U{8}'
    case 'f' => '\U{c}'
    case 'n' => '\U{a}'
    case 'r' => '\U{d}'
    case 't' => '\U{9}'
    case _ => e
  }

  // The bytes `b` are what the part denotes by itself: for a code point they
  // are its UTF-8 form.  Half of a surrogate pair denotes no character.
  ghost predicate PartDenotes(p: Part, b: string) {
    match p
    case Plain(c) => b == [c]
    case Short(e) => b == [ShortMeans(e)]
    case Code(h) => WellFormedPart(p) && Utf8Decode(b) == Some(HexCode(h))
  }

  // Two escapes in a row that are a surrogate pair denote one character.
  ghost predicate PairDenotes(p: Part, q: Part, b: string) {
    && p.Code? && q.Code? && WellFormedPart(p) && WellFormedPart(q)
    && 0xD800 <= HexCode(p.h) < 0xDC00 <= HexCode(q.h) < 0xE000
    && Utf8Decode(b) == Some(0x10000 + (HexCode(p.h) - 0xD800) * 0x400 + (HexCode(q.h) - 0xDC00))
  }

  predicate NoSurrogates(ps: seq<Part>) {
    forall i | 0 <= i < |ps| && ps[i].Code? && WellFormedPart(ps[i]) :: !IsSurrogate(HexCode(ps[i].h))
  }

  // The bytes `b` are, part by part, what the literal denotes.
  ghost predicate Denotes(ps: seq<Part>, b: string) {
    if ps == [] then b == ""
    else
      || (exists k: nat :: k <= |b| && PartDenotes(ps[0], b[..k]) && Denotes(ps[1..], b[k..]))
      || (|ps| > 1 && exists k: nat :: k <= |b| && PairDenotes(ps[0], ps[1], b[..k]) && Denotes(ps[2..], b[k..]))
  }

  // The bytes the parser stores.
  function PartBytes(p: Part): (b: string)
    requires AcceptedPart(p)
    ensures b != ""
  {
    match p
    case Plain(c) => [c]
    case Short(e) => [ShortMeans(e)]
    case Code(h) => Utf8(HexCode(h))
  }

  function Bytes(ps: seq<Part>): (b: string)
    requires PartsAccepted(ps)
  {
    if ps == [] then "" else PartBytes(ps[0]) + Bytes(ps[1..])
  }

  // ---------- The parser reads every well-formed literal --------------------------

  lemma UnescapePart(p: Part, t: string)
    requires AcceptedPart(p)
    ensures Unescape(PartText(p) + t) == Prepend(PartBytes(p), Unescape(t))
  {
    var s := PartText(p) + t;
    match p
    case Plain(c) => assert s[1..] == t;
    case Short(e) => assert s[2..] == t;
    case Code(h) => assert s[2..6] == h && s[6..] == t;
  }

  lemma {:induction false} UnescapeParts(ps: seq<Part>, t: string)
    requires PartsAccepted(ps)
    ensures Unescape(Text(ps) + t) == Prepend(Bytes(ps), Unescape(t))
  {
    if ps == [] {
      assert Text(ps) + t == t;
      assert Unescape(t).Done? ==> "" + Unescape(t).value == Unescape(t).value;
    } else {
      UnescapeParts(ps[1..], t);
      Grouped(PartText(ps[0]), Text(ps[1..]), t);
      UnescapePart(ps[0], Text(ps[1..]) + t);
      if Unescape(t).Done? {
        Grouped(PartBytes(ps[0]), Bytes(ps[1..]), Unescape(t).value);
      }
    }
  }

  lemma UnescapeLiteral(ps: seq<Part>, rest: string)
    requires PartsAccepted(ps)
    ensures Unescape(Text(ps) + ("\"" + rest)) == Done(Bytes(ps), rest)
  {
    UnescapeParts(ps, "\"" + rest);
    assert Bytes(ps) + "" == Bytes(ps);
    assert ("\"" + rest)[1..] == rest;
  }

  lemma Grouped(a: string, b: string, c: string)
    ensures a + b + c == a + (b + c)
  {
  }

  lemma PartBytesDenoted(p: Part)
    requires WellFormedPart(p)
    ensures (p.Code? ==> !IsSurrogate(HexCode(p.h))) ==> forall b :: PartDenotes(p, b) <==> b == PartBytes(p)
    ensures p.Code? && IsSurrogate(HexCode(p.h)) ==> forall b :: !PartDenotes(p, b)
  {
    if p.Code? {
      var code := HexCode(p.h);
      Utf8DecodesIff(code);
      forall b | PartDenotes(p, b) ensures b == Utf8(code) {
        Utf8Unique(b, code);
      }
      if IsSurrogate(code) {
        forall b ensures !PartDenotes(p, b) {
          if PartDenotes(p, b) {
            Utf8Unique(b, code);
          }
        }
      }
    }
  }

  // A pair is one character of four bytes, and a part is stored in at most
  // three, which begin otherwise.
  lemma PairIsNotStored(p: Part, q: Part, more: string, k: nat)
    requires WellFormedPart(p) && k <= |PartBytes(p) + more|
    ensures !PairDenotes(p, q, (PartBytes(p) + more)[..k])
  {
    assert (PartBytes(p) + more)[0] == PartBytes(p)[0];
  }

  // The bytes stored are what the literal denotes exactly when no part of it
  // is half of a surrogate pair.
  lemma {:induction false} BytesDenoted(ps: seq<Part>)
    requires WellFormed(ps)
    ensures Denotes(ps, Bytes(ps)) <==> NoSurrogates(ps)
    decreases |ps|
  {
    if ps != [] {
      var p, more, b := ps[0], ps[1..], Bytes(ps);
      PartBytesDenoted(p);
      BytesDenoted(more);
      hide PartDenotes, PairDenotes, PartBytes, HexCode, IsSurrogate;
      FirstIsNoSurrogate(ps);
      var n := |PartBytes(p)|;
      assert b[..n] == PartBytes(p) && b[n..] == Bytes(more);
      if Denotes(ps, b) {
        if k: nat :| k <= |b| && PartDenotes(p, b[..k]) && Denotes(more, b[k..]) {
          assert |b[..k]| == k == n;
        } else {
          var k: nat :| k <= |b| && PairDenotes(p, ps[1], b[..k]);
          PairIsNotStored(p, ps[1], Bytes(more), k);
        }
      }
    }
  }

  lemma FirstIsNoSurrogate(ps: seq<Part>)
    requires ps != [] && WellFormed(ps)
    ensures NoSurrogates(ps) <==> (ps[0].Code? ==> !IsSurrogate(HexCode(ps[0].h))) && NoSurrogates(ps[1..])
  {
  }

  // And then no other bytes are.
  lemma {:induction false} NothingElseDenoted(ps: seq<Part>, b: string)
    requires WellFormed(ps) && NoSurrogates(ps) && Denotes(ps, b)
    ensures b == Bytes(ps)
    decreases |ps|
  {
    if ps != [] {
      var k := BytesOfFirst(ps, b);
      NothingElseDenoted(ps[1..], b[k..]);
      assert b == b[..k] + b[k..];
    }
  }

  lemma BytesOfFirst(ps: seq<Part>, b: string) returns (k: nat)
    requires ps != [] && WellFormed(ps) && NoSurrogates(ps) && Denotes(ps, b)
    ensures k <= |b| && b[..k] == PartBytes(ps[0]) && Denotes(ps[1..], b[k..]) && NoSurrogates(ps[1..])
  {
    FirstIsNoSurrogate(ps);
    PartBytesDenoted(ps[0]);
    assert |ps| > 1 ==> forall c :: !PairDenotes(ps[0], ps[1], c);
    hide PartDenotes, PairDenotes, PartBytes, HexCode, IsSurrogate, NoSurrogates;
    k :| k <= |b| && PartDenotes(ps[0], b[..k]) && Denotes(ps[1..], b[k..]);
  }

  // U+1F600 written as a pair denotes four bytes and is stored as six.
  lemma PairIsStoredAsHalves()
    ensures var pair := [Code("d83d"), Code("de00")];
            && WellFormed(pair) && !Denotes(pair, Bytes(pair)) && |Bytes(pair)| == 6
            && Denotes(pair, ['\U{f0}', '\U{9f}', '\U{98}', '\U{80}'])
  {
    var p, q := Code("d83d"), Code("de00");
    assert [p, q][1..] == [q] && [p, q][2..] == [];
    BytesDenoted([p, q]);
    assert !NoSurrogates([p, q]) by { assert [p, q][0] == p; }
    var b := ['\U{f0}', '\U{9f}', '\U{98}', '\U{80}'];
    assert b[..4] == b && b[4..] == "";
    assert PairDenotes(p, q, b[..4]) && Denotes([p, q][2..], b[4..]);
  }

  // A text that begins with the literal.
  ghost predicate BeginsWith(s: string, ps: seq<Part>, rest: string) {
    WellFormed(ps) && s == "\"" + Text(ps) + ("\"" + rest)
  }

  // Every well-formed literal is read to its closing quote, and the bytes are
  // what it denotes exactly when no part of it is half of a surrogate pair.
  lemma LiteralIsRead(s: string, ps: seq<Part>, rest: string)
    requires BeginsWith(s, ps, rest)
    ensures ParseString(s) == Done(Cut(Bytes(ps)), rest)
    ensures Denotes(ps, Bytes(ps)) <==> NoSurrogates(ps)
  {
    UnescapeLiteral(ps, rest);
    BytesDenoted(ps);
    hide Unescape;
    Grouped("\"", Text(ps), "\"" + rest);
    assert s[1..] == Text(ps) + ("\"" + rest);
  }

  // Only an escaped null byte makes the C string end early.
  lemma {:induction false} NothingCut(b: string)
    ensures Cut(b) == b <==> '\0' !in b
  {
    if b != "" {
      NothingCut(b[1..]);
      assert b == [b[0]] + b[1..];
    }
  }
}
