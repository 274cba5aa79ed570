// The texts the parser reads, as syntax trees with all their blanks, and that
// it reads exactly these.  This says what the parser is for without the parser:
// a text is put together from left to right and has a meaning, piece by piece.

module JsonGrammar {
  import opened Common
  import opened JsonText
  import opened JsonLiteral

  // ---------- Texts and what they mean ---------------------------------------

  // A literal may lack its closing quote: in front of a control character the
  // parser takes it for complete.
  datatype Literal = Literal(parts: seq<Part>, closed: bool)

  datatype Syntax =
    | NullWord
    | FalseWord
    | TrueWord
    | Num(minus: bool, zero: bool, digits: string)
    | Str(literal: Literal)
    | Arr(open: string, items: seq<Spaced>)
    | Obj(open: string, members: seq<Entry>)

  // A value with the blanks around it.
  datatype Spaced = Spaced(before: string, value: Syntax, after: string)

  // A member with the blanks around its name and its value.
  datatype Entry = Entry(before: string, name: Literal, gap: string, value: Spaced)

  // The text of a literal, of a value and so on, in front of `rest`.
  function LiteralThen(l: Literal, rest: string): (t: string) {
    "\"" + (Text(l.parts) + ((if l.closed then "\"" else "") + rest))
  }

  function TextThen(x: Syntax, rest: string): (t: string)
    decreases x, 0
  {
    match x
    case NullWord => "null" + rest
    case FalseWord => "false" + rest
    case TrueWord => "true" + rest
    case Num(minus, zero, digits) => (if minus then "-" else "") + ((if zero then "0" else "") + (digits + rest))
    case Str(l) => LiteralThen(l, rest)
    case Arr(open, items) => "[" + (open + if items == [] then "]" + rest else ItemsThen(items, rest))
    case Obj(open, members) => "{" + (open + if members == [] then "}" + rest else MembersThen(members, rest))
  }

  function SpacedThen(x: Spaced, rest: string): (t: string)
    decreases x, 1
  {
    x.before + TextThen(x.value, x.after + rest)
  }

  function ItemsThen(items: seq<Spaced>, rest: string): (t: string)
    requires items != []
    decreases items, 2
  {
    SpacedThen(items[0], if |items| == 1 then "]" + rest else "," + ItemsThen(items[1..], rest))
  }

  function MembersThen(members: seq<Entry>, rest: string): (t: string)
    requires members != []
    decreases members, 2
  {
    EntryThen(members[0], if |members| == 1 then "}" + rest else "," + MembersThen(members[1..], rest))
  }

  function EntryThen(m: Entry, rest: string): (t: string)
    decreases m, 2
  {
    m.before + LiteralThen(m.name, m.gap + (":" + SpacedThen(m.value, rest)))
  }

  function NumberMeans(minus: bool, digits: string): (n: int) {
    if minus then -PlaceValue(digits) else PlaceValue(digits)
  }

  function LiteralMeans(l: Literal): (s: string)
    requires PartsAccepted(l.parts)
  {
    Cut(Bytes(l.parts))
  }

  function Means(x: Syntax): (v: Json)
    requires Accepted(x)
    decreases x, 0
  {
    match x
    case NullWord => Null
    case FalseWord => False
    case TrueWord => True
    case Num(minus, zero, digits) => Number(NumberMeans(minus, digits))
    case Str(l) => String(LiteralMeans(l))
    case Arr(open, items) => Array(ItemsMean(items))
    case Obj(open, members) => Object(MembersMean(members))
  }

  function ItemsMean(items: seq<Spaced>): (vs: seq<Json>)
    requires AllAccepted(items)
    ensures |vs| == |items|
    decreases items, 1
  {
    if items == [] then []
    else
      assert SpacedAccepted(items[0]);
      [Means(items[0].value)] + ItemsMean(items[1..])
  }

  function MembersMean(members: seq<Entry>): (ms: seq<Member>)
    requires AllMembersAccepted(members)
    ensures |ms| == |members|
    decreases members, 1
  {
    if members == [] then []
    else
      assert EntryAccepted(members[0]);
      [EntryMeans(members[0])] + MembersMean(members[1..])
  }

  function EntryMeans(m: Entry): (r: Member)
    requires EntryAccepted(m)
    decreases m, 1
  {
    assert SpacedAccepted(m.value);
    Member(LiteralMeans(m.name), Means(m.value.value))
  }

  // ---------- Which trees the parser takes --------------------------------------

  predicate Blank(s: string) { forall i | 0 <= i < |s| :: s[i] <= ' ' }

  predicate Accepted(x: Syntax)
    decreases x, 0
  {
    match x
    case Num(minus, zero, digits) =>
      && (minus || zero || digits != "")
      && AreDigits(digits) && (digits != "" ==> digits[0] != '0')
      && INT_MIN <= NumberMeans(minus, digits) <= INT_MAX
    case Str(l) => PartsAccepted(l.parts)
    case Arr(open, items) => Blank(open) && AllAccepted(items)
    case Obj(open, members) => Blank(open) && AllMembersAccepted(members)
    case _ => true
  }

  predicate SpacedAccepted(x: Spaced)
    decreases x, 1
  {
    Blank(x.before) && Accepted(x.value) && Blank(x.after) && Ends(x.value, x.after + ",")
  }

  // A value, or a name, with its blanks, in front of something else.
  predicate SpacedIn(x: Spaced, rest: string) {
    Blank(x.before) && Accepted(x.value) && Blank(x.after) && Ends(x.value, x.after + rest)
  }

  predicate NamedIn(before: string, name: Literal, gap: string, rest: string) {
    Blank(before) && PartsAccepted(name.parts) && Blank(gap) && LiteralEnds(name, gap + rest)
  }

  predicate AllAccepted(items: seq<Spaced>)
    decreases items, 2
  {
    items == [] || (SpacedAccepted(items[0]) && AllAccepted(items[1..]))
  }

  predicate AllMembersAccepted(members: seq<Entry>)
    decreases members, 2
  {
    members == [] || (EntryAccepted(members[0]) && AllMembersAccepted(members[1..]))
  }

  predicate EntryAccepted(m: Entry)
    decreases m, 2
  {
    && Blank(m.before) && PartsAccepted(m.name.parts) && Blank(m.gap) && LiteralEnds(m.name, m.gap + ":")
    && SpacedAccepted(m.value)
  }

  // What may follow a literal without a closing quote.
  predicate LiteralEnds(l: Literal, rest: string) {
    l.closed || rest == "" || rest[0] <= 31 as char
  }

  // The text of the value does not go on in `rest`.
  predicate Ends(x: Syntax, rest: string) {
    match x
    case Num(minus, zero, digits) =>
      rest == "" || (rest[0] !in ".eE" && !(if digits != "" then IsDigit(rest[0])
                                            else if zero then '1' <= rest[0] <= '9' else IsDigit(rest[0])))
    case Str(l) => LiteralEnds(l, rest)
    case _ => true
  }

  // A text as section 2 of RFC 8259 has it, with the numbers that are C ints.
  predicate Strict(x: Syntax)
    decreases x, 0
  {
    match x
    case Num(minus, zero, digits) =>
      && AreDigits(digits) && (zero <==> digits == "") && (digits != "" ==> digits[0] != '0')
      && INT_MIN <= NumberMeans(minus, digits) <= INT_MAX
    case Str(l) => StrictLiteral(l)
    case Arr(open, items) => Space(open) && AllStrict(items)
    case Obj(open, members) => Space(open) && AllMembersStrict(members)
    case _ => true
  }

  predicate Space(s: string) { forall i | 0 <= i < |s| :: s[i] in " \t\n\r" }

  predicate StrictLiteral(l: Literal) { l.closed && WellFormed(l.parts) }

  predicate SpacedStrict(x: Spaced)
    decreases x, 1
  {
    Space(x.before) && Strict(x.value) && Space(x.after)
  }

  predicate AllStrict(items: seq<Spaced>)
    decreases items, 2
  {
    items == [] || (SpacedStrict(items[0]) && AllStrict(items[1..]))
  }

  predicate EntryStrict(m: Entry)
    decreases m, 2
  {
    Space(m.before) && StrictLiteral(m.name) && Space(m.gap) && SpacedStrict(m.value)
  }

  predicate AllMembersStrict(members: seq<Entry>)
    decreases members, 2
  {
    members == [] || (EntryStrict(members[0]) && AllMembersStrict(members[1..]))
  }

  // What may follow a number without becoming part of it.
  predicate Boundary(rest: string) { rest == "" || !(IsDigit(rest[0]) || rest[0] in ".eE") }

  // ---------- Reading --------------------------------------------------------------

  lemma {:induction false} SkipBlanks(b: string, s: string)
    requires Blank(b)
    ensures Skip(b + s) == Skip(s)
  {
    if b == "" {
      assert b + s == s;
    } else {
      assert (b + s)[1..] == b[1..] + s && (b + s)[0] == b[0];
      SkipBlanks(b[1..], s);
    }
  }

  lemma SkipTo(b: string, s: string)
    requires Blank(b) && s != "" && s[0] > ' '
    ensures Skip(b + s) == Some(s)
  {
    SkipBlanks(b, s);
  }

  lemma LiteralIsTaken(l: Literal, rest: string)
    requires PartsAccepted(l.parts) && LiteralEnds(l, rest)
    ensures ParseString(LiteralThen(l, rest)) == Done(LiteralMeans(l), rest)
  {
    var t := (if l.closed then "\"" else "") + rest;
    UnescapeParts(l.parts, t);
    assert Unescape(t) == Done("", rest) by {
      assert l.closed ==> t[1..] == rest;
      assert !l.closed ==> t == rest;
    }
    assert Bytes(l.parts) + "" == Bytes(l.parts);
    assert LiteralThen(l, rest)[1..] == Text(l.parts) + t;
  }

  lemma {:induction false} DigitsAreTaken(acc: nat, digits: string, rest: string)
    requires AreDigits(digits) && (rest == "" || !IsDigit(rest[0]))
    ensures ReadDigits(acc, digits + rest) == (acc * Pow10(|digits|) + PlaceValue(digits), rest)
    decreases |digits|
  {
    if digits == "" {
      assert digits + rest == rest;
    } else {
      var d := digits[0] as int - '0' as int;
      assert (digits + rest)[1..] == digits[1..] + rest;
      hide PlaceValue, Pow10;
      DigitsAreTaken(10 * acc + d, digits[1..], rest);
      FirstPlace(acc, d, digits);
    }
  }

  lemma FirstPlace(acc: nat, d: nat, digits: string)
    requires digits != "" && d == digits[0] as int - '0' as int
    ensures (10 * acc + d) * Pow10(|digits[1..]|) + PlaceValue(digits[1..]) == acc * Pow10(|digits|) + PlaceValue(digits)
  {
    var p := Pow10(|digits| - 1);
    assert (10 * acc + d) * p == acc * (10 * p) + d * p;
  }

  lemma NumberIsTaken(x: Syntax, rest: string)
    requires x.Num? && Accepted(x) && Ends(x, rest)
    ensures var s := TextThen(x, rest); s != "" && (s[0] == '-' || IsDigit(s[0])) && ParseNumber(s) == Done(Means(x), rest)
  {
    var u := x.digits + rest;
    var t := (if x.zero then "0" else "") + u;
    var n := DigitsOrNone(x.digits, x.zero, rest, u);
    assert rest == "" || rest[0] !in ".eE";
    assert Means(x) == Number(NumberMeans(x.minus, x.digits)) && TextThen(x, rest) == (if x.minus then "-" else "") + t;
    hide ReadDigits, PlaceValue, Pow10, ParseNumber, TextThen, Means, Ends;
    PrefixedZero(x.zero, u);
    Prefixed(x.minus, t);
    NumberSteps(TextThen(x, rest), t, u, n, rest);
  }

  lemma PrefixedZero(zero: bool, u: string)
    requires zero || u == "" || u[0] != '0'
    ensures var t := (if zero then "0" else "") + u; if zero then t[0] == '0' && t[1..] == u else t == u
  {
  }

  lemma Prefixed(minus: bool, t: string)
    requires minus || t == "" || t[0] != '-'
    ensures var s := (if minus then "-" else "") + t; if minus then s[0] == '-' && s[1..] == t else s == t
  {
  }

  lemma DigitsOrNone(digits: string, zero: bool, rest: string, u: string) returns (n: nat)
    requires AreDigits(digits) && (digits != "" ==> digits[0] != '0') && Ends(Num(true, zero, digits), rest)
    requires u == digits + rest
    ensures n == PlaceValue(digits)
    ensures (n, rest) == if u != "" && '1' <= u[0] <= '9' then ReadDigits(0, u) else (0, u)
    ensures (!zero ==> u == "" || u[0] != '0') && (digits != "" ==> u != "" && IsDigit(u[0]))
  {
    if digits != "" {
      assert u[0] == digits[0];
      DigitsAreTaken(0, digits, rest);
    } else {
      assert u == rest;
    }
    n := PlaceValue(digits);
  }

  // An optional minus sign in front of t, an optional zero in front of u.
  lemma NumberSteps(s: string, t: string, u: string, n: nat, rest: string)
    requires s != "" && if s[0] == '-' then s[1..] == t else s == t && IsDigit(s[0])
    requires if t != "" && t[0] == '0' then t[1..] == u else t == u
    requires (n, rest) == if u != "" && '1' <= u[0] <= '9' then ReadDigits(0, u) else (0, u)
    ensures ParseNumber(s) ==
      if (rest != "" && rest[0] in ".eE") || !(INT_MIN <= Negate(s[0] == '-', n) <= INT_MAX) then Undefined
      else Done(Number(Negate(s[0] == '-', n)), rest)
  {
    hide ReadDigits;
  }

  lemma FirstCharacter(x: Syntax, rest: string)
    requires Accepted(x)
    ensures TextThen(x, rest) != "" && TextThen(x, rest)[0] > ' ' && TextThen(x, rest)[0] !in "]},:"
    ensures !x.NullWord? && !x.FalseWord? && !x.TrueWord? ==> TextThen(x, rest)[0] !in "nft"
  {
  }

  lemma NoWord(s: string)
    requires s != "" && s[0] !in "nft"
    ensures !HasPrefix(s, "null") && !HasPrefix(s, "false") && !HasPrefix(s, "true")
  {
    assert |s| >= 4 ==> s[..4][0] == s[0];
    assert |s| >= 5 ==> s[..5][0] == s[0];
  }

  // Every accepted text is read to its end, and as what it means.
  lemma {:induction false} ValueIsTaken(x: Syntax, rest: string)
    requires Accepted(x) && Ends(x, rest)
    ensures ParseValue(TextThen(x, rest)) == Done(Means(x), rest)
    decreases x, 0
  {
    var s := TextThen(x, rest);
    match x
    case NullWord => assert s[4..] == rest && s[..4] == "null";
    case FalseWord => assert s[5..] == rest && s[..5] == "false" && s[0] == 'f' && s[..4][0] == 'f';
    case TrueWord => assert s[4..] == rest && s[..4] == "true" && s[0] == 't' && (|s| >= 5 ==> s[..5][0] == 't');
    case Num(_, _, _) =>
      FirstCharacter(x, rest);
      NoWord(s);
      NumberIsTaken(x, rest);
    case Str(l) =>
      FirstCharacter(x, rest);
      NoWord(s);
      LiteralIsTaken(l, rest);
    case Arr(open, items) => ArrayIsTaken(x, rest);
    case Obj(open, members) => ObjectIsTaken(x, rest);
  }

  lemma {:induction false} ArrayIsTaken(x: Syntax, rest: string)
    requires x.Arr? && Accepted(x)
    ensures ParseValue(TextThen(x, rest)) == Done(Means(x), rest)
    decreases x.items, 3
  {
    hide ParseItems, Skip;
    var s := TextThen(x, rest);
    NoWord(s);
    var t := if x.items == [] then "]" + rest else ItemsThen(x.items, rest);
    assert s[1..] == x.open + t;
    SkipBlanks(x.open, t);
    if x.items == [] {
      SkipTo("", t);
      assert "" + t == t && t[1..] == rest;
    } else {
      ItemsAreTaken(x.items, rest);
      ItemsBegin(x.items, rest);
    }
  }

  lemma ItemsBegin(items: seq<Spaced>, rest: string)
    requires items != [] && AllAccepted(items)
    ensures var s := ItemsThen(items, rest);
            Skip(s).Some? && Skip(s).value[0] != ']' && ParseItems(Skip(s).value) == ParseItems(s)
  {
    hide ParseValue;
    var x := items[0];
    var t := if |items| == 1 then "]" + rest else "," + ItemsThen(items[1..], rest);
    var u := TextThen(x.value, x.after + t);
    FirstCharacter(x.value, x.after + t);
    SkipTo(x.before, u);
    SkipTo("", u);
    assert "" + u == u;
    assert ParseOne(u) == ParseOne(x.before + u);
  }

  lemma {:induction false} ItemsAreTaken(items: seq<Spaced>, rest: string)
    requires items != [] && AllAccepted(items)
    ensures ParseItems(ItemsThen(items, rest)) == Done(ItemsMean(items), rest)
    decreases items, 2
  {
    hide ParseValue, Skip, Accepted, Ends;
    var x := items[0];
    var t := if |items| == 1 then "]" + rest else "," + ItemsThen(items[1..], rest);
    SpacedIsTaken(x, t);
    if |items| == 1 {
      assert items[1..] == [] && t[1..] == rest && [Means(x.value)] + [] == [Means(x.value)];
    } else {
      ItemsAreTaken(items[1..], rest);
      assert t[1..] == ItemsThen(items[1..], rest);
    }
  }

  // A value with its blanks, in front of a separator or a bracket.
  lemma {:induction false} SpacedIsTaken(x: Spaced, t: string)
    requires SpacedAccepted(x) && t != "" && t[0] in ",]}"
    ensures ParseOne(SpacedThen(x, t)) == Done(Means(x.value), t)
    ensures ParseTrimmed(TextThen(x.value, x.after + t)) == Done(Means(x.value), t)
    decreases x, 1
  {
    hide ParseValue;
    var u := x.after + t;
    SameEnd(x.value, x.after, t);
    ValueIsTaken(x.value, u);
    FirstCharacter(x.value, u);
    SkipTo(x.before, TextThen(x.value, u));
    SkipTo(x.after, t);
  }

  // All separators end a value alike.
  lemma SameEnd(x: Syntax, after: string, t: string)
    requires Ends(x, after + ",") && t != "" && t[0] in ",]}"
    ensures Ends(x, after + t)
  {
    if after == "" {
      assert after + "," == "," && after + t == t;
    } else {
      assert (after + ",")[0] == (after + t)[0];
    }
  }

  lemma {:induction false} ObjectIsTaken(x: Syntax, rest: string)
    requires x.Obj? && Accepted(x)
    ensures ParseValue(TextThen(x, rest)) == Done(Means(x), rest)
    decreases x.members, 3
  {
    hide ParseMembers, Skip;
    var s := TextThen(x, rest);
    NoWord(s);
    var t := if x.members == [] then "}" + rest else MembersThen(x.members, rest);
    assert s[1..] == x.open + t;
    SkipBlanks(x.open, t);
    if x.members == [] {
      SkipTo("", t);
      assert "" + t == t && t[1..] == rest;
    } else {
      MembersAreTaken(x.members, rest);
      MembersBegin(x.members, rest);
    }
  }

  lemma MembersBegin(members: seq<Entry>, rest: string)
    requires members != [] && AllMembersAccepted(members)
    ensures var s := MembersThen(members, rest);
            Skip(s).Some? && Skip(s).value[0] != '}' && ParseMembers(Skip(s).value) == ParseMembers(s)
  {
    hide ParseTrimmed, ParseString;
    var m := members[0];
    var t := if |members| == 1 then "}" + rest else "," + MembersThen(members[1..], rest);
    var u := LiteralThen(m.name, m.gap + (":" + SpacedThen(m.value, t)));
    SkipTo(m.before, u);
    SkipTo("", u);
    assert "" + u == u;
    assert ParseName(u) == ParseName(m.before + u);
    assert ParseMember(u) == ParseMember(m.before + u);
  }

  lemma {:induction false} MembersAreTaken(members: seq<Entry>, rest: string)
    requires members != [] && AllMembersAccepted(members)
    ensures ParseMembers(MembersThen(members, rest)) == Done(MembersMean(members), rest)
    decreases members, 2
  {
    hide ParseMember, Skip, EntryAccepted;
    var m := members[0];
    var t := if |members| == 1 then "}" + rest else "," + MembersThen(members[1..], rest);
    MemberIsTaken(m, t);
    if |members| == 1 {
      assert members[1..] == [] && t[1..] == rest && [EntryMeans(m)] + [] == [EntryMeans(m)];
    } else {
      MembersAreTaken(members[1..], rest);
      assert t[1..] == MembersThen(members[1..], rest);
    }
  }

  lemma {:induction false} MemberIsTaken(m: Entry, t: string)
    requires EntryAccepted(m) && t != "" && t[0] in ",}"
    ensures ParseMember(EntryThen(m, t)) == Done(EntryMeans(m), t)
    decreases m, 2
  {
    hide ParseTrimmed, ParseOne;
    SpacedIsTaken(m.value, t);
    NameIsTaken(m, t);
  }

  lemma NameIsTaken(m: Entry, t: string)
    requires EntryAccepted(m)
    ensures ParseName(EntryThen(m, t)) == Done(LiteralMeans(m.name), TextThen(m.value.value, m.value.after + t))
  {
    hide ParseString;
    var v := TextThen(m.value.value, m.value.after + t);
    var colon := ":" + (m.value.before + v);
    var u := LiteralThen(m.name, m.gap + colon);
    SkipTo(m.before, u);
    assert (m.gap + colon)[0] == (m.gap + ":")[0];
    LiteralIsTaken(m.name, m.gap + colon);
    SkipTo(m.gap, colon);
    assert colon[1..] == m.value.before + v;
    FirstCharacter(m.value.value, m.value.after + t);
    SkipTo(m.value.before, v);
  }

  // ---------- Nothing else is read -----------------------------------------------

  // The blanks that were skipped.
  lemma {:induction false} SkippedBlanks(s: string) returns (b: string)
    requires Skip(s).Some?
    ensures Blank(b) && s == b + Skip(s).value
  {
    b := "";
    if s[0] <= ' ' {
      var c := SkippedBlanks(s[1..]);
      b := [s[0]] + c;
      assert s == [s[0]] + s[1..];
    }
  }

  lemma PartWas(t: string) returns (p: Part, more: string)
    requires !EndsString(t) && Unescape(t).Done?
    ensures AcceptedPart(p) && t == PartText(p) + more && |more| < |t|
    ensures Unescape(t) == Prepend(PartBytes(p), Unescape(more))
  {
    p := if t[0] != '\\' then Plain(t[0]) else if t[1] != 'u' then Short(t[1]) else Code(t[2..6]);
    more := t[|PartText(p)|..];
    UnescapePart(p, more);
  }

  lemma {:induction false} LiteralWas(t: string) returns (l: Literal)
    requires Unescape(t).Done?
    ensures var r := Unescape(t);
      && PartsAccepted(l.parts) && LiteralEnds(l, r.rest) && Bytes(l.parts) == r.value
      && t == Text(l.parts) + ((if l.closed then "\"" else "") + r.rest)
    decreases |t|
  {
    if EndsString(t) {
      l := Literal([], t != "" && t[0] == '\"');
    } else {
      var p, more := PartWas(t);
      hide Unescape, AcceptedPart, PartText, PartBytes;
      var m := LiteralWas(more);
      l := Literal([p] + m.parts, m.closed);
      assert l.parts[1..] == m.parts;
      Grouped(PartText(p), Text(m.parts), (if l.closed then "\"" else "") + Unescape(t).rest);
    }
  }

  lemma {:induction false} DigitsWere(n: nat, s: string) returns (d: string)
    ensures AreDigits(d) && s == d + ReadDigits(n, s).1
    ensures d != "" <==> s != "" && IsDigit(s[0])
    decreases |s|
  {
    d := "";
    if s != "" && IsDigit(s[0]) {
      var e := DigitsWere(10 * n + (s[0] as int - '0' as int), s[1..]);
      d := [s[0]] + e;
      assert s == [s[0]] + s[1..];
    }
  }

  lemma NumberWas(s: string) returns (x: Syntax)
    requires s != "" && (s[0] == '-' || IsDigit(s[0])) && ParseNumber(s).Done?
    ensures var r := ParseNumber(s); x.Num? && Accepted(x) && Ends(x, r.rest) && s == TextThen(x, r.rest) && Means(x) == r.value
  {
    hide *;
    var minus, zero, t, u := SignAndZero(s);
    var d, rest := DigitsRead(u);
    NumberSteps(s, t, u, PlaceValue(d), rest);
    SignedValue(minus, d);
    NumberTree(s, minus, zero, u, d, rest);
    x := Num(minus, zero, d);
  }

  lemma SignedValue(minus: bool, d: string)
    ensures NumberMeans(minus, d) == Negate(minus, PlaceValue(d))
  {
  }

  lemma NumberTree(s: string, minus: bool, zero: bool, u: string, d: string, rest: string)
    requires u == d + rest && s == (if minus then "-" else "") + ((if zero then "0" else "") + u)
    requires AreDigits(d) && (d != "" ==> d[0] != '0') && INT_MIN <= NumberMeans(minus, d) <= INT_MAX
    requires minus || zero || (u != "" && IsDigit(u[0]))
    requires !zero ==> u == "" || u[0] != '0'
    requires rest == "" || (rest[0] !in ".eE" && !(if d != "" then IsDigit(rest[0]) else '1' <= rest[0] <= '9'))
    ensures var x := Num(minus, zero, d);
      Accepted(x) && Ends(x, rest) && s == TextThen(x, rest) && Means(x) == Number(NumberMeans(minus, d))
  {
    assert d == "" ==> u == rest;
  }

  lemma SignAndZero(s: string) returns (minus: bool, zero: bool, t: string, u: string)
    requires s != "" && (s[0] == '-' || IsDigit(s[0]))
    ensures minus == (s[0] == '-') && (if minus then s[1..] == t else s == t)
    ensures zero == (t != "" && t[0] == '0') && (if zero then t[1..] == u else t == u)
    ensures s == (if minus then "-" else "") + ((if zero then "0" else "") + u)
  {
    minus := s[0] == '-';
    t := if minus then s[1..] else s;
    zero := t != "" && t[0] == '0';
    u := if zero then t[1..] else t;
    assert t == (if zero then "0" else "") + u;
  }

  lemma DigitsRead(u: string) returns (d: string, rest: string)
    ensures AreDigits(d) && u == d + rest && (d != "" ==> d[0] != '0') && PlaceValue(d) >= 0
    ensures (PlaceValue(d), rest) == if u != "" && '1' <= u[0] <= '9' then ReadDigits(0, u) else (0, u)
    ensures rest == "" || !(if d != "" then IsDigit(rest[0]) else '1' <= rest[0] <= '9')
  {
    if u != "" && '1' <= u[0] <= '9' {
      d := DigitsWere(0, u);
      rest := ReadDigits(0, u).1;
      DigitsAreTaken(0, d, rest);
    } else {
      d, rest := "", u;
    }
  }

  // What was read is the text of an accepted tree, and means what was read.
  lemma {:induction false} ValueWas(s: string) returns (x: Syntax)
    requires ParseValue(s).Done?
    ensures var r := ParseValue(s); Accepted(x) && Ends(x, r.rest) && s == TextThen(x, r.rest) && Means(x) == r.value
    decreases |s|, 1
  {
    hide Unescape, Skip, ParseItems, ParseMembers, ParseNumber;
    if HasPrefix(s, "null") {
      x := NullWord;
      assert s == s[..4] + s[4..];
    } else if HasPrefix(s, "false") {
      x := FalseWord;
      assert s == s[..5] + s[5..];
    } else if HasPrefix(s, "true") {
      x := TrueWord;
      assert s == s[..4] + s[4..];
    } else if s[0] == '\"' {
      var l := NamedWas(s);
      x := Str(l);
    } else if s[0] == '-' || IsDigit(s[0]) {
      x := NumberWas(s);
    } else if s[0] == '[' {
      x := ArrayWas(s);
    } else {
      x := ObjectWas(s);
    }
  }

  lemma {:induction false} ArrayWas(s: string) returns (x: Syntax)
    requires s != "" && s[0] == '[' && ParseValue(s).Done?
    ensures var r := ParseValue(s); Accepted(x) && Ends(x, r.rest) && s == TextThen(x, r.rest) && Means(x) == r.value
    decreases |s|, 0
  {
    hide ParseItems, Skip;
    NoWord(s);
    var rest, t := ParseValue(s).rest, Skip(s[1..]).value;
    var open := SkippedBlanks(s[1..]);
    assert s == "[" + (open + t);
    if t[0] == ']' {
      x := Arr(open, []);
      assert t == "]" + rest;
    } else {
      var items := ItemsWere(t);
      x := Arr(open, items);
    }
  }

  lemma {:induction false} ItemsWere(s: string) returns (items: seq<Spaced>)
    requires ParseItems(s).Done?
    ensures var r := ParseItems(s); items != [] && AllAccepted(items) && s == ItemsThen(items, r.rest) && ItemsMean(items) == r.value
    decreases |s|, 4
  {
    hide ParseValue, Skip;
    var rest := ParseItems(s).rest;
    var one := ParseOne(s);
    var x := SpacedWas(s);
    var t := one.rest;
    if t[0] == ',' {
      var more := ItemsWere(t[1..]);
      items := [x] + more;
      assert items[1..] == more && t == "," + t[1..];
    } else {
      items := [x];
      assert items[1..] == [] && t == "]" + rest;
    }
  }

  lemma {:induction false} SpacedWas(s: string) returns (x: Spaced)
    requires ParseOne(s).Done?
    ensures var r := ParseOne(s); SpacedIn(x, r.rest) && s == SpacedThen(x, r.rest) && Means(x.value) == r.value
    ensures ParseOne(s).rest[0] in ",]}" ==> SpacedAccepted(x)
    decreases |s|, 3
  {
    hide ParseValue, Skip;
    var before := SkippedBlanks(s);
    var u := Skip(s).value;
    var t := ParseValue(u).rest;
    var v := ValueWas(u);
    var after := SkippedBlanks(t);
    x := Spaced(before, v, after);
    if ParseOne(s).rest[0] in ",]}" {
      SameEndBack(v, after, ParseOne(s).rest);
    }
  }

  lemma SameEndBack(x: Syntax, after: string, t: string)
    requires Ends(x, after + t) && t != "" && t[0] in ",]}"
    ensures Ends(x, after + ",")
  {
    if after == "" {
      assert after + "," == "," && after + t == t;
    } else {
      assert (after + ",")[0] == (after + t)[0];
    }
  }

  lemma {:induction false} ObjectWas(s: string) returns (x: Syntax)
    requires s != "" && s[0] == '{' && ParseValue(s).Done?
    ensures var r := ParseValue(s); Accepted(x) && Ends(x, r.rest) && s == TextThen(x, r.rest) && Means(x) == r.value
    decreases |s|, 0
  {
    hide ParseMembers, Skip;
    NoWord(s);
    var rest, t := ParseValue(s).rest, Skip(s[1..]).value;
    var open := SkippedBlanks(s[1..]);
    assert s == "{" + (open + t);
    if t[0] == '}' {
      x := Obj(open, []);
      assert t == "}" + rest;
    } else {
      var members := MembersWere(t);
      x := Obj(open, members);
    }
  }

  lemma {:induction false} MembersWere(s: string) returns (members: seq<Entry>)
    requires ParseMembers(s).Done?
    ensures var r := ParseMembers(s);
      members != [] && AllMembersAccepted(members) && s == MembersThen(members, r.rest) && MembersMean(members) == r.value
    decreases |s|, 4
  {
    hide ParseMember, Skip, EntryAccepted;
    var rest := ParseMembers(s).rest;
    var t := ParseMember(s).rest;
    var m := MemberWas(s);
    if t[0] == ',' {
      var more := MembersWere(t[1..]);
      members := [m] + more;
      assert members[1..] == more && t == "," + t[1..];
    } else {
      members := [m];
      assert members[1..] == [] && t == "}" + rest;
    }
  }

  lemma {:induction false} MemberWas(s: string) returns (m: Entry)
    requires ParseMember(s).Done?
    ensures var r := ParseMember(s);
      NamedIn(m.before, m.name, m.gap, ":") && SpacedIn(m.value, r.rest) && s == EntryThen(m, r.rest)
    ensures var r := ParseMember(s); r.rest[0] in ",]}" ==> EntryAccepted(m) && EntryMeans(m) == r.value
    decreases |s|, 3
  {
    hide ParseString, Skip, ParseValue;
    var before := SkippedBlanks(s);
    var u := Skip(s).value;
    var t := ParseString(u).rest;
    var l := NamedWas(u);
    var gap := SkippedBlanks(t);
    var colon := Skip(t).value;
    var x := SpacedWas(colon[1..]);
    m := Entry(before, l, gap, x);
    assert colon == ":" + colon[1..];
    assert (gap + colon)[0] == (gap + ":")[0];
  }

  lemma NamedWas(u: string) returns (l: Literal)
    requires ParseString(u).Done?
    ensures var r := ParseString(u);
      PartsAccepted(l.parts) && LiteralEnds(l, r.rest) && LiteralMeans(l) == r.value && u == LiteralThen(l, r.rest)
  {
    l := LiteralWas(u[1..]);
    assert u == "\"" + u[1..];
  }

  // ---------- The theorems ----------------------------------------------------------

  function TextOf(x: Syntax): (t: string) { TextThen(x, "") }

  lemma {:induction false} TextInFront(x: Syntax, a: string, b: string)
    ensures TextThen(x, a + b) == TextThen(x, a) + b
    decreases x, 0
  {
    match x
    case Num(minus, zero, digits) => NumberInFront(if minus then "-" else "", if zero then "0" else "", digits, a, b);
    case Str(l) => LiteralInFront(l, a, b);
    case Arr(open, items) =>
      var t := if items == [] then "]" + a else ItemsThen(items, a);
      if items == [] {
        Regroup("]", a, b);
      } else {
        ItemsInFront(items, a, b);
      }
      Bracketed("[", open, t, b);
    case Obj(open, members) =>
      var t := if members == [] then "}" + a else MembersThen(members, a);
      if members == [] {
        Regroup("}", a, b);
      } else {
        MembersInFront(members, a, b);
      }
      Bracketed("{", open, t, b);
    case _ =>
  }

  lemma Regroup(a: string, b: string, c: string)
    ensures a + b + c == a + (b + c)
  {
  }

  lemma NumberInFront(minus: string, zero: string, digits: string, a: string, b: string)
    ensures minus + (zero + (digits + (a + b))) == minus + (zero + (digits + a)) + b
  {
  }

  lemma Bracketed(bracket: string, open: string, t: string, b: string)
    ensures bracket + (open + (t + b)) == bracket + (open + t) + b
  {
  }

  lemma LiteralInFront(l: Literal, a: string, b: string)
    ensures LiteralThen(l, a + b) == LiteralThen(l, a) + b
  {
  }

  lemma {:induction false} SpacedInFront(x: Spaced, a: string, b: string)
    ensures SpacedThen(x, a + b) == SpacedThen(x, a) + b
    decreases x, 1
  {
    TextInFront(x.value, x.after + a, b);
    assert x.after + (a + b) == x.after + a + b;
  }

  lemma {:induction false} ItemsInFront(items: seq<Spaced>, a: string, b: string)
    requires items != []
    ensures ItemsThen(items, a + b) == ItemsThen(items, a) + b
    decreases items, 2
  {
    if |items| == 1 {
      SpacedInFront(items[0], "]" + a, b);
      Regroup("]", a, b);
    } else {
      ItemsInFront(items[1..], a, b);
      SpacedInFront(items[0], "," + ItemsThen(items[1..], a), b);
      Regroup(",", ItemsThen(items[1..], a), b);
    }
  }

  lemma {:induction false} MembersInFront(members: seq<Entry>, a: string, b: string)
    requires members != []
    ensures MembersThen(members, a + b) == MembersThen(members, a) + b
    decreases members, 2
  {
    if |members| == 1 {
      EntryInFront(members[0], "}" + a, b);
      Regroup("}", a, b);
    } else {
      MembersInFront(members[1..], a, b);
      EntryInFront(members[0], "," + MembersThen(members[1..], a), b);
      Regroup(",", MembersThen(members[1..], a), b);
    }
  }

  lemma {:induction false} EntryInFront(m: Entry, a: string, b: string)
    ensures EntryThen(m, a + b) == EntryThen(m, a) + b
    decreases m, 2
  {
    SpacedInFront(m.value, a, b);
    var v := SpacedThen(m.value, a);
    hide SpacedThen, LiteralThen;
    assert m.gap + (":" + (v + b)) == m.gap + (":" + v) + b;
    LiteralInFront(m.name, m.gap + (":" + v), b);
  }

  // The value v is written at the front of s, and `rest` is left.
  ghost predicate Writes(x: Syntax, v: Json, s: string, rest: string) {
    Accepted(x) && Ends(x, rest) && Means(x) == v && s == TextOf(x) + rest
  }

  // The parser reads a value exactly where one is written.
  lemma ReadsIff(s: string, v: Json, rest: string)
    ensures ParseValue(s) == Done(v, rest) <==> exists x :: Writes(x, v, s, rest)
  {
    if ParseValue(s) == Done(v, rest) {
      var x := ValueWas(s);
      TextInFront(x, "", rest);
      assert "" + rest == rest;
      assert Writes(x, v, s, rest);
    }
    if x :| Writes(x, v, s, rest) {
      TextInFront(x, "", rest);
      assert "" + rest == rest;
      ValueIsTaken(x, rest);
    }
  }

  ghost predicate WritesBehind(b: string, x: Syntax, v: Json, s: string, rest: string) {
    Blank(b) && b <= s && Writes(x, v, s[|b|..], rest)
  }

  // And so does cJSON_Parse, behind any blanks.
  lemma ParseIff(s: string, v: Json, rest: string)
    ensures Parse(s) == Done(v, rest) <==> exists b, x :: WritesBehind(b, x, v, s, rest)
  {
    hide ParseValue, Writes, Skip, Blank;
    if Parse(s) == Done(v, rest) {
      var b := SkippedBlanks(s);
      var t := Skip(s).value;
      ReadsIff(t, v, rest);
      var x :| Writes(x, v, t, rest);
      assert s[|b|..] == t;
      assert WritesBehind(b, x, v, s, rest);
    }
    if b, x :| WritesBehind(b, x, v, s, rest) {
      var t := s[|b|..];
      assert s == b + t;
      ReadsIff(t, v, rest);
      WrittenBegins(x, v, t, rest);
      SkipTo(b, t);
    }
  }

  lemma WrittenBegins(x: Syntax, v: Json, s: string, rest: string)
    requires Writes(x, v, s, rest)
    ensures s != "" && s[0] > ' '
  {
    FirstCharacter(x, "");
    hide TextThen, Accepted;
  }

  // ---------- Standard texts --------------------------------------------------------

  lemma {:induction false} StrictIsAccepted(x: Syntax)
    requires Strict(x)
    ensures Accepted(x)
    ensures forall rest | Boundary(rest) :: Ends(x, rest)
    decreases x, 0
  {
    match x
    case Arr(open, items) => StrictItems(items);
    case Obj(open, members) => StrictMembers(members);
    case _ =>
  }

  lemma {:induction false} StrictSpaced(x: Spaced)
    requires SpacedStrict(x)
    ensures SpacedAccepted(x)
    decreases x, 1
  {
    StrictIsAccepted(x.value);
    assert Boundary(x.after + ",");
  }

  lemma {:induction false} StrictItems(items: seq<Spaced>)
    requires AllStrict(items)
    ensures AllAccepted(items)
    decreases items, 2
  {
    if items != [] {
      StrictSpaced(items[0]);
      StrictItems(items[1..]);
    }
  }

  lemma {:induction false} StrictEntry(m: Entry)
    requires EntryStrict(m)
    ensures EntryAccepted(m)
    decreases m, 2
  {
    StrictSpaced(m.value);
  }

  lemma {:induction false} StrictMembers(members: seq<Entry>)
    requires AllMembersStrict(members)
    ensures AllMembersAccepted(members)
    decreases members, 2
  {
    if members != [] {
      StrictEntry(members[0]);
      StrictMembers(members[1..]);
    }
  }

  // Every standard text is read, with any blanks in front of it and anything
  // behind it that does not make its last number longer.
  lemma StrictIsRead(b: string, x: Syntax, rest: string)
    requires Space(b) && Strict(x) && Boundary(rest)
    ensures Accepted(x) && Parse(b + (TextOf(x) + rest)) == Done(Means(x), rest)
  {
    StrictIsAccepted(x);
    var t := TextOf(x) + rest;
    assert (b + t)[|b|..] == t;
    assert WritesBehind(b, x, Means(x), b + t, rest);
    ParseIff(b + t, Means(x), rest);
  }
}
