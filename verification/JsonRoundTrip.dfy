// Parsing what was printed.  The printer drops the control characters it has
// no escape for, so what comes back is the value with those characters
// removed; the value itself comes back exactly when it has none.

module JsonRoundTrip {
  import opened Common
  import opened JsonText
  import opened JsonLiteral
  import opened JsonGrammar

  // ---------- What survives printing ------------------------------------

  predicate Survives(c: char) { c > 31 as char || c in "\U{8}\U{c}\n\r\t" }

  function ScrubString(s: string): string {
    if s == "" then "" else (if Survives(s[0]) then [s[0]] else "") + ScrubString(s[1..])
  }

  function Scrub(v: Json): Json
    decreases v, 0
  {
    match v
    case String(s) => String(ScrubString(s))
    case Array(items) => Array(ScrubItems(items))
    case Object(members) => Object(ScrubMembers(members))
    case _ => v
  }

  function ScrubItems(items: seq<Json>): (r: seq<Json>)
    ensures |r| == |items|
    decreases items, 1
  {
    if items == [] then [] else [Scrub(items[0])] + ScrubItems(items[1..])
  }

  function ScrubMembers(members: seq<Member>): (r: seq<Member>)
    ensures |r| == |members|
    decreases members, 1
  {
    if members == [] then []
    else [Member(ScrubString(members[0].name), Scrub(members[0].value))] + ScrubMembers(members[1..])
  }

  // Every string and name of the value is made of characters that survive.
  ghost predicate CleanString(s: string) { forall c | c in s :: Survives(c) }

  ghost predicate Clean(v: Json) {
    match v
    case String(s) => CleanString(s)
    case Array(items) => forall x | x in items :: Clean(x)
    case Object(members) => forall m | m in members :: CleanString(m.name) && Clean(m.value)
    case _ => true
  }

  // ---------- What is printed, as a tree with its blanks ------------------

  // The escapes of RFC 8259 that the printer uses; other control characters
  // are dropped.
  function PartsOf(c: char): (ps: seq<Part>) {
    match c
    case '\"' => [Short('\"')]
    case '\\' => [Short('\\')]
    case '\U{8}' => [Short('b')]
    case '\U{c}' => [Short('f')]
    case '\n' => [Short('n')]
    case '\r' => [Short('r')]
    case '\t' => [Short('t')]
    case _ => if c < ' ' then [] else [Plain(c)]
  }

  function Parts(s: string): (ps: seq<Part>) {
    if s == "" then [] else PartsOf(s[0]) + Parts(s[1..])
  }

  function Quoted(s: string): (l: Literal) { Literal(Parts(s), true) }

  // The start of a line with `depth` tabs, in the indented layout.
  function Line(depth: nat, fmt: bool): (b: string) {
    if fmt then "\n" + seq(depth, _ => '\t') else ""
  }

  function Printed(v: Json, depth: nat, fmt: bool): (x: Syntax)
    decreases v, 0
  {
    match v
    case Null => NullWord
    case False => FalseWord
    case True => TrueWord
    case Number(n) => Num(n < 0, n == 0, if n == 0 then "" else Digits(if n < 0 then -n else n))
    case String(s) => Str(Quoted(s))
    case Array(items) => Arr("", PrintedItems(items, true, depth + 1, fmt))
    case Object(members) =>
      Obj(if members == [] then Line(depth, fmt) else "", PrintedMembers(members, depth + 1, fmt))
  }

  // A blank behind each comma in the indented layout.
  function PrintedItems(items: seq<Json>, first: bool, depth: nat, fmt: bool): (xs: seq<Spaced>)
    ensures |xs| == |items|
    decreases items, 1
  {
    if items == [] then []
    else
      [Spaced(if fmt && !first then " " else "", Printed(items[0], depth, fmt), "")]
      + PrintedItems(items[1..], false, depth, fmt)
  }

  // Each member on a line of its own, at the column of its depth, a tab behind
  // the colon, and the brace one column less.
  function PrintedMembers(members: seq<Member>, depth: nat, fmt: bool): (xs: seq<Entry>)
    requires depth > 0
    ensures |xs| == |members|
    decreases members, 1
  {
    if members == [] then []
    else
      [Entry(Line(depth, fmt), Quoted(members[0].name), "",
             Spaced(if fmt then "\t" else "", Printed(members[0].value, depth, fmt),
                    if |members| == 1 then Line(depth - 1, fmt) else ""))]
      + PrintedMembers(members[1..], depth, fmt)
  }

  // ---------- The tree has the printed text ----------------------------------

  lemma Regroup5(a: string, b: string, c: string, d: string, e: string)
    ensures a + b + c + d + e == a + (b + (c + (d + e)))
  {
  }

  lemma LastLine(newline: string, p: string, tabs: string, end: string)
    ensures p + "" + newline + "" + (tabs + end) == p + (newline + tabs + end)
  {
  }

  lemma CharText(c: char, t: string)
    ensures EscapeChar(c) + t == Text(PartsOf(c)) + t
    ensures WellFormed(PartsOf(c)) && Bytes(PartsOf(c)) == if Survives(c) then [c] else ""
  {
    if PartsOf(c) != [] {
      var p := PartsOf(c)[0];
      assert PartsOf(c) == [p] && [p][1..] == [];
      assert Text([p]) == PartText(p) + "" == PartText(p);
      assert Bytes([p]) == PartBytes(p) + "" == PartBytes(p);
    }
  }

  // A character is written as one part or dropped.
  lemma FirstParts(ps: seq<Part>, qs: seq<Part>)
    requires |ps| <= 1 && WellFormed(ps) && WellFormed(qs)
    ensures WellFormed(ps + qs) && Text(ps + qs) == Text(ps) + Text(qs) && Bytes(ps + qs) == Bytes(ps) + Bytes(qs)
  {
    if ps == [] {
      assert ps + qs == qs;
    } else {
      hide PartText, PartBytes, WellFormedPart;
      assert (ps + qs)[1..] == qs && (ps + qs)[0] == ps[0] && ps[1..] == [];
      assert PartText(ps[0]) + "" == PartText(ps[0]) && PartBytes(ps[0]) + "" == PartBytes(ps[0]);
    }
  }

  lemma {:induction false} EscapeIsText(s: string)
    ensures WellFormed(Parts(s)) && Escape(s) == Text(Parts(s)) && Bytes(Parts(s)) == ScrubString(s)
  {
    if s != "" {
      EscapeIsText(s[1..]);
      CharText(s[0], "");
      assert EscapeChar(s[0]) + "" == EscapeChar(s[0]) && Text(PartsOf(s[0])) + "" == Text(PartsOf(s[0]));
      assert |PartsOf(s[0])| <= 1;
      hide PartsOf, EscapeChar, Survives;
      FirstParts(PartsOf(s[0]), Parts(s[1..]));
    }
  }

  lemma QuotedText(s: string, rest: string)
    ensures PrintString(s) + rest == LiteralThen(Quoted(s), rest)
  {
    EscapeIsText(s);
    hide Escape, Text, Parts;
    assert "\"" + Escape(s) + "\"" + rest == "\"" + (Escape(s) + ("\"" + rest));
  }

  lemma NumberText(n: int, rest: string)
    ensures PrintNumber(n) + rest == TextThen(Printed(Number(n), 0, false), rest)
  {
    hide Digits;
    var d := Digits(if n < 0 then -n else n);
    if n == 0 {
      assert d == "0" by { DigitsLead(0); }
      assert "0" + rest == "" + ("0" + ("" + rest));
    } else if n < 0 {
      assert "-" + d + rest == "-" + ("" + (d + rest));
    } else {
      assert d + rest == "" + ("" + (d + rest));
    }
  }

  lemma {:induction false} PrintedText(v: Json, depth: nat, fmt: bool, rest: string)
    ensures PrintValue(v, depth, fmt) + rest == TextThen(Printed(v, depth, fmt), rest)
    decreases v, 0
  {
    match v
    case Number(n) => NumberText(n, rest);
    case String(s) => QuotedText(s, rest);
    case Array(items) => PrintedArrayText(items, depth, fmt, rest);
    case Object(members) => PrintedObjectText(members, depth, fmt, rest);
    case _ =>
  }

  lemma {:induction false} PrintedArrayText(items: seq<Json>, depth: nat, fmt: bool, rest: string)
    ensures PrintValue(Array(items), depth, fmt) + rest == TextThen(Printed(Array(items), depth, fmt), rest)
    decreases items, 2
  {
    var p := PrintItems(items, depth + 1, fmt);
    var t := if items == [] then "]" + rest else ItemsThen(PrintedItems(items, true, depth + 1, fmt), rest);
    assert t == "" + (p + ("]" + rest)) by {
      if items != [] {
        PrintedItemsText(items, true, depth + 1, fmt, rest);
      }
    }
    assert PrintValue(Array(items), depth, fmt) == "[" + p + "]";
    assert TextThen(Printed(Array(items), depth, fmt), rest) == "[" + ("" + t);
    hide *;
    InBrackets(p, rest);
  }

  lemma InBrackets(p: string, rest: string)
    ensures "[" + p + "]" + rest == "[" + ("" + ("" + (p + ("]" + rest))))
  {
  }

  lemma {:induction false} PrintedObjectText(members: seq<Member>, depth: nat, fmt: bool, rest: string)
    ensures PrintValue(Object(members), depth, fmt) + rest == TextThen(Printed(Object(members), depth, fmt), rest)
    decreases members, 2
  {
    var newline, tabs, p := if fmt then "\n" else "", if fmt then Tabs(depth) else "", PrintMembers(members, depth + 1, fmt);
    var xs := PrintedMembers(members, depth + 1, fmt);
    var open := if members == [] then Line(depth, fmt) else "";
    var t := if members == [] then "}" + rest else MembersThen(xs, rest);
    assert open + t == newline + (p + (tabs + ("}" + rest))) by {
      if members != [] {
        PrintedMembersText(members, depth + 1, fmt, rest);
        NoOpen(t);
      } else {
        assert Line(depth, fmt) == newline + tabs && p == "";
        NoMembers(newline, tabs, "}" + rest);
      }
    }
    assert PrintValue(Object(members), depth, fmt) == "{" + newline + p + tabs + "}";
    assert TextThen(Printed(Object(members), depth, fmt), rest) == "{" + (open + t);
    hide *;
    InBraces(newline, p, tabs, rest);
  }

  lemma NoOpen(t: string)
    ensures "" + t == t
  {
  }

  lemma NoMembers(newline: string, tabs: string, end: string)
    ensures newline + tabs + end == newline + ("" + (tabs + end))
  {
  }

  lemma InBraces(newline: string, p: string, tabs: string, rest: string)
    ensures "{" + newline + p + tabs + "}" + rest == "{" + (newline + (p + (tabs + ("}" + rest))))
  {
    Regroup5("{", newline, p, tabs, "}");
    Regroup5("{", newline, p, tabs, "}" + rest);
  }

  lemma {:induction false} PrintedItemsText(items: seq<Json>, first: bool, depth: nat, fmt: bool, rest: string)
    requires items != []
    ensures (if fmt && !first then " " else "") + (PrintItems(items, depth, fmt) + ("]" + rest))
         == ItemsThen(PrintedItems(items, first, depth, fmt), rest)
    decreases items, 1
  {
    var xs := PrintedItems(items, first, depth, fmt);
    var p, more := PrintValue(items[0], depth, fmt), MoreItems(items[1..], depth, fmt);
    var t := if |items| == 1 then "]" + rest else "," + ItemsThen(xs[1..], rest);
    assert xs[1..] == PrintedItems(items[1..], false, depth, fmt);
    assert more + ("]" + rest) == t by {
      if |items| > 1 {
        PrintedItemsText(items[1..], false, depth, fmt, rest);
        Separated(fmt, PrintItems(items[1..], depth, fmt), "]" + rest);
      } else {
        assert items[1..] == [] && more == "";
      }
    }
    PrintedText(items[0], depth, fmt, t);
    assert PrintItems(items, depth, fmt) == p + more;
    assert xs[0] == Spaced(if fmt && !first then " " else "", Printed(items[0], depth, fmt), "");
    assert ItemsThen(xs, rest) == SpacedThen(xs[0], t);
    hide PrintItems, ItemsThen, PrintedItems, PrintValue, MoreItems, Printed, TextThen;
    Regroup(p, more, "]" + rest);
    assert "" + t == t;
  }

  lemma Separated(fmt: bool, q: string, end: string)
    ensures (if fmt then ", " else ",") + q + end == "," + ((if fmt then " " else "") + (q + end))
  {
  }

  lemma {:induction false} PrintedMembersText(members: seq<Member>, depth: nat, fmt: bool, rest: string)
    requires members != [] && depth > 0
    ensures (if fmt then "\n" else "") + (PrintMembers(members, depth, fmt) + ((if fmt then Tabs(depth - 1) else "") + ("}" + rest)))
         == MembersThen(PrintedMembers(members, depth, fmt), rest)
    decreases members, 1
  {
    var xs := PrintedMembers(members, depth, fmt);
    var newline, tabs := if fmt then "\n" else "", if fmt then Tabs(depth - 1) else "";
    var close := tabs + ("}" + rest);
    var p, q := PrintMember(members[0], depth, fmt), PrintMembers(members[1..], depth, fmt);
    assert xs[1..] == PrintedMembers(members[1..], depth, fmt);
    if |members| == 1 {
      assert members[1..] == [] && q == "";
      assert newline + tabs == Line(depth - 1, fmt);
      LastLine(newline, p, tabs, "}" + rest);
      EntryText(members[0], depth, fmt, Line(depth - 1, fmt), "}" + rest);
    } else {
      PrintedMembersText(members[1..], depth, fmt, rest);
      Regroup5(p, ",", newline, q, close);
      assert "" + ("," + (newline + (q + close))) == "," + (newline + (q + close));
      EntryText(members[0], depth, fmt, "", "," + (newline + (q + close)));
    }
  }

  lemma {:induction false} EntryText(m: Member, depth: nat, fmt: bool, after: string, t: string)
    ensures (if fmt then "\n" else "") + (PrintMember(m, depth, fmt) + (after + t))
         == EntryThen(Entry(Line(depth, fmt), Quoted(m.name), "",
                            Spaced(if fmt then "\t" else "", Printed(m.value, depth, fmt), after)), t)
    decreases m, 1
  {
    var newline, tabs, tab := if fmt then "\n" else "", if fmt then Tabs(depth) else "", if fmt then "\t" else "";
    var name, v, end := PrintString(m.name), PrintValue(m.value, depth, fmt), after + t;
    PrintedText(m.value, depth, fmt, end);
    var behind := ":" + (tab + (v + end));
    QuotedText(m.name, "" + behind);
    assert "" + behind == behind;
    assert newline + tabs == Line(depth, fmt);
    hide *;
    Regroup5(tabs, name, ":", tab, v + end);
    Regroup(tabs + name + ":" + tab, v, end);
    Regroup(newline, tabs, name + behind);
  }

  lemma {:induction false} DigitsLead(n: nat)
    ensures IsDigit(Digits(n)[0])
    ensures n > 0 ==> Digits(n)[0] != '0'
    ensures n == 0 ==> Digits(n) == "0"
    decreases n
  {
    if n >= 10 {
      DigitsLead(n / 10);
    }
  }

  lemma {:induction false} DigitsArePlaces(n: nat)
    ensures AreDigits(Digits(n)) && PlaceValue(Digits(n)) == n
    decreases n
  {
    if n < 10 {
      assert PlaceValue(Digits(n)) == n * Pow10(0) + PlaceValue("");
    } else {
      DigitsArePlaces(n / 10);
      LastPlace(Digits(n / 10), (n % 10 + '0' as int) as char);
    }
  }

  // ---------- The tree means what survives -------------------------------------

  lemma {:induction false} PrintedMeans(v: Json, depth: nat, fmt: bool)
    requires Representable(v)
    ensures Accepted(Printed(v, depth, fmt)) && Means(Printed(v, depth, fmt)) == Scrub(v)
    ensures Strict(Printed(v, depth, fmt))
    decreases v, 0
  {
    match v
    case Number(n) =>
      var a := if n < 0 then -n else n;
      DigitsLead(a);
      DigitsArePlaces(a);
    case String(s) => QuotedMeans(s);
    case Array(items) => PrintedItemsMean(items, true, depth + 1, fmt);
    case Object(members) => PrintedMembersMean(members, depth + 1, fmt);
    case _ =>
  }

  lemma QuotedMeans(s: string)
    requires '\0' !in s
    ensures var l := Quoted(s); WellFormed(l.parts) && LiteralMeans(l) == ScrubString(s)
  {
    EscapeIsText(s);
    ScrubStringKeepsNoTerminator(s);
    NothingCut(ScrubString(s));
  }

  lemma ScrubStringKeepsNoTerminator(s: string)
    requires '\0' !in s
    ensures '\0' !in ScrubString(s)
  {
  }

  // A value ends at a comma, a bracket or a line end.
  lemma ValueEnds(v: Json, depth: nat, fmt: bool, rest: string)
    requires Boundary(rest)
    ensures Ends(Printed(v, depth, fmt), rest)
  {
  }

  lemma LinesAreSpace(depth: nat, fmt: bool)
    ensures Space(Line(depth, fmt))
  {
  }

  lemma {:induction false} PrintedItemsMean(items: seq<Json>, first: bool, depth: nat, fmt: bool)
    requires forall x | x in items :: Representable(x)
    ensures var xs := PrintedItems(items, first, depth, fmt);
      AllAccepted(xs) && ItemsMean(xs) == ScrubItems(items) && AllStrict(xs)
    decreases items, 1
  {
    if items != [] {
      PrintedMeans(items[0], depth, fmt);
      PrintedItemsMean(items[1..], false, depth, fmt);
      ValueEnds(items[0], depth, fmt, "" + ",");
      var xs := PrintedItems(items, first, depth, fmt);
      assert xs[1..] == PrintedItems(items[1..], false, depth, fmt);
      assert SpacedAccepted(xs[0]);
    }
  }

  lemma {:induction false} PrintedMembersMean(members: seq<Member>, depth: nat, fmt: bool)
    requires depth > 0 && forall m | m in members :: '\0' !in m.name && Representable(m.value)
    ensures var xs := PrintedMembers(members, depth, fmt);
      AllMembersAccepted(xs) && MembersMean(xs) == ScrubMembers(members) && AllMembersStrict(xs)
    decreases members, 1
  {
    if members != [] {
      PrintedMeans(members[0].value, depth, fmt);
      PrintedMembersMean(members[1..], depth, fmt);
      QuotedMeans(members[0].name);
      var xs := PrintedMembers(members, depth, fmt);
      assert xs[1..] == PrintedMembers(members[1..], depth, fmt);
      LinesAreSpace(depth, fmt);
      LinesAreSpace(depth - 1, fmt);
      hide Quoted, Printed, Line, Strict, Means, ScrubString, Scrub;
      assert EntryStrict(xs[0]) by { assert SpacedStrict(xs[0].value); }
      assert EntryAccepted(xs[0]) by { StrictEntry(xs[0]); }
    }
  }

  // ---------- Reading it back -----------------------------------------------------

  lemma ParsePrintedString(s: string, rest: string)
    requires '\0' !in s
    ensures ParseString(PrintString(s) + rest) == Done(ScrubString(s), rest)
  {
    QuotedText(s, rest);
    QuotedMeans(s);
    LiteralIsTaken(Quoted(s), rest);
  }

  lemma ParsePrintedNumber(n: int, rest: string)
    requires INT_MIN <= n <= INT_MAX && Boundary(rest)
    ensures var s := PrintNumber(n) + rest; s != "" && (s[0] == '-' || IsDigit(s[0])) && ParseNumber(s) == Done(Number(n), rest)
  {
    NumberText(n, rest);
    PrintedMeans(Number(n), 0, false);
    ValueEnds(Number(n), 0, false, rest);
    NumberIsTaken(Printed(Number(n), 0, false), rest);
  }

  lemma ParsePrintedValue(v: Json, depth: nat, fmt: bool, rest: string)
    requires Representable(v) && Boundary(rest)
    ensures ParseValue(PrintValue(v, depth, fmt) + rest) == Done(Scrub(v), rest)
  {
    PrintedText(v, depth, fmt, rest);
    PrintedMeans(v, depth, fmt);
    ValueEnds(v, depth, fmt, rest);
    ValueIsTaken(Printed(v, depth, fmt), rest);
  }

  lemma ParsePrintedItems(items: seq<Json>, depth: nat, fmt: bool, rest: string)
    requires items != [] && forall x | x in items :: Representable(x)
    ensures ParseItems(PrintItems(items, depth, fmt) + ("]" + rest)) == Done(ScrubItems(items), rest)
  {
    var t := PrintItems(items, depth, fmt) + ("]" + rest);
    PrintedItemsText(items, true, depth, fmt, rest);
    assert "" + t == t;
    PrintedItemsMean(items, true, depth, fmt);
    ItemsAreTaken(PrintedItems(items, true, depth, fmt), rest);
  }

  lemma ParsePrintedMembers(members: seq<Member>, depth: nat, fmt: bool, close: string, rest: string)
    requires members != [] && forall m | m in members :: '\0' !in m.name && Representable(m.value)
    requires depth > 0 && close == (if fmt then Tabs(depth - 1) else "") + "}" + rest
    ensures ParseMembers(PrintMembers(members, depth, fmt) + close) == Done(ScrubMembers(members), rest)
  {
    var newline, t := if fmt then "\n" else "", PrintMembers(members, depth, fmt) + close;
    Regroup(if fmt then Tabs(depth - 1) else "", "}", rest);
    PrintedMembersText(members, depth, fmt, rest);
    PrintedMembersMean(members, depth, fmt);
    MembersAreTaken(PrintedMembers(members, depth, fmt), rest);
    SkipBlanks(newline, t);
    SameMembers(newline + t, t);
  }

  lemma SameMembers(s: string, t: string)
    requires Skip(s) == Skip(t)
    ensures ParseMembers(s) == ParseMembers(t)
  {
    assert ParseName(s) == ParseName(t) && ParseMember(s) == ParseMember(t);
  }

  // ---------- The theorems ----------------------------------------------

  // For every tree, of any depth and in both modes, parsing the printed text
  // consumes all of it and gives the tree back up to the dropped characters.
  lemma ParseOfPrint(v: Json, fmt: bool)
    requires Representable(v)
    ensures Parse(PrintValue(v, 0, fmt)) == Done(Scrub(v), "")
  {
    var t := PrintValue(v, 0, fmt);
    assert t + "" == t;
    ParsePrintedValue(v, 0, fmt, "");
    PrintedText(v, 0, fmt, "");
    PrintedMeans(v, 0, fmt);
    FirstCharacter(Printed(v, 0, fmt), "");
    SkipTo("", t);
    assert "" + t == t;
  }

  lemma {:induction false} ScrubStringIdentity(s: string)
    ensures |ScrubString(s)| <= |s|
    ensures ScrubString(s) == s <==> CleanString(s)
  {
    if s != "" {
      ScrubStringIdentity(s[1..]);
      assert s == [s[0]] + s[1..];
      assert Survives(s[0]) && ScrubString(s) == s ==> ScrubString(s[1..]) == s[1..];
    }
  }

  lemma {:induction false} ScrubIdentity(v: Json)
    ensures Scrub(v) == v <==> Clean(v)
    decreases v, 0
  {
    match v
    case String(s) => ScrubStringIdentity(s);
    case Array(items) => ScrubItemsIdentity(items);
    case Object(members) => ScrubMembersIdentity(members);
    case _ =>
  }

  lemma {:induction false} ScrubItemsIdentity(items: seq<Json>)
    ensures ScrubItems(items) == items <==> forall x | x in items :: Clean(x)
    decreases items, 1
  {
    if items != [] {
      ScrubIdentity(items[0]);
      ScrubItemsIdentity(items[1..]);
      assert items == [items[0]] + items[1..];
    }
  }

  lemma {:induction false} ScrubMembersIdentity(members: seq<Member>)
    ensures ScrubMembers(members) == members <==> forall m | m in members :: CleanString(m.name) && Clean(m.value)
    decreases members, 1
  {
    if members != [] {
      ScrubStringIdentity(members[0].name);
      ScrubIdentity(members[0].value);
      ScrubMembersIdentity(members[1..]);
      assert members == [members[0]] + members[1..];
    }
  }

  // The round trip is exact precisely for values without dropped characters.
  lemma RoundTripIff(v: Json, fmt: bool)
    requires Representable(v)
    ensures Parse(PrintValue(v, 0, fmt)) == Done(v, "") <==> Clean(v)
  {
    ParseOfPrint(v, fmt);
    ScrubIdentity(v);
  }

  // A string of one control character without an escape comes back empty.
  lemma ControlCharacterIsLost(fmt: bool)
    ensures Parse(PrintValue(String("\U{1}"), 0, fmt)) == Done(String(""), "")
  {
    ParseOfPrint(String("\U{1}"), fmt);
    assert ScrubString("\U{1}") == "";
  }

  // Both layouts denote the same value.
  lemma LayoutsAgree(v: Json)
    requires Representable(v)
    ensures Parse(PrintValue(v, 0, true)) == Parse(PrintValue(v, 0, false))
  {
    ParseOfPrint(v, true);
    ParseOfPrint(v, false);
  }

  // ---------- Printing what was parsed changes nothing -------------------

  lemma NoEscape(c: char)
    requires !Survives(c)
    ensures EscapeChar(c) == ""
  {
  }

  lemma {:induction false} EscapeOfScrub(s: string)
    ensures Escape(ScrubString(s)) == Escape(s)
  {
    if s != "" {
      EscapeOfScrub(s[1..]);
      if Survives(s[0]) {
        assert ScrubString(s)[1..] == ScrubString(s[1..]);
      } else {
        NoEscape(s[0]);
        assert ScrubString(s) == ScrubString(s[1..]);
      }
    }
  }

  lemma {:induction false} PrintOfScrub(v: Json, depth: nat, fmt: bool)
    ensures PrintValue(Scrub(v), depth, fmt) == PrintValue(v, depth, fmt)
    decreases v, 0
  {
    match v
    case String(s) => EscapeOfScrub(s);
    case Array(items) => PrintItemsOfScrub(items, depth + 1, fmt);
    case Object(members) => PrintMembersOfScrub(members, depth + 1, fmt);
    case _ =>
  }

  lemma {:induction false} PrintItemsOfScrub(items: seq<Json>, depth: nat, fmt: bool)
    ensures PrintItems(ScrubItems(items), depth, fmt) == PrintItems(items, depth, fmt)
    decreases items, 1
  {
    if items != [] {
      PrintOfScrub(items[0], depth, fmt);
      PrintItemsOfScrub(items[1..], depth, fmt);
      assert ScrubItems(items)[1..] == ScrubItems(items[1..]);
      assert MoreItems(ScrubItems(items[1..]), depth, fmt) == MoreItems(items[1..], depth, fmt);
    }
  }

  lemma {:induction false} PrintMembersOfScrub(members: seq<Member>, depth: nat, fmt: bool)
    ensures PrintMembers(ScrubMembers(members), depth, fmt) == PrintMembers(members, depth, fmt)
    decreases members, 1
  {
    if members != [] {
      EscapeOfScrub(members[0].name);
      PrintOfScrub(members[0].value, depth, fmt);
      PrintMembersOfScrub(members[1..], depth, fmt);
      assert ScrubMembers(members)[1..] == ScrubMembers(members[1..]);
    }
  }

  // One pass through printer and parser reaches a fixed point of the two.
  lemma ReprintIsStable(v: Json, fmt: bool)
    requires Representable(v)
    ensures Parse(PrintValue(v, 0, fmt)).Done?
    ensures PrintValue(Parse(PrintValue(v, 0, fmt)).value, 0, fmt) == PrintValue(v, 0, fmt)
  {
    ParseOfPrint(v, fmt);
    PrintOfScrub(v, 0, fmt);
  }

  // ---------- Reading past the terminator --------------------------------

  // Skipping blanks runs over the terminator exactly when only blanks and
  // control characters are left.
  lemma {:induction false} SkipStaysInside(s: string)
    ensures Skip(s) == None <==> Blank(s)
  {
    if s != "" {
      SkipStaysInside(s[1..]);
      assert s == [s[0]] + s[1..];
    }
  }
}
