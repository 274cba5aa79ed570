// The texts the parser rejects, as syntax trees that break off at an error, and
// that it rejects exactly these.

module JsonErrors {
  import opened Common
  import opened JsonText
  import opened JsonLiteral
  import opened JsonGrammar

  // Where a text goes wrong: at a value that does not begin like one, or inside
  // an array or object behind some complete items or members.
  datatype Broken =
    | NoValue(text: string)
    | BadItem(open: string, items: seq<Spaced>, before: string, bad: Broken)
    | NoBracket(open: string, items: seq<Spaced>, last: Spaced, rest: string)
    | NoName(open: string, members: seq<Entry>, before: string, rest: string)
    | NoColon(open: string, members: seq<Entry>, before: string, name: Literal, gap: string, rest: string)
    | BadValue(open: string, members: seq<Entry>, before: string, name: Literal, gap: string, blanks: string, bad: Broken)
    | NoBrace(open: string, members: seq<Entry>, end: Entry, rest: string)

  // Items or members with their commas, in front of what follows.
  function ItemsFront(items: seq<Spaced>, tail: string): (t: string) {
    if items == [] then tail else SpacedThen(items[0], "," + ItemsFront(items[1..], tail))
  }

  function MembersFront(members: seq<Entry>, tail: string): (t: string) {
    if members == [] then tail else EntryThen(members[0], "," + MembersFront(members[1..], tail))
  }

  function TextOfBroken(b: Broken): (t: string) {
    match b
    case NoValue(text) => text
    case BadItem(open, items, before, bad) => "[" + (open + ItemsFront(items, before + TextOfBroken(bad)))
    case NoBracket(open, items, last, rest) => "[" + (open + ItemsFront(items, SpacedThen(last, rest)))
    case NoName(open, members, before, rest) => "{" + (open + MembersFront(members, before + rest))
    case NoColon(open, members, before, name, gap, rest) =>
      "{" + (open + MembersFront(members, before + LiteralThen(name, gap + rest)))
    case BadValue(open, members, before, name, gap, blanks, bad) =>
      "{" + (open + MembersFront(members, before + LiteralThen(name, gap + (":" + (blanks + TextOfBroken(bad))))))
    case NoBrace(open, members, end, rest) => "{" + (open + MembersFront(members, EntryThen(end, rest)))
  }

  // No value begins like this.
  predicate BeginsNoValue(t: string) {
    && (t == "" || (t[0] !in "\"-[{" && !IsDigit(t[0])))
    && !("null" <= t) && !("false" <= t) && !("true" <= t)
  }

  // A character other than a blank and other than these.
  predicate Other(rest: string, signs: string) { rest != "" && rest[0] > ' ' && rest[0] !in signs }

  predicate IsBroken(b: Broken) {
    match b
    case NoValue(text) => BeginsNoValue(text)
    case BadItem(open, items, before, bad) =>
      && Blank(open) && AllAccepted(items) && Blank(before) && IsBroken(bad)
      && Other(TextOfBroken(bad), if items == [] then "]" else "")
    case NoBracket(open, items, last, rest) =>
      Blank(open) && AllAccepted(items) && SpacedIn(last, rest) && Other(rest, ",]")
    case NoName(open, members, before, rest) =>
      Blank(open) && AllMembersAccepted(members) && Blank(before) && Other(rest, if members == [] then "\"}" else "\"")
    case NoColon(open, members, before, name, gap, rest) =>
      Blank(open) && AllMembersAccepted(members) && NamedIn(before, name, gap, rest) && Other(rest, ":")
    case BadValue(open, members, before, name, gap, blanks, bad) =>
      && Blank(open) && AllMembersAccepted(members) && NamedIn(before, name, gap, ":") && Blank(blanks)
      && IsBroken(bad) && Other(TextOfBroken(bad), "")
    case NoBrace(open, members, end, rest) =>
      && Blank(open) && AllMembersAccepted(members) && NamedIn(end.before, end.name, end.gap, ":")
      && SpacedIn(end.value, rest) && Other(rest, ",}")
  }

  // ---------- Broken texts are rejected ---------------------------------------------

  lemma NoValueIsRejected(t: string)
    ensures BeginsNoValue(t) <==> ParseValue(t) == Reject && (t == "" || t[0] !in "[{")
  {
    hide ParseItems, ParseMembers;
    assert |t| >= 4 ==> ("null" <= t <==> t[..4] == "null") && ("true" <= t <==> t[..4] == "true");
    assert |t| >= 5 ==> ("false" <= t <==> t[..5] == "false");
    if t != "" && t[0] == '\"' {
      NeverRejects(t[1..]);
    }
  }

  lemma {:induction false} NeverRejects(t: string)
    ensures !Unescape(t).Reject?
    decreases |t|
  {
    if !EndsString(t) && !Unescape(t).Undefined? {
      if t[0] != '\\' {
        NeverRejects(t[1..]);
      } else if t[1] != 'u' {
        NeverRejects(t[2..]);
      } else {
        NeverRejects(t[6..]);
      }
    }
  }

  // Behind complete items the rest decides.
  lemma {:induction false} RejectedBehindItems(items: seq<Spaced>, tail: string)
    requires AllAccepted(items) && ParseItems(tail) == Reject
    ensures ParseItems(ItemsFront(items, tail)) == Reject
    decreases |items|
  {
    if items != [] {
      RejectedBehindItems(items[1..], tail);
      var t := "," + ItemsFront(items[1..], tail);
      assert t[1..] == ItemsFront(items[1..], tail);
      hide ParseOne, Accepted, Ends;
      SpacedIsTaken(items[0], t);
    }
  }

  lemma {:induction false} RejectedBehindMembers(members: seq<Entry>, tail: string)
    requires AllMembersAccepted(members) && ParseMembers(tail) == Reject
    ensures ParseMembers(MembersFront(members, tail)) == Reject
    decreases |members|
  {
    if members != [] {
      RejectedBehindMembers(members[1..], tail);
      var t := "," + MembersFront(members[1..], tail);
      assert t[1..] == MembersFront(members[1..], tail);
      hide ParseMember, EntryAccepted;
      MemberIsTaken(members[0], t);
    }
  }

  // An array or object whose contents are rejected and do not begin with its
  // closing sign.
  lemma ArrayIsRejected(open: string, t: string, u: string)
    requires Blank(open) && ParseItems(t) == Reject && Skip(t) == Some(u) && u[0] != ']'
    ensures ParseValue("[" + (open + t)) == Reject
  {
    hide ParseItems, Skip;
    var s := "[" + (open + t);
    NoWord(s);
    assert s[1..] == open + t;
    SkipBlanks(open, t);
    SameItems(t, u);
  }

  lemma SameItems(t: string, u: string)
    requires Skip(t) == Some(u)
    ensures ParseItems(t) == ParseItems(u)
  {
    SkipTo("", u);
    assert "" + u == u;
    hide ParseTrimmed;
    assert ParseOne(t) == ParseOne(u);
  }

  lemma ObjectIsRejected(open: string, t: string, u: string)
    requires Blank(open) && ParseMembers(t) == Reject && Skip(t) == Some(u) && u[0] != '}'
    ensures ParseValue("{" + (open + t)) == Reject
  {
    hide ParseMembers, Skip;
    var s := "{" + (open + t);
    NoWord(s);
    assert s[1..] == open + t;
    SkipBlanks(open, t);
    SameMembers(t, u);
  }

  lemma SameMembers(t: string, u: string)
    requires Skip(t) == Some(u)
    ensures ParseMembers(t) == ParseMembers(u)
  {
    SkipTo("", u);
    assert "" + u == u;
    hide ParseString, ParseTrimmed;
    assert ParseName(t) == ParseName(u);
    hide ParseName;
    assert ParseMember(t) == ParseMember(u);
  }

  // The first item or member is what the contents begin with.
  lemma FrontOfItems(items: seq<Spaced>, tail: string) returns (u: string)
    requires AllAccepted(items) && (items == [] ==> Skip(tail).Some? && Skip(tail).value[0] != ']')
    ensures Skip(ItemsFront(items, tail)) == Some(u) && u[0] != ']'
  {
    if items == [] {
      u := Skip(tail).value;
    } else {
      var x, t := items[0], "," + ItemsFront(items[1..], tail);
      u := TextThen(x.value, x.after + t);
      assert SpacedAccepted(x);
      FirstCharacter(x.value, x.after + t);
      SkipTo(x.before, u);
    }
  }

  lemma FrontOfMembers(members: seq<Entry>, tail: string) returns (u: string)
    requires AllMembersAccepted(members) && (members == [] ==> Skip(tail).Some? && Skip(tail).value[0] != '}')
    ensures Skip(MembersFront(members, tail)) == Some(u) && u[0] != '}'
  {
    if members == [] {
      u := Skip(tail).value;
    } else {
      var m, t := members[0], "," + MembersFront(members[1..], tail);
      assert EntryAccepted(m);
      u := LiteralThen(m.name, m.gap + (":" + SpacedThen(m.value, t)));
      SkipTo(m.before, u);
    }
  }

  lemma {:induction false} BrokenIsRejected(b: Broken)
    requires IsBroken(b)
    ensures ParseValue(TextOfBroken(b)) == Reject
    decreases b
  {
    match b
    case NoValue(text) => NoValueIsRejected(text);
    case BadItem(open, items, before, bad) =>
      BrokenIsRejected(bad);
      BadItemIsRejected(before, TextOfBroken(bad));
      ArrayBreaksOff(open, items, before + TextOfBroken(bad), TextOfBroken(bad));
    case NoBracket(open, items, last, rest) =>
      var u := LastItemIsRejected(last, rest);
      ArrayBreaksOff(open, items, SpacedThen(last, rest), u);
    case NoName(open, members, before, rest) =>
      NoNameIsRejected(before, rest);
      ObjectBreaksOff(open, members, before + rest, rest);
    case NoColon(open, members, before, name, gap, rest) =>
      NoColonIsRejected(before, name, gap, rest);
      ObjectBreaksOff(open, members, before + LiteralThen(name, gap + rest), LiteralThen(name, gap + rest));
    case BadValue(open, members, before, name, gap, blanks, bad) =>
      BrokenIsRejected(bad);
      var t := ":" + (blanks + TextOfBroken(bad));
      BadValueIsRejected(before, name, gap, blanks, TextOfBroken(bad));
      ObjectBreaksOff(open, members, before + LiteralThen(name, gap + t), LiteralThen(name, gap + t));
    case NoBrace(open, members, end, rest) =>
      var u := LastMemberIsRejected(end, rest);
      ObjectBreaksOff(open, members, EntryThen(end, rest), u);
  }

  lemma ArrayBreaksOff(open: string, items: seq<Spaced>, tail: string, u: string)
    requires Blank(open) && AllAccepted(items) && ParseItems(tail) == Reject
    requires Skip(tail) == Some(u) && (items == [] ==> u[0] != ']')
    ensures ParseValue("[" + (open + ItemsFront(items, tail))) == Reject
  {
    hide ParseItems, ParseValue, AllAccepted, Skip;
    RejectedBehindItems(items, tail);
    var w := FrontOfItems(items, tail);
    ArrayIsRejected(open, ItemsFront(items, tail), w);
  }

  lemma ObjectBreaksOff(open: string, members: seq<Entry>, tail: string, u: string)
    requires Blank(open) && AllMembersAccepted(members) && ParseMembers(tail) == Reject
    requires Skip(tail) == Some(u) && (members == [] ==> u[0] != '}')
    ensures ParseValue("{" + (open + MembersFront(members, tail))) == Reject
  {
    hide ParseMembers, ParseValue, AllMembersAccepted, Skip;
    RejectedBehindMembers(members, tail);
    var w := FrontOfMembers(members, tail);
    ObjectIsRejected(open, MembersFront(members, tail), w);
  }

  lemma BadItemIsRejected(before: string, t: string)
    requires Blank(before) && t != "" && t[0] > ' ' && ParseValue(t) == Reject
    ensures Skip(before + t) == Some(t) && ParseItems(before + t) == Reject
  {
    hide ParseValue;
    SkipTo(before, t);
    assert ParseOne(before + t) == Reject;
  }

  lemma LastItemIsRejected(x: Spaced, rest: string) returns (u: string)
    requires SpacedIn(x, rest) && Other(rest, ",]")
    ensures Skip(SpacedThen(x, rest)) == Some(u) && u[0] != ']' && ParseItems(SpacedThen(x, rest)) == Reject
  {
    u := ReadSpaced(x, rest);
    hide ParseOne, ParseTrimmed;
  }

  lemma ReadSpaced(x: Spaced, rest: string) returns (u: string)
    requires SpacedIn(x, rest) && rest != "" && rest[0] > ' '
    ensures u == TextThen(x.value, x.after + rest) && u != "" && u[0] !in "]}:" && Skip(SpacedThen(x, rest)) == Some(u)
    ensures ParseOne(SpacedThen(x, rest)) == Done(Means(x.value), rest)
    ensures ParseTrimmed(u) == Done(Means(x.value), rest)
  {
    hide ParseValue;
    u := TextThen(x.value, x.after + rest);
    ValueIsTaken(x.value, x.after + rest);
    FirstCharacter(x.value, x.after + rest);
    SkipTo(x.before, u);
    SkipTo(x.after, rest);
  }

  lemma NoNameIsRejected(before: string, rest: string)
    requires Blank(before) && Other(rest, "\"")
    ensures Skip(before + rest) == Some(rest) && ParseMembers(before + rest) == Reject
  {
    SkipTo(before, rest);
    assert ParseName(before + rest) == Reject;
    hide ParseName;
    assert ParseMember(before + rest) == Reject;
  }

  lemma NoColonIsRejected(before: string, name: Literal, gap: string, rest: string)
    requires NamedIn(before, name, gap, rest) && Other(rest, ":")
    ensures var u := LiteralThen(name, gap + rest); Skip(before + u) == Some(u) && ParseMembers(before + u) == Reject
  {
    hide ParseString;
    var u := LiteralThen(name, gap + rest);
    SkipTo(before, u);
    LiteralIsTaken(name, gap + rest);
    SkipTo(gap, rest);
    assert ParseName(before + u) == Reject;
    hide ParseName;
    assert ParseMember(before + u) == Reject;
  }

  lemma ReadName(before: string, name: Literal, gap: string, blanks: string, v: string)
    requires NamedIn(before, name, gap, ":") && Blank(blanks) && v != "" && v[0] > ' '
    ensures var u := LiteralThen(name, gap + (":" + (blanks + v)));
      Skip(before + u) == Some(u) && ParseName(before + u) == Done(LiteralMeans(name), v)
  {
    hide ParseString;
    var colon := ":" + (blanks + v);
    var u := LiteralThen(name, gap + colon);
    SkipTo(before, u);
    assert (gap + colon)[0] == (gap + ":")[0];
    LiteralIsTaken(name, gap + colon);
    SkipTo(gap, colon);
    assert colon[1..] == blanks + v;
    SkipTo(blanks, v);
  }

  lemma BadValueIsRejected(before: string, name: Literal, gap: string, blanks: string, v: string)
    requires NamedIn(before, name, gap, ":") && Blank(blanks) && v != "" && v[0] > ' ' && ParseValue(v) == Reject
    ensures var u := LiteralThen(name, gap + (":" + (blanks + v)));
      Skip(before + u) == Some(u) && ParseMembers(before + u) == Reject
  {
    hide ParseValue, ParseName, Skip;
    ReadName(before, name, gap, blanks, v);
    var u := LiteralThen(name, gap + (":" + (blanks + v)));
    assert ParseTrimmed(v) == Reject;
    assert ParseMember(before + u) == Reject;
  }

  lemma LastMemberIsRejected(m: Entry, rest: string) returns (u: string)
    requires NamedIn(m.before, m.name, m.gap, ":") && SpacedIn(m.value, rest) && Other(rest, ",}")
    ensures Skip(EntryThen(m, rest)) == Some(u) && u[0] != '}' && ParseMembers(EntryThen(m, rest)) == Reject
  {
    hide ParseTrimmed, ParseName, Skip;
    var v := ReadSpaced(m.value, rest);
    FirstCharacter(m.value.value, m.value.after + rest);
    u := LiteralThen(m.name, m.gap + (":" + (m.value.before + v)));
    ReadName(m.before, m.name, m.gap, m.value.before, v);
    assert ParseMember(EntryThen(m, rest)).Done?;
    hide ParseMember;
  }

  // ---------- Nothing else is rejected ---------------------------------------------

  lemma {:induction false} BrokenWas(s: string) returns (b: Broken)
    requires ParseValue(s) == Reject
    ensures IsBroken(b) && s == TextOfBroken(b)
    decreases |s|, 1
  {
    if s == "" || s[0] !in "[{" {
      NoValueIsRejected(s);
      b := NoValue(s);
    } else if s[0] == '[' {
      b := BrokenArrayWas(s);
    } else {
      b := BrokenObjectWas(s);
    }
  }

  lemma {:induction false} BrokenArrayWas(s: string) returns (b: Broken)
    requires s != "" && s[0] == '[' && ParseValue(s) == Reject
    ensures IsBroken(b) && s == TextOfBroken(b)
    decreases |s|, 0
  {
    hide ParseItems, Skip;
    NoWord(s);
    var t := Skip(s[1..]).value;
    var open := SkippedBlanks(s[1..]);
    var items, before, bad, last, rest := BrokenItemsWere(t);
    assert s == "[" + (open + t);
    b := if last.None? then BadItem(open, items, before, bad) else NoBracket(open, items, last.value, rest);
    if last.None? && items == [] {
      NothingInFront(before, TextOfBroken(bad), t);
    }
  }

  lemma NothingInFront(before: string, u: string, t: string)
    requires Blank(before) && t == before + u && t != "" && t[0] > ' '
    ensures t == u
  {
    assert forall i | 0 <= i < |before| :: t[i] == before[i];
  }

  lemma OneRejected(t: string)
    requires ParseOne(t).Reject?
    ensures Skip(t).Some? && ParseTrimmed(Skip(t).value).Reject? && ParseValue(Skip(t).value).Reject?
  {
    hide ParseValue, Skip;
    if Skip(t).Some? {
      var u := Skip(t).value;
      assert ParseTrimmed(u).Reject?;
    }
  }

  // The items that were read, and what is wrong with the next one or behind
  // the last one.
  lemma {:induction false} BrokenItemsWere(t: string)
    returns (items: seq<Spaced>, before: string, bad: Broken, last: Option<Spaced>, rest: string)
    requires ParseItems(t) == Reject
    ensures AllAccepted(items)
    ensures last.None? ==>
      && Blank(before) && IsBroken(bad) && Other(TextOfBroken(bad), "")
      && t == ItemsFront(items, before + TextOfBroken(bad))
    ensures last.Some? ==>
      SpacedIn(last.value, rest) && Other(rest, ",]") && t == ItemsFront(items, SpacedThen(last.value, rest))
    decreases |t|, 4
  {
    hide ParseValue, Skip;
    items, before, bad, last, rest := [], "", NoValue(""), None, "";
    var one := ParseOne(t);
    if one.Reject? {
      OneRejected(t);
      before := SkippedBlanks(t);
      bad := BrokenWas(Skip(t).value);
    } else {
      var x := SpacedWas(t);
      rest := one.rest;
      assert ItemsAfter([one.value], rest) == Reject;
      if rest[0] == ',' {
        items, before, bad, last, rest := BrokenItemsWere(rest[1..]);
        assert ([x] + items)[1..] == items;
        items := [x] + items;
        assert one.rest == "," + one.rest[1..];
      } else {
        last := Some(x);
      }
    }
  }

  lemma {:induction false} BrokenObjectWas(s: string) returns (b: Broken)
    requires s != "" && s[0] == '{' && ParseValue(s) == Reject
    ensures IsBroken(b) && s == TextOfBroken(b)
    decreases |s|, 0
  {
    hide ParseMembers, Skip;
    NoWord(s);
    var t := Skip(s[1..]).value;
    var open := SkippedBlanks(s[1..]);
    var members, c := BrokenMembersWere(t);
    assert s == "{" + (open + t);
    b := c.(open := open, members := members);
    if c.NoName? && members == [] {
      NothingInFront(c.before, c.rest, t);
    }
  }

  // The part of the text behind the complete members.
  function Tail(c: Broken): (t: string)
    requires c.NoName? || c.NoColon? || c.BadValue? || c.NoBrace?
  {
    match c
    case NoName(_, _, before, rest) => before + rest
    case NoColon(_, _, before, name, gap, rest) => before + LiteralThen(name, gap + rest)
    case BadValue(_, _, before, name, gap, blanks, bad) =>
      before + LiteralThen(name, gap + (":" + (blanks + TextOfBroken(bad))))
    case NoBrace(_, _, end, rest) => EntryThen(end, rest)
  }

  // The error itself, apart from the members in front of it.
  predicate IsError(c: Broken) {
    match c
    case NoName(_, _, before, rest) => Blank(before) && Other(rest, "\"")
    case NoColon(_, _, before, name, gap, rest) => NamedIn(before, name, gap, rest) && Other(rest, ":")
    case BadValue(_, _, before, name, gap, blanks, bad) =>
      NamedIn(before, name, gap, ":") && Blank(blanks) && IsBroken(bad) && Other(TextOfBroken(bad), "")
    case NoBrace(_, _, end, rest) =>
      NamedIn(end.before, end.name, end.gap, ":") && SpacedIn(end.value, rest) && Other(rest, ",}")
    case _ => false
  }

  lemma {:induction false} BrokenMembersWere(t: string) returns (members: seq<Entry>, c: Broken)
    requires ParseMembers(t) == Reject
    ensures AllMembersAccepted(members) && IsError(c) && t == MembersFront(members, Tail(c))
    decreases |t|, 4
  {
    hide ParseValue, Skip, ParseName;
    members := [];
    var one := ParseMember(t);
    if one.Reject? {
      c := BrokenMemberWas(t);
    } else {
      var m := MemberWas(t);
      var rest := one.rest;
      assert MembersAfter([one.value], rest) == Reject;
      if rest[0] == ',' {
        members, c := BrokenMembersWere(rest[1..]);
        assert ([m] + members)[1..] == members;
        members := [m] + members;
        assert rest == "," + rest[1..];
      } else {
        c := NoBrace("", [], m, rest);
      }
    }
  }

  lemma {:induction false} BrokenMemberWas(t: string) returns (c: Broken)
    requires ParseMember(t) == Reject
    ensures IsError(c) && t == Tail(c)
    decreases |t|, 3
  {
    hide ParseValue, Skip, ParseString;
    var before := SkippedBlanks(t);
    var u := Skip(t).value;
    if ParseString(u).Reject? {
      assert u[0] != '\"' by { QuoteIsNoError(u); }
      c := NoName("", [], before, u);
    } else {
      var name := NamedWas(u);
      var r := ParseString(u).rest;
      var gap := SkippedBlanks(r);
      var w := Skip(r).value;
      if w[0] != ':' {
        c := NoColon("", [], before, name, gap, w);
      } else {
        assert (gap + w)[0] == (gap + ":")[0];
        assert w == ":" + w[1..];
        var blanks := SkippedBlanks(w[1..]);
        var bad := BrokenWas(Skip(w[1..]).value);
        c := BadValue("", [], before, name, gap, blanks, bad);
      }
    }
  }

  lemma QuoteIsNoError(u: string)
    requires ParseString(u).Reject?
    ensures u == "" || u[0] != '\"'
  {
    if u != "" && u[0] == '\"' {
      NeverRejects(u[1..]);
    }
  }

  // ---------- The theorems -------------------------------------------------------------

  lemma RejectsIff(s: string)
    ensures ParseValue(s) == Reject <==> exists b :: IsBroken(b) && s == TextOfBroken(b)
  {
    if ParseValue(s) == Reject {
      var b := BrokenWas(s);
    }
    if b :| IsBroken(b) && s == TextOfBroken(b) {
      BrokenIsRejected(b);
    }
  }

  ghost predicate BrokenBehind(blanks: string, b: Broken, s: string) {
    Blank(blanks) && IsBroken(b) && Other(TextOfBroken(b), "") && s == blanks + TextOfBroken(b)
  }

  // cJSON_Parse returns null on exactly these texts.
  lemma ParseRejectsIff(s: string)
    ensures Parse(s) == Reject <==> exists blanks, b :: BrokenBehind(blanks, b, s)
  {
    if Parse(s) == Reject {
      var blanks := SkippedBlanks(s);
      var b := BrokenWas(Skip(s).value);
      assert BrokenBehind(blanks, b, s);
    }
    if blanks, b :| BrokenBehind(blanks, b, s) {
      SkipTo(blanks, TextOfBroken(b));
      BrokenIsRejected(b);
    }
  }
}
