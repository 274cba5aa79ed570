// The recursive-descent parser, building items on the heap.

module CJsonParser {
  import opened Common
  import opened JsonText
  import opened JsonLiteral
  import opened CJson

  // ---------- Strings: measure, allocate, fill ----------------------------

  // What the first pass over a literal counts; None when it would step over
  // the terminator.
  function ScanLength(t: string): Option<nat> {
    if EndsString(t) then Some(0)
    else if t[0] != '\\' then OneMore(ScanLength(t[1..]))
    else if |t| == 1 then None
    else OneMore(ScanLength(t[2..]))
  }

  function OneMore(n: Option<nat>): Option<nat> { if n.Some? then Some(n.value + 1) else None }

  // (Where a method below does nothing to an item it takes as a ghost, the item
  // only serves to say that nothing is allocated.)
  method MeasureString(t: string, ghost item: Item) returns (len: Option<nat>)
    ensures len == ScanLength(t)
    ensures forall o: object {:trigger o in item.foot} :: fresh(o) ==> o in item.foot
  {
    var ptr, n := t, 0;
    while !EndsString(ptr)
      invariant ScanLength(t) == if ScanLength(ptr).Some? then Some(n + ScanLength(ptr).value) else None
      decreases |ptr|
    {
      n := n + 1;
      if ptr[0] == '\\' {
        if |ptr| == 1 { return None; }
        ptr := ptr[2..];
      } else {
        ptr := ptr[1..];
      }
    }
    return Some(n);
  }

  // Four hex digits are four ordinary characters for the first pass.
  lemma ScanHex(t: string)
    requires |t| >= 6 && t[0] == '\\' && forall c | c in t[2..6] :: IsHex(c)
    ensures ScanLength(t) == OneMore(OneMore(OneMore(OneMore(OneMore(ScanLength(t[6..]))))))
  {
    assert forall i | 2 <= i < 6 :: t[i] in t[2..6] by { assert forall i | 2 <= i < 6 :: t[i] == t[2..6][i - 2]; }
    ScanPlain(t[2..], t[3..]);
    ScanPlain(t[3..], t[4..]);
    ScanPlain(t[4..], t[5..]);
    ScanPlain(t[5..], t[6..]);
  }

  lemma ScanPlain(t: string, u: string)
    requires t != "" && IsHex(t[0]) && t[1..] == u
    ensures ScanLength(t) == OneMore(ScanLength(u))
  {
  }

  // The second pass: what it stores fits what the first pass counted.
  method FillString(t: string, out: array<char>, ghost item: Item) returns (r: Outcome<nat>)
    requires ScanLength(t).Some? && ScanLength(t).value < out.Length
    modifies out
    ensures match Unescape(t)
            case Done(v, rest) =>
              r == Done(|v|, rest) && |v| <= ScanLength(t).value && out[..|v|] == v && out[|v|] == '\0'
            case Reject => false
            case Undefined => r == Undefined
    ensures forall o: object {:trigger o in item.foot} :: fresh(o) ==> o in item.foot
  {
    hide Unescape, ScanLength, Utf8;
    var ptr := t;
    var k: nat := 0;
    assert out[..0] == "" && (Unescape(t).Done? ==> "" + Unescape(t).value == Unescape(t).value);
    while !EndsString(ptr)
      invariant ScanLength(ptr).Some? && k + ScanLength(ptr).value <= ScanLength(t).value
      invariant Unescape(t) == Prepend(out[..k], Unescape(ptr))
      invariant forall o: object {:trigger o in item.foot} :: fresh(o) ==> o in item.foot
      decreases |ptr|
    {
      ghost var done := out[..k];
      LiteralStep(ptr);
      if ptr[0] != '\\' {
        out[k] := ptr[0];
        StoredOne(done, out[..k + 1], [ptr[0]], Unescape(ptr[1..]));
        ptr, k := ptr[1..], k + 1;
      } else if ptr[1] != 'u' {
        out[k] := UnescapeChar(ptr[1]);
        StoredOne(done, out[..k + 1], [UnescapeChar(ptr[1])], Unescape(ptr[2..]));
        ptr, k := ptr[2..], k + 1;
      } else if |ptr| >= 6 && forall c | c in ptr[2..6] :: IsHex(c) {
        var bytes := Utf8(HexCode(ptr[2..6]));
        StoreBytes(out, k, bytes, item);
        StoredOne(done, out[..k + |bytes|], bytes, Unescape(ptr[6..]));
        ptr, k := ptr[6..], k + |bytes|;
      } else {
        return Undefined;
      }
    }
    LiteralEnd(ptr);
    out[k] := '\0';
    return Done(k, if ptr != "" && ptr[0] == '\"' then ptr[1..] else ptr);
  }

  // What the two passes do with the next character or escape.
  lemma LiteralStep(p: string)
    requires !EndsString(p) && ScanLength(p).Some?
    ensures p[0] != '\\' ==>
      Unescape(p) == Prepend([p[0]], Unescape(p[1..])) && ScanLength(p) == OneMore(ScanLength(p[1..]))
    ensures p[0] == '\\' ==> |p| > 1
    ensures p[0] == '\\' && p[1] != 'u' ==>
      Unescape(p) == Prepend([UnescapeChar(p[1])], Unescape(p[2..])) && ScanLength(p) == OneMore(ScanLength(p[2..]))
    ensures p[0] == '\\' && p[1] == 'u' ==>
      if |p| >= 6 && forall c | c in p[2..6] :: IsHex(c) then
        Unescape(p) == Prepend(Utf8(HexCode(p[2..6])), Unescape(p[6..])) && ScanLength(p[6..]).Some?
        && ScanLength(p).value == 5 + ScanLength(p[6..]).value
      else Unescape(p) == Undefined
  {
    if p[0] == '\\' && p[1] == 'u' && |p| >= 6 && forall c | c in p[2..6] :: IsHex(c) {
      ScanHex(p);
    }
  }

  lemma LiteralEnd(p: string)
    requires EndsString(p)
    ensures Unescape(p) == Done("", if p != "" && p[0] == '\"' then p[1..] else p) && ScanLength(p) == Some(0)
  {
  }

  lemma StoredOne(done: string, now: string, more: string, r: Outcome<string>)
    requires now == done + more
    ensures Prepend(done, Prepend(more, r)) == Prepend(now, r)
  {
    if r.Done? {
      assert done + (more + r.value) == now + r.value;
    }
  }

  // The bytes of one code point, written from the last to the first.
  method StoreBytes(out: array<char>, k: nat, bytes: string, ghost item: Item)
    requires 1 <= |bytes| <= 3 && k + |bytes| <= out.Length
    modifies out
    ensures out[..k + |bytes|] == old(out[..k]) + bytes
    ensures forall o: object {:trigger o in item.foot} :: fresh(o) ==> o in item.foot
  {
    var i := |bytes|;
    while i > 0
      invariant 0 <= i <= |bytes|
      invariant forall o: object {:trigger o in item.foot} :: fresh(o) ==> o in item.foot
      invariant out[..k] == old(out[..k])
      invariant forall j | i <= j < |bytes| :: out[k + j] == bytes[j]
    {
      i := i - 1;
      out[k + i] := bytes[i];
    }
  }

  lemma CutHolds(a: array<char>, s: string)
    requires |s| < a.Length && a[..|s|] == s && a[|s|] == '\0'
    ensures Holds(a, Cut(s))
  {
    CutSplits(s);
    var c := Cut(s);
    assert a[..|c|] == s[..|c|];
  }

  lemma {:induction false} CutSplits(s: string)
    ensures Cut(s) == s[..|Cut(s)|] && (|Cut(s)| < |s| ==> s[|Cut(s)|] == '\0')
  {
    if s != "" && s[0] != '\0' {
      CutSplits(s[1..]);
    }
  }

  method ParseString(item: Item, s: string) returns (r: Outcome<()>)
    requires item.Blank()
    modifies item`kind, item`valuestring, item`foot
    ensures match JsonText.ParseString(s)
            case Done(t, rest) =>
              && r == Done((), rest) && item.kind == KString && Holds(item.valuestring, t)
              && fresh(item.valuestring) && item.foot == old(item.foot) + {item.valuestring}
            case Reject => r == Reject && unchanged(item)
            case Undefined => r == Undefined && unchanged(item)
    ensures forall ps, rest | BeginsWith(s, ps, rest) ::
      && r == Done((), rest) && item.kind == KString && Holds(item.valuestring, Cut(Bytes(ps)))
      && ('\0' !in Bytes(ps) && NoSurrogates(ps) ==> exists b :: Denotes(ps, b) && Holds(item.valuestring, b))
    ensures !r.Undefined? ==> forall o: object {:trigger o in item.foot} :: fresh(o) ==> o in item.foot
  {
    WellFormedLiterals(s);
    if s == "" || s[0] != '\"' { return Reject; }
    var len := MeasureString(s[1..], item);
    if len == None {
      NotDone(s[1..]);
      return Undefined;
    }
    var out := new char[len.value + 1];
    var n := FillString(s[1..], out, item);
    if n.Undefined? { return Undefined; }
    CutHolds(out, out[..n.value]);
    item.valuestring := out;
    item.kind := KString;
    item.foot := item.foot + {out};
    return Done((), n.rest);
  }

  // What the grammar of string literals says about the text.
  lemma WellFormedLiterals(s: string)
    ensures forall ps, rest | BeginsWith(s, ps, rest) ::
      && JsonText.ParseString(s) == Done(Cut(Bytes(ps)), rest)
      && ('\0' !in Bytes(ps) && NoSurrogates(ps) ==> Denotes(ps, Bytes(ps)) && Cut(Bytes(ps)) == Bytes(ps))
  {
    forall ps, rest | BeginsWith(s, ps, rest)
      ensures JsonText.ParseString(s) == Done(Cut(Bytes(ps)), rest)
      ensures '\0' !in Bytes(ps) && NoSurrogates(ps) ==> Denotes(ps, Bytes(ps)) && Cut(Bytes(ps)) == Bytes(ps)
    {
      LiteralIsRead(s, ps, rest);
      NothingCut(Bytes(ps));
    }
  }

  // The second pass does not get through what the first does not.
  lemma {:induction false} NotDone(t: string)
    requires ScanLength(t) == None
    ensures Unescape(t) == Undefined
  {
    if t[0] != '\\' {
      NotDone(t[1..]);
    } else if |t| > 1 {
      if t[1] == 'u' && |t| >= 6 && forall c | c in t[2..6] :: IsHex(c) {
        ScanHex(t);
        NotDone(t[6..]);
      } else if t[1] != 'u' {
        NotDone(t[2..]);
      }
    }
  }

  // ---------- Numbers ------------------------------------------------------

  method ParseNumber(item: Item, s: string) returns (r: Outcome<()>)
    requires s != "" && (s[0] == '-' || IsDigit(s[0]))
    modifies item`kind, item`valueint
    ensures match JsonText.ParseNumber(s)
            case Done(v, rest) => r == Done((), rest) && item.kind == KNumber && item.valueint == v.n
            case Reject => false
            case Undefined => r == Undefined
    ensures forall o: object {:trigger o in item.foot} :: fresh(o) ==> o in item.foot
  {
    var num := s;
    var n: nat := 0;
    if num[0] == '-' { num := num[1..]; }
    if num != "" && num[0] == '0' { num := num[1..]; }
    if num != "" && '1' <= num[0] <= '9' {
      ghost var start := num;
      n, num := 10 * n + (num[0] as int - '0' as int), num[1..];
      while num != "" && IsDigit(num[0])
        invariant ReadDigits(0, start) == ReadDigits(n, num)
        decreases |num|
      {
        n, num := 10 * n + (num[0] as int - '0' as int), num[1..];
      }
    }
    if num != "" && num[0] in ".eE" { return Undefined; }
    var m := Negate(s[0] == '-', n);
    if !(INT_MIN <= m <= INT_MAX) { return Undefined; }
    item.valueint := m;
    item.kind := KNumber;
    return Done((), num);
  }

  // ---------- Children -----------------------------------------------------

  ghost predicate IsMember(x: Item, m: Member, named: bool)
    reads x, x.foot
  {
    x.Owns() && x.Denotes(m.value) && (named ==> x.name in x.foot && Holds(x.name, m.name))
  }

  // The items denote the given members, names included when `named`.
  ghost predicate Children(xs: seq<Item>, ms: seq<Member>, named: bool)
    requires |xs| == |ms|
    reads xs, set x, o | x in xs && o in x.foot :: o
  {
    forall i :: 0 <= i < |xs| ==> IsMember(xs[i], ms[i], named)
  }

  ghost function Unnamed(items: seq<Json>): seq<Member> {
    seq(|items|, i requires 0 <= i < |items| => Member("", items[i]))
  }

  // Items of which only the links have changed denote what they denoted.
  twostate lemma StillChildren(xs: seq<Item>)
    requires LinksOnly(xs)
    ensures forall ms, named | |xs| == |ms| && old(Children(xs, ms, named)) :: Children(xs, ms, named)
  {
    forall ms, named | |xs| == |ms| && old(Children(xs, ms, named))
      ensures Children(xs, ms, named)
    {
      forall i | 0 <= i < |xs|
        ensures IsMember(xs[i], ms[i], named)
      {
        hide Item.Owns, Item.Denotes, Holds;
        assert old(IsMember(xs[i], ms[i], named));
        assert LinkOnly(xs[i]);
      }
    }
  }

  twostate lemma Untouched(xs: seq<Item>)
    requires forall i | 0 <= i < |xs| :: unchanged(xs[i]) && forall o | o in xs[i].foot :: unchanged(o)
    ensures LinksOnly(xs)
  {
  }

  // Allocate a node and hang it behind `last`, the last child so far.  It is
  // not among the `kids` before it has been parsed.
  method NewChild(item: Item, last: Item?, ghost ms: seq<Member>, ghost named: bool) returns (c: Item)
    requires item.Owns() && !item.isReference && last == LastKid(item)
    requires |item.kids| == |ms| && Children(item.kids, ms, named)
    modifies item`child, item.kids`next
    ensures fresh(c) && c.Blank() && c.name == null && c.foot == {c}
    ensures item.Awaits(c) && Children(item.kids, ms, named)
    ensures forall o: object {:trigger o in c.foot} :: fresh(o) ==> o in c.foot
  {
    hide Item.Owns, Linked, Feet, Apart, AllOwn, Children, LinkOnly;
    item.Parts();
    item.ListParts();
    c := new Item();
    c.BlankOwns();
    label before:
    item.HangBehind(last, c);
    StillChildren@before(item.kids);
  }

  ghost function LastKid(item: Item): Item?
    reads item`kids
  {
    if item.kids == [] then null else item.kids[|item.kids| - 1]
  }

  // What the parse of `s` into `item` came to is what the text says.
  ghost predicate Agrees(item: Item, r: Outcome<()>, spec: Outcome<Json>)
    requires item.Owns()
    reads item, item.foot
  {
    match spec
    case Done(v, rest) => r == Done((), rest) && item.Denotes(v)
    case Reject => r == Reject
    case Undefined => r == Undefined
  }

  method SkipBlanks(s: string, ghost item: Item) returns (r: Option<string>)
    ensures r == Skip(s)
    ensures forall o: object {:trigger o in item.foot} :: fresh(o) ==> o in item.foot
  {
    var p := s;
    while p != "" && p[0] <= ' '
      invariant Skip(p) == Skip(s)
      decreases |p|
    {
      p := p[1..];
    }
    r := if p == "" then None else Some(p);
  }

  method ParseValue(item: Item, s: string) returns (r: Outcome<()>)
    requires item.Blank()
    modifies item`kind, item`child, item`valuestring, item`valueint, item`kids, item`foot
    ensures item.Owns() && old(item.foot) <= item.foot && fresh(item.foot - old(item.foot))
    ensures Agrees(item, r, JsonText.ParseValue(s))
    ensures !r.Undefined? ==> forall o: object {:trigger o in item.foot} :: fresh(o) ==> o in item.foot
    decreases |s|, 1
  {
    hide ParseItems, ParseMembers, JsonText.ParseString, JsonText.ParseNumber;
    item.BlankOwns();
    if HasPrefix(s, "null") {
      item.kind := KNull;
      return Done((), s[4..]);
    }
    if HasPrefix(s, "false") {
      item.kind := KFalse;
      return Done((), s[5..]);
    }
    if HasPrefix(s, "true") {
      item.kind, item.valueint := KTrue, 1;
      return Done((), s[4..]);
    }
    if s != "" && s[0] == '\"' {
      r := ParseString(item, s);
    } else if s != "" && (s[0] == '-' || IsDigit(s[0])) {
      r := ParseNumber(item, s);
    } else if s != "" && s[0] == '[' {
      r := ParseArray(item, s);
    } else if s != "" && s[0] == '{' {
      r := ParseObject(item, s);
    } else {
      r := Reject;
    }
  }

  // Hang a new node behind `last` and parse one item into it.
  method ParseItem(item: Item, last: Item?, s: string, ghost ms: seq<Member>) returns (c: Item, r: Outcome<()>)
    requires item.Owns() && !item.isReference && last == LastKid(item)
    requires |item.kids| == |ms| && Children(item.kids, ms, false)
    modifies item`child, item`kids, item`foot, item.kids`next
    ensures item.Owns() && item.kids == old(item.kids) + [c] && c.Owns() && fresh(c)
    ensures old(item.foot) <= item.foot && fresh(item.foot - old(item.foot))
    ensures Children(old(item.kids), ms, false)
    ensures Agrees(c, r, ParseOne(s))
    ensures !r.Undefined? ==> forall o: object {:trigger o in item.foot} :: fresh(o) ==> o in item.foot
    decreases |s|, 4
  {
    hide *;
    c := NewChild(item, last, ms, false);
    c.BlankOwns();
    label hung:
    r := ParseBetweenBlanks(c, s);
    Untouched@hung(item.kids);
    StillChildren@hung(item.kids);
    item.Adopt(c);
    item.Parts();
    Untouched@hung(old(item.kids));
    StillChildren@hung(old(item.kids));
  }

  method ParseBetweenBlanks(c: Item, s: string) returns (r: Outcome<()>)
    requires c.Blank()
    modifies c`kind, c`child, c`valuestring, c`valueint, c`kids, c`foot
    ensures c.Owns() && old(c.foot) <= c.foot && fresh(c.foot - old(c.foot))
    ensures Agrees(c, r, ParseOne(s))
    ensures !r.Undefined? ==> forall o: object {:trigger o in c.foot} :: fresh(o) ==> o in c.foot
    decreases |s|, 3
  {
    hide Item.Owns, Item.Denotes, ParseTrimmed;
    c.BlankOwns();
    var t := SkipBlanks(s, c);
    if t == None { return Undefined; }
    r := ParseThenBlanks(c, t.value);
  }

  method ParseThenBlanks(c: Item, s: string) returns (r: Outcome<()>)
    requires c.Blank()
    modifies c`kind, c`child, c`valuestring, c`valueint, c`kids, c`foot
    ensures c.Owns() && old(c.foot) <= c.foot && fresh(c.foot - old(c.foot))
    ensures Agrees(c, r, ParseTrimmed(s))
    ensures !r.Undefined? ==> forall o: object {:trigger o in c.foot} :: fresh(o) ==> o in c.foot
    decreases |s|, 2
  {
    hide Item.Owns, Item.Denotes, JsonText.ParseValue;
    r := ParseValue(c, s);
    if r.Done? {
      var u := SkipBlanks(r.rest, c);
      r := if u == None then Undefined else Done((), u.value);
    }
  }

  method ParseArray(item: Item, s: string) returns (r: Outcome<()>)
    requires item.Blank() && s != "" && s[0] == '['
    modifies item`kind, item`child, item`kids, item`foot
    ensures item.Owns() && old(item.foot) <= item.foot && fresh(item.foot - old(item.foot))
    ensures Agrees(item, r, JsonText.ParseValue(s))
    ensures !r.Undefined? ==> forall o: object {:trigger o in item.foot} :: fresh(o) ==> o in item.foot
    decreases |s|, 0
  {
    hide Item.Owns, Item.Denotes, Children, ParseItems, ParseOne, LastKid, ItemsAfter;
    ArrayText(s);
    item.kind := KArray;
    item.BlankOwns();
    var v := SkipBlanks(s[1..], item);
    if v == None { return Undefined; }
    var t := v.value;
    if t[0] == ']' {
      NoChildren(item);
      DenotesArray(item, []);
      return Done((), t[1..]);
    }
    r := ParseElements(item, t);
  }

  method ParseElements(item: Item, s: string) returns (r: Outcome<()>)
    requires item.Owns() && !item.isReference && item.kind == KArray && item.kids == []
    modifies item`child, item`kids, item`foot
    ensures item.Owns() && old(item.foot) <= item.foot && fresh(item.foot - old(item.foot))
    ensures match ParseItems(s)
            case Done(items, rest) => r == Done((), rest) && item.Denotes(Array(items))
            case Reject => r == Reject
            case Undefined => r == Undefined
    ensures !r.Undefined? ==> forall o: object {:trigger o in item.foot} :: fresh(o) ==> o in item.foot
    decreases |s|, 5
  {
    hide Item.Owns, Item.Denotes, Children, ParseItems, ParseOne, LastKid, ItemsAfter;
    NoChildren(item);
    ghost var vs: seq<Json> := [];
    var child: Item;
    child, r := ParseItem(item, null, s, Unnamed(vs));
    if !r.Done? {
      FirstItem(s);
      return;
    }
    FirstItem(s);
    vs := Extend(item, child, r, vs, s);
    assert vs == [ParseOne(s).value];
    var t := r.rest;
    while t[0] == ','
      invariant t != "" && |t| < |s|
      invariant item.Owns() && item.kids != [] && child == item.kids[|item.kids| - 1]
      invariant |item.kids| == |vs| && Children(item.kids, Unnamed(vs), false)
      invariant ParseItems(s) == ItemsAfter(vs, t)
      invariant old(item.foot) <= item.foot && fresh(item.foot - old(item.foot)) && fresh(item.kids)
      invariant forall o: object {:trigger o in item.foot} :: fresh(o) ==> o in item.foot
      decreases |t|
    {
      LastIs(item, child);
      child, r := ParseItem(item, child, t[1..], Unnamed(vs));
      NextItem(vs, t);
      if !r.Done? { return; }
      vs := Extend(item, child, r, vs, t[1..]);
      t := r.rest;
    }
    LastText(vs, t);
    if t[0] != ']' { return Reject; }
    DenotesArray(item, vs);
    return Done((), t[1..]);
  }

  lemma NoChildren(item: Item)
    requires item.kids == []
    ensures LastKid(item) == null && |item.kids| == |Unnamed([])| && Children(item.kids, Unnamed([]), false)
  {
  }

  lemma LastIs(item: Item, child: Item)
    requires item.kids != [] && child == item.kids[|item.kids| - 1]
    ensures LastKid(item) == child
  {
  }

  // The value just parsed joins the values so far.
  lemma Extend(item: Item, c: Item, r: Outcome<()>, vs: seq<Json>, s: string) returns (vs': seq<Json>)
    requires |item.kids| == |vs| + 1 && c == item.kids[|vs|] && c.Owns() && item.Owns()
    requires Children(item.kids[..|vs|], Unnamed(vs), false)
    requires r.Done? && Agrees(c, r, ParseOne(s))
    ensures ParseOne(s).Done? && vs' == vs + [ParseOne(s).value]
    ensures Children(item.kids, Unnamed(vs'), false)
  {
    hide Item.Owns, Item.Denotes;
    vs' := vs + [ParseOne(s).value];
    forall i | 0 <= i < |item.kids|
      ensures IsMember(item.kids[i], Unnamed(vs')[i], false)
    {
      if i < |vs| {
        assert item.kids[..|vs|][i] == item.kids[i];
        assert IsMember(item.kids[..|vs|][i], Unnamed(vs)[i], false);
      }
    }
  }

  lemma DenotesArray(item: Item, vs: seq<Json>)
    requires item.Owns() && !item.isReference && item.kind == KArray
    requires |item.kids| == |vs| && Children(item.kids, Unnamed(vs), false)
    ensures item.Denotes(Array(vs))
  {
    hide Item.Owns;
    forall i | 0 <= i < |vs|
      ensures item.kids[i].Owns() && item.kids[i].Denotes(vs[i])
    {
      assert IsMember(item.kids[i], Unnamed(vs)[i], false);
    }
  }

  lemma ArrayText(s: string)
    requires s != "" && s[0] == '['
    ensures match Skip(s[1..])
            case None => JsonText.ParseValue(s) == Undefined
            case Some(t) =>
              if t[0] == ']' then JsonText.ParseValue(s) == Done(Array([]), t[1..])
              else match ParseItems(t)
                case Done(items, rest) => JsonText.ParseValue(s) == Done(Array(items), rest)
                case Reject => JsonText.ParseValue(s) == Reject
                case Undefined => JsonText.ParseValue(s) == Undefined
  {
    hide ParseItems;
    NotAWord(s);
  }

  lemma NotAWord(s: string)
    requires s != "" && s[0] in "[{"
    ensures !HasPrefix(s, "null") && !HasPrefix(s, "false") && !HasPrefix(s, "true")
  {
    assert |s| >= 4 ==> s[..4][0] == s[0];
    assert |s| >= 5 ==> s[..5][0] == s[0];
  }

  lemma FirstItem(s: string)
    ensures ParseOne(s).Done? ==> ParseItems(s) == ItemsAfter([ParseOne(s).value], ParseOne(s).rest)
    ensures ParseOne(s).Reject? ==> ParseItems(s) == Reject
    ensures ParseOne(s).Undefined? ==> ParseItems(s) == Undefined
  {
  }

  lemma NextItem(vs: seq<Json>, t: string)
    requires t != "" && t[0] == ','
    ensures var one := ParseOne(t[1..]);
      && (one.Done? ==> ItemsAfter(vs, t) == ItemsAfter(vs + [one.value], one.rest))
      && (one.Reject? ==> ItemsAfter(vs, t) == Reject)
      && (one.Undefined? ==> ItemsAfter(vs, t) == Undefined)
  {
    var first := ParseOne(t[1..]);
    FirstItem(t[1..]);
    if first.Done? && first.rest[0] == ',' && ParseItems(first.rest[1..]).Done? {
      var items := ParseItems(first.rest[1..]).value;
      assert vs + ([first.value] + items) == vs + [first.value] + items;
    }
  }

  lemma LastText(vs: seq<Json>, t: string)
    requires t != "" && t[0] != ','
    ensures ItemsAfter(vs, t) == if t[0] == ']' then Done(vs, t[1..]) else Reject
  {
  }

  // ---------- Objects -------------------------------------------------------

  ghost predicate AgreesMember(c: Item, r: Outcome<()>, spec: Outcome<Member>)
    reads c, c.foot
  {
    match spec
    case Done(m, rest) => r == Done((), rest) && IsMember(c, m, true)
    case Reject => r == Reject
    case Undefined => r == Undefined
  }

  // The name of a member goes through valuestring on its way to `name`.
  method ParseName(c: Item, s: string) returns (r: Outcome<()>)
    requires c.Blank() && c.name == null
    modifies c`kind, c`valuestring, c`foot, c`name
    ensures c.Blank() && old(c.foot) <= c.foot && fresh(c.foot - old(c.foot))
    ensures match JsonText.ParseName(s)
            case Done(name, rest) => r == Done((), rest) && Holds(c.name, name)
            case Reject => r == Reject
            case Undefined => r == Undefined
    ensures !r.Undefined? ==> forall o: object {:trigger o in c.foot} :: fresh(o) ==> o in c.foot
  {
    hide JsonText.ParseString;
    var t := SkipBlanks(s, c);
    if t == None { return Undefined; }
    r := ParseString(c, t.value);
    if !r.Done? { return; }
    c.name, c.valuestring := c.valuestring, null;
    var u := SkipBlanks(r.rest, c);
    if u == None { return Undefined; }
    if u.value[0] != ':' { return Reject; }
    var w := SkipBlanks(u.value[1..], c);
    if w == None { return Undefined; }
    return Done((), w.value);
  }

  method ParseNameAndValue(c: Item, s: string) returns (r: Outcome<()>)
    requires c.Blank() && c.name == null
    modifies c`kind, c`child, c`valuestring, c`valueint, c`kids, c`foot, c`name
    ensures c.Owns() && old(c.foot) <= c.foot && fresh(c.foot - old(c.foot))
    ensures AgreesMember(c, r, ParseMember(s))
    ensures !r.Undefined? ==> forall o: object {:trigger o in c.foot} :: fresh(o) ==> o in c.foot
    decreases |s|, 3
  {
    hide *;
    r := ParseName(c, s);
    c.BlankOwns();
    MemberText(s);
    if r.Done? {
      ghost var name := JsonText.ParseName(s).value;
      r := ParseThenBlanks(c, r.rest);
      c.Parts();
      NameKept(c, name, r, s);
    } else {
      MemberFails(c, r, ParseMember(s));
    }
  }

  lemma MemberText(s: string)
    ensures JsonText.ParseName(s).Reject? ==> ParseMember(s) == Reject
    ensures JsonText.ParseName(s).Undefined? ==> ParseMember(s) == Undefined
  {
  }

  lemma MemberFails(c: Item, r: Outcome<()>, spec: Outcome<Member>)
    requires if r.Reject? then spec.Reject? else r.Undefined? && spec.Undefined?
    ensures AgreesMember(c, r, spec)
  {
  }

  lemma NameKept(c: Item, name: string, r: Outcome<()>, s: string)
    requires c.Owns() && Holds(c.name, name) && JsonText.ParseName(s).Done? && JsonText.ParseName(s).value == name
    requires Agrees(c, r, ParseTrimmed(JsonText.ParseName(s).rest))
    ensures AgreesMember(c, r, ParseMember(s))
  {
    hide JsonText.ParseName, ParseTrimmed, Item.Denotes, Item.Owns;
    c.OwnsName();
  }

  // Hang a new node behind `last` and parse one member into it.
  method ParseNext(item: Item, last: Item?, s: string, ghost ms: seq<Member>) returns (c: Item, r: Outcome<()>)
    requires item.Owns() && !item.isReference && last == LastKid(item)
    requires |item.kids| == |ms| && Children(item.kids, ms, true)
    modifies item`child, item`kids, item`foot, item.kids`next
    ensures item.Owns() && item.kids == old(item.kids) + [c] && c.Owns() && fresh(c)
    ensures old(item.foot) <= item.foot && fresh(item.foot - old(item.foot))
    ensures Children(old(item.kids), ms, true)
    ensures AgreesMember(c, r, ParseMember(s))
    ensures !r.Undefined? ==> forall o: object {:trigger o in item.foot} :: fresh(o) ==> o in item.foot
    decreases |s|, 4
  {
    hide *;
    c := NewChild(item, last, ms, true);
    c.BlankOwns();
    label hung:
    r := ParseNameAndValue(c, s);
    Untouched@hung(item.kids);
    StillChildren@hung(item.kids);
    item.Adopt(c);
    item.Parts();
    Untouched@hung(old(item.kids));
    StillChildren@hung(old(item.kids));
  }

  method ParseObject(item: Item, s: string) returns (r: Outcome<()>)
    requires item.Blank() && s != "" && s[0] == '{'
    modifies item`kind, item`child, item`kids, item`foot
    ensures item.Owns() && old(item.foot) <= item.foot && fresh(item.foot - old(item.foot))
    ensures Agrees(item, r, JsonText.ParseValue(s))
    ensures !r.Undefined? ==> forall o: object {:trigger o in item.foot} :: fresh(o) ==> o in item.foot
    decreases |s|, 0
  {
    hide Item.Owns, Item.Denotes, Children, ParseMembers, ParseMember, LastKid, MembersAfter;
    ObjectText(s);
    item.kind := KObject;
    item.BlankOwns();
    var v := SkipBlanks(s[1..], item);
    if v == None { return Undefined; }
    var t := v.value;
    if t[0] == '}' {
      NoMembers(item);
      DenotesObject(item, []);
      return Done((), t[1..]);
    }
    r := ParseList(item, t);
  }

  method ParseList(item: Item, s: string) returns (r: Outcome<()>)
    requires item.Owns() && !item.isReference && item.kind == KObject && item.kids == []
    modifies item`child, item`kids, item`foot
    ensures item.Owns() && old(item.foot) <= item.foot && fresh(item.foot - old(item.foot))
    ensures match ParseMembers(s)
            case Done(members, rest) => r == Done((), rest) && item.Denotes(Object(members))
            case Reject => r == Reject
            case Undefined => r == Undefined
    ensures !r.Undefined? ==> forall o: object {:trigger o in item.foot} :: fresh(o) ==> o in item.foot
    decreases |s|, 5
  {
    hide Item.Owns, Item.Denotes, Children, ParseMembers, ParseMember, LastKid, MembersAfter;
    NoMembers(item);
    ghost var ms: seq<Member> := [];
    var child: Item;
    child, r := ParseNext(item, null, s, ms);
    FirstMember(s);
    if !r.Done? { return; }
    ms := ExtendMembers(item, child, r, ms, s);
    assert ms == [ParseMember(s).value];
    var t := r.rest;
    while t[0] == ','
      invariant t != "" && |t| < |s|
      invariant item.Owns() && item.kids != [] && child == item.kids[|item.kids| - 1]
      invariant |item.kids| == |ms| && Children(item.kids, ms, true)
      invariant ParseMembers(s) == MembersAfter(ms, t)
      invariant old(item.foot) <= item.foot && fresh(item.foot - old(item.foot)) && fresh(item.kids)
      invariant forall o: object {:trigger o in item.foot} :: fresh(o) ==> o in item.foot
      decreases |t|
    {
      LastIs(item, child);
      child, r := ParseNext(item, child, t[1..], ms);
      NextMember(ms, t);
      if !r.Done? { return; }
      ms := ExtendMembers(item, child, r, ms, t[1..]);
      t := r.rest;
    }
    LastBrace(ms, t);
    if t[0] != '}' { return Reject; }
    DenotesObject(item, ms);
    return Done((), t[1..]);
  }

  lemma NoMembers(item: Item)
    requires item.kids == []
    ensures LastKid(item) == null && Children(item.kids, [], true)
  {
  }

  lemma ExtendMembers(item: Item, c: Item, r: Outcome<()>, ms: seq<Member>, s: string) returns (ms': seq<Member>)
    requires |item.kids| == |ms| + 1 && c == item.kids[|ms|]
    requires Children(item.kids[..|ms|], ms, true)
    requires r.Done? && AgreesMember(c, r, ParseMember(s))
    ensures ParseMember(s).Done? && ms' == ms + [ParseMember(s).value]
    ensures Children(item.kids, ms', true)
  {
    hide IsMember;
    ms' := ms + [ParseMember(s).value];
    forall i | 0 <= i < |item.kids|
      ensures IsMember(item.kids[i], ms'[i], true)
    {
      if i < |ms| {
        assert item.kids[..|ms|][i] == item.kids[i];
        assert IsMember(item.kids[..|ms|][i], ms[i], true);
      }
    }
  }

  lemma DenotesObject(item: Item, ms: seq<Member>)
    requires item.Owns() && !item.isReference && item.kind == KObject
    requires |item.kids| == |ms| && Children(item.kids, ms, true)
    ensures item.Denotes(Object(ms))
  {
    hide Item.Owns, Holds;
    forall i | 0 <= i < |ms|
      ensures item.kids[i].Owns() && item.kids[i].Denotes(ms[i].value) && Holds(item.kids[i].name, ms[i].name)
    {
      assert IsMember(item.kids[i], ms[i], true);
    }
  }

  lemma ObjectText(s: string)
    requires s != "" && s[0] == '{'
    ensures match Skip(s[1..])
            case None => JsonText.ParseValue(s) == Undefined
            case Some(t) =>
              if t[0] == '}' then JsonText.ParseValue(s) == Done(Object([]), t[1..])
              else match ParseMembers(t)
                case Done(members, rest) => JsonText.ParseValue(s) == Done(Object(members), rest)
                case Reject => JsonText.ParseValue(s) == Reject
                case Undefined => JsonText.ParseValue(s) == Undefined
  {
    hide ParseMembers;
    NotAWord(s);
  }

  lemma FirstMember(s: string)
    ensures ParseMember(s).Done? ==> ParseMembers(s) == MembersAfter([ParseMember(s).value], ParseMember(s).rest)
    ensures ParseMember(s).Reject? ==> ParseMembers(s) == Reject
    ensures ParseMember(s).Undefined? ==> ParseMembers(s) == Undefined
  {
  }

  lemma NextMember(ms: seq<Member>, t: string)
    requires t != "" && t[0] == ','
    ensures var one := ParseMember(t[1..]);
      && (one.Done? ==> MembersAfter(ms, t) == MembersAfter(ms + [one.value], one.rest))
      && (one.Reject? ==> MembersAfter(ms, t) == Reject)
      && (one.Undefined? ==> MembersAfter(ms, t) == Undefined)
  {
    var first := ParseMember(t[1..]);
    FirstMember(t[1..]);
    if first.Done? && first.rest[0] == ',' && ParseMembers(first.rest[1..]).Done? {
      var members := ParseMembers(first.rest[1..]).value;
      assert ms + ([first.value] + members) == ms + [first.value] + members;
    }
  }

  lemma LastBrace(ms: seq<Member>, t: string)
    requires t != "" && t[0] != ','
    ensures MembersAfter(ms, t) == if t[0] == '}' then Done(ms, t[1..]) else Reject
  {
  }

  // ---------- The entry point -----------------------------------------------

  // cJSON_Parse: the item for the text, or null after deleting all that was
  // built; `stray` reports that the text led out of the defined range.
  method Parse(text: string, heap: Heap) returns (item: Item?, stray: bool)
    modifies heap
    ensures match JsonText.Parse(text)
            case Done(v, rest) =>
              && !stray && item != null && item.Owns() && item.Denotes(v) && fresh(item.foot)
              && heap.freed == old(heap.freed)
            case Reject => !stray && item == null && fresh(heap.freed - old(heap.freed)) && old(heap.freed) <= heap.freed
            case Undefined => stray
    ensures JsonText.Parse(text).Done? ==> forall o: object {:trigger o in item.foot} :: fresh(o) ==> o in item.foot
    ensures JsonText.Parse(text).Reject? ==> forall o: object {:trigger o in heap.freed} :: fresh(o) ==> o in heap.freed
  {
    hide Item.Owns, Item.Denotes, JsonText.ParseValue;
    var c := new Item();
    item, stray := c, false;
    var s := SkipBlanks(text, c);
    if s == None { return item, true; }
    var r := ParseValue(c, s.value);
    if r.Undefined? { return item, true; }
    if r.Reject? {
      SingleList(c);
      Delete(c, [c], heap);
      item := null;
    }
  }
}
