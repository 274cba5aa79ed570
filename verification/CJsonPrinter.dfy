// The printer: text buffers are sized first and filled afterwards.  Every
// write below is checked against the size computed before the allocation.

module CJsonPrinter {
  import opened Common
  import opened JsonText
  import opened CJson
  import CJsonParser
  import JsonRoundTrip

  // ---------- Printed text has no terminator inside -----------------------

  lemma {:induction false} EscapeHasNoTerminator(s: string)
    ensures '\0' !in Escape(s)
  {
    if s != "" {
      EscapeHasNoTerminator(s[1..]);
      assert '\0' !in EscapeChar(s[0]);
    }
  }

  lemma {:induction false} DigitsHaveNoTerminator(n: nat)
    ensures '\0' !in Digits(n)
    decreases n
  {
    if n >= 10 {
      DigitsHaveNoTerminator(n / 10);
    }
  }

  lemma {:induction false} PrintHasNoTerminator(v: Json, depth: nat, fmt: bool)
    ensures '\0' !in JsonText.PrintValue(v, depth, fmt)
    decreases v, 0
  {
    match v
    case Number(n) => DigitsHaveNoTerminator(if n < 0 then -n else n);
    case String(s) => EscapeHasNoTerminator(s);
    case Array(items) => ItemsHaveNoTerminator(items, depth + 1, fmt);
    case Object(members) => MembersHaveNoTerminator(members, depth + 1, fmt);
    case _ =>
  }

  lemma {:induction false} ItemsHaveNoTerminator(items: seq<Json>, depth: nat, fmt: bool)
    ensures '\0' !in PrintItems(items, depth, fmt)
    decreases items, 1
  {
    if items != [] {
      PrintHasNoTerminator(items[0], depth, fmt);
      ItemsHaveNoTerminator(items[1..], depth, fmt);
    }
  }

  lemma {:induction false} MembersHaveNoTerminator(members: seq<Member>, depth: nat, fmt: bool)
    ensures '\0' !in PrintMembers(members, depth, fmt)
    decreases members, 1
  {
    if members != [] {
      EscapeHasNoTerminator(members[0].name);
      PrintHasNoTerminator(members[0].value, depth, fmt);
      MembersHaveNoTerminator(members[1..], depth, fmt);
    }
  }

  // ---------- Writing into a buffer ----------------------------------------

  lemma HoldsAt(a: array<char>, t: string)
    requires Holds(a, t)
    ensures forall i | 0 <= i < |t| :: a[i] == t[i] && a[i] != '\0'
  {
    assert forall i | 0 <= i < |t| :: a[..|t|][i] == t[i];
  }

  method StrLen(a: array<char>, ghost t: string) returns (n: nat)
    requires Holds(a, t)
    ensures n == |t|
  {
    HoldsAt(a, t);
    n := 0;
    while a[n] != '\0'
      invariant n <= |t|
      decreases |t| - n
    {
      n := n + 1;
    }
  }

  // strcpy: the text and its terminator.
  method StrCpy(out: array<char>, k: nat, src: array<char>, ghost t: string) returns (end: nat)
    requires Holds(src, t) && src != out && k + |t| < out.Length
    modifies out
    ensures end == k + |t| && out[..end] == old(out[..k]) + t
  {
    HoldsAt(src, t);
    end := k;
    ghost var i := 0;
    while src[end - k] != '\0'
      invariant i <= |t| && end == k + i
      invariant out[..end] == old(out[..k]) + t[..i]
      decreases |t| - i
    {
      out[end] := src[end - k];
      end, i := end + 1, i + 1;
    }
    assert t[..i] == t;
    out[end] := '\0';
  }

  // *ptr++ = c
  method Put(out: array<char>, k: nat, c: char) returns (end: nat)
    requires k < out.Length
    modifies out
    ensures end == k + 1 && out[..end] == old(out[..k]) + [c]
  {
    out[k] := c;
    end := k + 1;
  }

  method PutTabs(out: array<char>, k: nat, n: nat) returns (end: nat)
    requires k + n <= out.Length
    modifies out
    ensures end == k + n && out[..end] == old(out[..k]) + Tabs(n)
  {
    end := k;
    var j := 0;
    while j < n
      invariant j <= n && end == k + j && out[..end] == old(out[..k]) + Tabs(j)
    {
      end := Put(out, end, '\t');
      j := j + 1;
      assert Tabs(j) == Tabs(j - 1) + ['\t'];
    }
  }

  // A copy of a literal, for cJSON_strdup and sprintf.
  method StrDup(t: string, size: nat) returns (out: array<char>)
    requires '\0' !in t && |t| < size
    ensures fresh(out) && out.Length == size && Holds(out, t)
  {
    out := new char[size];
    var i := 0;
    while i < |t|
      invariant i <= |t| && out[..i] == t[..i]
    {
      out[i] := t[i];
      i := i + 1;
    }
    out[i] := '\0';
    assert out[..|t|] == t;
  }

  // ---------- Strings --------------------------------------------------------

  predicate NeedsTwo(c: char) { c <= 31 as char || c == '\"' || c == '\\' }

  // What the first pass over a string counts.
  function Counted(s: string): nat {
    if s == "" then 0 else (if NeedsTwo(s[0]) then 2 else 1) + Counted(s[1..])
  }

  method CountString(str: array<char>, ghost s: string) returns (len: nat)
    requires Holds(str, s)
    ensures len == Counted(s)
  {
    HoldsAt(str, s);
    var p := 0;
    len := 0;
    while str[p] != '\0'
      invariant p <= |s| && len + Counted(s[p..]) == Counted(s)
      decreases |s| - p
    {
      len := len + 1;
      if str[p] <= 31 as char || str[p] == '\"' || str[p] == '\\' { len := len + 1; }
      p := p + 1;
    }
    assert s[p..] == "";
  }

  method PrintStringPtr(str: array?<char>, ghost s: string) returns (out: array<char>)
    requires str != null ==> Holds(str, s)
    ensures fresh(out)
    ensures str == null ==> Holds(out, "")
    ensures str != null ==> Holds(out, PrintString(s)) && out.Length == Counted(s) + 3
  {
    if str == null {
      out := StrDup("", 1);
      return;
    }
    var len := CountString(str, s);
    HoldsAt(str, s);
    out := new char[len + 3];
    var p := 0;
    out[0] := '\"';
    var k: nat := 1;
    while str[p] != '\0'
      invariant p <= |s| && k + Counted(s[p..]) + 2 <= out.Length
      invariant out[..k] + Escape(s[p..]) == "\"" + Escape(s)
      decreases |s| - p
    {
      assert s[p..][1..] == s[p + 1..];
      ghost var before := out[..k];
      k := PutEscaped(out, k, str[p]);
      Shift(before, EscapeChar(s[p]), Escape(s[p + 1..]));
      p := p + 1;
    }
    assert s[p..] == "" && out[..k] == "\"" + Escape(s);
    k := Put(out, k, '\"');
    EscapeHasNoTerminator(s);
    out[k] := '\0';
    assert out[..k] == PrintString(s);
  }

  // One turn of the filling loop.  A dropped character takes its backslash back.
  method PutEscaped(out: array<char>, k: nat, c: char) returns (end: nat)
    requires k + (if NeedsTwo(c) then 2 else 1) <= out.Length
    modifies out
    ensures end == k + |EscapeChar(c)| && |EscapeChar(c)| <= (if NeedsTwo(c) then 2 else 1)
    ensures out[..end] == old(out[..k]) + EscapeChar(c)
  {
    end := k;
    if c > 31 as char && c != '\"' && c != '\\' {
      end := Put(out, end, c);
    } else {
      end := Put(out, end, '\\');
      var e := EscapeLetter(c);
      if e == '\0' {
        end := end - 1;
        assert out[..end] == out[..end + 1][..end];
      } else {
        end := Put(out, end, e);
      }
    }
  }

  // The letter of an escape; '\0' for the characters that are dropped.
  function EscapeLetter(c: char): (e: char)
    requires NeedsTwo(c)
    ensures EscapeChar(c) == if e == '\0' then "" else ['\\', e]
  {
    match c
    case '\\' => '\\'
    case '\"' => '\"'
    case '\U{8}' => 'b'
    case '\U{c}' => 'f'
    case '\n' => 'n'
    case '\r' => 'r'
    case '\t' => 't'
    case _ => '\0'
  }

  lemma Shift(a: string, b: string, c: string)
    ensures a + (b + c) == (a + b) + c
  {
  }

  // ---------- Numbers ----------------------------------------------------------

  lemma {:induction false} DigitsFit(n: nat, k: nat)
    requires k > 0 && n < Pow10(k)
    ensures |Digits(n)| <= k
    decreases n
  {
    if n >= 10 {
      assert k > 1 by { assert Pow10(1) == 10 * Pow10(0); }
      assert Pow10(k) == 10 * Pow10(k - 1);
      DigitsFit(n / 10, k - 1);
    }
  }

  // The 21 bytes are enough for every int.
  method PrintNumber(item: Item) returns (out: array<char>)
    requires INT_MIN <= item.valueint <= INT_MAX
    ensures fresh(out) && out.Length == 21 && Holds(out, JsonText.PrintNumber(item.valueint))
  {
    var n := item.valueint;
    ghost var a: nat := if n < 0 then -n else n;
    assert Pow10(10) == 10 * Pow10(9) == 100 * Pow10(8) == 1000 * Pow10(7) == 10000 * Pow10(6);
    assert Pow10(6) == 10 * Pow10(5) == 100 * Pow10(4) == 1000 * Pow10(3) == 10000 * Pow10(2);
    assert Pow10(2) == 10 * Pow10(1) == 100 * Pow10(0);
    DigitsFit(a, 10);
    DigitsHaveNoTerminator(a);
    out := StrDup(JsonText.PrintNumber(n), 21);
  }

  // ---------- What an item shows -------------------------------------------------

  // Following the `child` and `next` links from an item, the printer sees the
  // value v.  It does not matter who owns what it sees: references share their
  // children and strings with other items.  All of it lies in `world`.
  ghost predicate Shows(x: Item, v: Json, world: set<object>)
    reads world
    decreases v, 0
  {
    && x in world
    && match v
       case Null => x.kind == KNull
       case False => x.kind == KFalse
       case True => x.kind == KTrue
       case Number(n) => x.kind == KNumber && x.valueint == n
       case String(s) => x.kind == KString && x.valuestring in world && Holds(x.valuestring, s)
       case Array(items) => x.kind == KArray && ItemsShow(x.child, items, world)
       case Object(members) => x.kind == KObject && MembersShow(x.child, members, world)
  }

  ghost predicate ItemsShow(head: Item?, items: seq<Json>, world: set<object>)
    reads world
    decreases items, 1
  {
    if items == [] then head == null
    else head != null && Shows(head, items[0], world) && ItemsShow(head.next, items[1..], world)
  }

  ghost predicate MembersShow(head: Item?, members: seq<Member>, world: set<object>)
    reads world
    decreases members, 1
  {
    if members == [] then head == null
    else
      && head != null && Shows(head, members[0].value, world)
      && head.name in world && Holds(head.name, members[0].name)
      && MembersShow(head.next, members[1..], world)
  }

  lemma OneItem(child: Item, items: seq<Json>, i: nat, world: set<object>)
    requires i <= |items| && ItemsShow(child, items[i..], world)
    ensures i < |items| && Shows(child, items[i], world) && ItemsShow(child.next, items[i + 1..], world)
  {
    hide Shows;
    assert i < |items| ==> items[i..][0] == items[i] && items[i..][1..] == items[i + 1..];
  }

  lemma NoItem(items: seq<Json>, i: nat, world: set<object>)
    requires i <= |items| && ItemsShow(null, items[i..], world)
    ensures i == |items|
  {
    hide Shows;
  }

  lemma OneMember(child: Item, members: seq<Member>, i: nat, world: set<object>)
    requires i <= |members| && MembersShow(child, members[i..], world)
    ensures i < |members| && Shows(child, members[i].value, world) && Holds(child.name, members[i].name)
    ensures MembersShow(child.next, members[i + 1..], world)
  {
    hide Shows, Holds;
    assert i < |members| ==> members[i..][0] == members[i] && members[i..][1..] == members[i + 1..];
  }

  lemma NoMember(members: seq<Member>, i: nat, world: set<object>)
    requires i <= |members| && MembersShow(null, members[i..], world)
    ensures i == |members|
  {
    hide Shows, Holds;
  }

  method CountItems(head: Item?, ghost items: seq<Json>, ghost world: set<object>) returns (n: nat)
    requires ItemsShow(head, items, world)
    ensures n == |items|
  {
    hide ItemsShow, Shows;
    n := 0;
    var child := head;
    assert items[0..] == items;
    while child != null
      invariant n <= |items| && ItemsShow(child, items[n..], world)
      decreases |items| - n
    {
      OneItem(child, items, n, world);
      n, child := n + 1, child.next;
    }
    NoItem(items, n, world);
  }

  method CountMembers(head: Item?, ghost members: seq<Member>, ghost world: set<object>) returns (n: nat)
    requires MembersShow(head, members, world)
    ensures n == |members|
  {
    hide MembersShow, Shows;
    n := 0;
    var child := head;
    assert members[0..] == members;
    while child != null
      invariant n <= |members| && MembersShow(child, members[n..], world)
      decreases |members| - n
    {
      OneMember(child, members, n, world);
      n, child := n + 1, child.next;
    }
    NoMember(members, n, world);
  }

  // An item that owns a tree shows it.
  lemma {:induction false} OwnedShows(x: Item, v: Json)
    requires x.Owns() && x.Denotes(v)
    ensures Shows(x, v, x.foot)
    decreases v, 0
  {
    match v
    case Array(items) =>
      KidsShow(x, items, 0);
      FirstKid(x, |items|);
      assert items[0..] == items;
    case Object(members) =>
      NamedKidsShow(x, members, 0);
      FirstKid(x, |members|);
      assert members[0..] == members;
    case _ =>
  }

  // The k-th child, or null behind the last one.
  ghost function KidAt(x: Item, k: nat): Item?
    reads x`kids
  {
    if k < |x.kids| then x.kids[k] else null
  }

  lemma FirstKid(x: Item, n: nat)
    requires x.Owns() && !x.isReference && |x.kids| == n
    ensures x.child == KidAt(x, 0)
  {
    x.Parts();
  }

  lemma NextKid(x: Item, k: nat)
    requires x.Owns() && !x.isReference && k < |x.kids|
    ensures x.kids[k].next == KidAt(x, k + 1) && x.kids[k].Owns() && x.kids[k].foot <= x.foot
    ensures x.kids[k].name != null ==> x.kids[k].name in x.foot
  {
    x.Parts();
    hide Item.Owns;
    x.kids[k].OwnsName();
  }

  lemma {:induction false} KidsShow(x: Item, items: seq<Json>, i: nat)
    requires x.Owns() && x.Denotes(Array(items)) && i <= |items|
    ensures ItemsShow(KidAt(x, i), items[i..], x.foot)
    decreases items, 1, |items| - i
  {
    if i < |items| {
      var k := x.kids[i];
      NextKid(x, i);
      OwnedShows(k, items[i]);
      hide Item.Owns, Item.Denotes, Shows;
      Wider(k, items[i], k.foot, x.foot);
      KidsShow(x, items, i + 1);
      assert items[i..][0] == items[i] && items[i..][1..] == items[i + 1..];
    }
  }

  lemma {:induction false} NamedKidsShow(x: Item, members: seq<Member>, i: nat)
    requires x.Owns() && x.Denotes(Object(members)) && i <= |members|
    ensures MembersShow(KidAt(x, i), members[i..], x.foot)
    decreases members, 1, |members| - i
  {
    if i < |members| {
      var k := x.kids[i];
      NextKid(x, i);
      assert Holds(k.name, members[i].name);
      OwnedShows(k, members[i].value);
      hide Item.Owns, Item.Denotes, Shows, Holds;
      Wider(k, members[i].value, k.foot, x.foot);
      NamedKidsShow(x, members, i + 1);
      assert members[i..][0] == members[i] && members[i..][1..] == members[i + 1..];
    }
  }

  lemma {:induction false} Wider(x: Item, v: Json, a: set<object>, b: set<object>)
    requires Shows(x, v, a) && a <= b
    ensures Shows(x, v, b)
    decreases v, 0
  {
    match v
    case Array(items) => WiderItems(x.child, items, a, b);
    case Object(members) => WiderMembers(x.child, members, a, b);
    case _ =>
  }

  lemma {:induction false} WiderItems(head: Item?, items: seq<Json>, a: set<object>, b: set<object>)
    requires ItemsShow(head, items, a) && a <= b
    ensures ItemsShow(head, items, b)
    decreases items, 1
  {
    if items != [] {
      Wider(head, items[0], a, b);
      WiderItems(head.next, items[1..], a, b);
    }
  }

  lemma {:induction false} WiderMembers(head: Item?, members: seq<Member>, a: set<object>, b: set<object>)
    requires MembersShow(head, members, a) && a <= b
    ensures MembersShow(head, members, b)
    decreases members, 1
  {
    if members != [] {
      Wider(head, members[0].value, a, b);
      WiderMembers(head.next, members[1..], a, b);
    }
  }

  // A reference shows what the item shows that it was made from.
  lemma ReferenceShows(ref: Item, item: Item, v: Json, world: set<object>)
    requires Shows(item, v, world)
    requires ref.kind == item.kind && ref.valueint == item.valueint
    requires ref.valuestring == item.valuestring && ref.child == item.child
    ensures Shows(ref, v, world + {ref})
  {
    Wider(item, v, world, world + {ref});
  }

  // ---------- Arrays ------------------------------------------------------------

  // The room print_array adds up for its entries.
  function ItemsRoom(items: seq<Json>, depth: nat, fmt: bool): nat {
    if items == [] then 0
    else |JsonText.PrintValue(items[0], depth, fmt)| + 2 + (if fmt then 1 else 0) + ItemsRoom(items[1..], depth, fmt)
  }

  // The buffers hold the printed items.
  ghost predicate Printed(entries: seq<array?<char>>, items: seq<Json>, depth: nat, fmt: bool)
    requires |entries| <= |items|
    reads entries
  {
    forall i :: 0 <= i < |entries| ==> Holds(entries[i], JsonText.PrintValue(items[i], depth, fmt))
  }

  method PrintArray(item: Item, ghost v: Json, ghost world: set<object>, depth: nat, fmt: bool) returns (out: array<char>)
    requires v.Array? && Representable(v) && Shows(item, v, world)
    ensures fresh(out) && Holds(out, JsonText.PrintValue(v, depth, fmt))
    ensures out.Length == 5 + ItemsRoom(v.items, depth + 1, fmt)
    decreases v, 0
  {
    ShowsItems(item, v, world);
    hide *;
    var entries, len := CollectItems(item.child, v, world, depth + 1, fmt);
    out := ComposeArray(entries, v.items, depth, fmt, len);
    assert v == Array(v.items);
  }

  lemma ShowsItems(item: Item, v: Json, world: set<object>)
    requires v.Array? && Shows(item, v, world)
    ensures ItemsShow(item.child, v.items, world)
  {
  }

  // Print every child into a buffer of its own and add up the room.
  method CollectItems(head: Item?, ghost v: Json, ghost world: set<object>, depth: nat, fmt: bool)
    returns (entries: array<array?<char>>, len: nat)
    requires v.Array? && Representable(v) && ItemsShow(head, v.items, world)
    ensures fresh(entries) && entries.Length == |v.items| && Printed(entries[..], v.items, depth, fmt)
    ensures len == 5 + ItemsRoom(v.items, depth, fmt)
    decreases v, 0, 1
  {
    hide Shows, ItemsShow, JsonText.PrintValue, Holds, ItemsRoom, Representable;
    var n := CountItems(head, v.items, world);
    entries := new array?<char>[n];
    len := 5;
    var child := head;
    var i := 0;
    assert v.items[0..] == v.items;
    while child != null
      invariant i <= n && ItemsShow(child, v.items[i..], world)
      invariant Printed(entries[..i], v.items, depth, fmt)
      invariant len + ItemsRoom(v.items[i..], depth, fmt) == 5 + ItemsRoom(v.items, depth, fmt)
      decreases n - i
    {
      OneItem(child, v.items, i, world);
      RoomStep(v.items, i, depth, fmt);
      var k := StoreItem(child, v, world, entries, i, depth, fmt);
      len := len + k + 2 + (if fmt then 1 else 0);
      child, i := child.next, i + 1;
    }
    NoItem(v.items, i, world);
    NoRoom(v.items, i, depth, fmt);
    assert entries[..i] == entries[..];
  }

  // The body of the collecting loop.
  method StoreItem(child: Item, ghost v: Json, ghost world: set<object>, entries: array<array?<char>>, i: nat,
                   depth: nat, fmt: bool) returns (k: nat)
    requires v.Array? && Representable(v) && i < |v.items| == entries.Length && Shows(child, v.items[i], world)
    requires Printed(entries[..i], v.items, depth, fmt)
    modifies entries
    ensures Printed(entries[..i + 1], v.items, depth, fmt)
    ensures k == |JsonText.PrintValue(v.items[i], depth, fmt)|
    decreases v, 0, 0
  {
    hide Shows, JsonText.PrintValue, Holds;
    var ret := PrintValue(child, v.items[i], world, depth, fmt);
    k := StrLen(ret, JsonText.PrintValue(v.items[i], depth, fmt));
    entries[i] := ret;
  }

  lemma RoomStep(items: seq<Json>, i: nat, depth: nat, fmt: bool)
    requires i < |items|
    ensures ItemsRoom(items[i..], depth, fmt)
         == |JsonText.PrintValue(items[i], depth, fmt)| + 2 + (if fmt then 1 else 0) + ItemsRoom(items[i + 1..], depth, fmt)
  {
    hide JsonText.PrintValue;
    assert items[i..][1..] == items[i + 1..];
  }

  lemma NoRoom(items: seq<Json>, i: nat, depth: nat, fmt: bool)
    requires i == |items|
    ensures ItemsRoom(items[i..], depth, fmt) == 0 && PrintItems(items[i..], depth, fmt) == ""
  {
  }

  // What stands behind an entry.
  function Separator(last: bool, fmt: bool): string {
    if last then "" else if fmt then ", " else ","
  }

  lemma ItemsCons(items: seq<Json>, i: nat, depth: nat, fmt: bool)
    requires i < |items|
    ensures PrintItems(items[i..], depth, fmt)
         == JsonText.PrintValue(items[i], depth, fmt) + Separator(i == |items| - 1, fmt) + PrintItems(items[i + 1..], depth, fmt)
  {
    hide JsonText.PrintValue;
    assert items[i..][1..] == items[i + 1..];
    var p := JsonText.PrintValue(items[i], depth, fmt);
    if i == |items| - 1 {
      assert p + "" + "" == p;
    } else {
      Shift(p, Separator(false, fmt), PrintItems(items[i + 1..], depth, fmt));
    }
  }

  method ComposeArray(entries: array<array?<char>>, ghost items: seq<Json>, depth: nat, fmt: bool, len: nat)
    returns (out: array<char>)
    requires entries.Length == |items| && Printed(entries[..], items, depth + 1, fmt)
    requires len == 5 + ItemsRoom(items, depth + 1, fmt)
    ensures fresh(out) && out.Length == len && Holds(out, JsonText.PrintValue(Array(items), depth, fmt))
  {
    hide JsonText.PrintValue, PrintItems, MoreItems, ItemsRoom, Holds, Separator;
    out := new char[len];
    out[0] := '[';
    var ptr: nat := 1;
    var i := 0;
    assert items[0..] == items && out[..1] == "[";
    while i < entries.Length
      invariant 0 <= i <= entries.Length
      invariant Printed(entries[..], items, depth + 1, fmt)
      invariant ptr + ItemsRoom(items[i..], depth + 1, fmt) + 4 <= len
      invariant out[..ptr] + PrintItems(items[i..], depth + 1, fmt) == "[" + PrintItems(items, depth + 1, fmt)
    {
      ghost var text := JsonText.PrintValue(items[i], depth + 1, fmt);
      ghost var before := out[..ptr];
      assert entries[..][i] == entries[i];
      RoomStep(items, i, depth + 1, fmt);
      ItemsCons(items, i, depth + 1, fmt);
      ptr := PutEntry(out, ptr, entries[i], text, i == entries.Length - 1, fmt);
      Shift(before, text + Separator(i == |items| - 1, fmt), PrintItems(items[i + 1..], depth + 1, fmt));
      i := i + 1;
    }
    NoRoom(items, i, depth + 1, fmt);
    assert out[..ptr] == "[" + PrintItems(items, depth + 1, fmt);
    ptr := Put(out, ptr, ']');
    out[ptr] := '\0';
    ArrayText(items, depth, fmt);
    MakeHolds(out, ptr, JsonText.PrintValue(Array(items), depth, fmt));
  }

  method PutEntry(out: array<char>, k: nat, entry: array?<char>, ghost text: string, last: bool, fmt: bool)
    returns (end: nat)
    requires Holds(entry, text) && entry != out && k + |text| + 3 <= out.Length
    modifies out
    ensures end == k + |text| + |Separator(last, fmt)| && end <= k + |text| + (if fmt then 2 else 1)
    ensures out[..end] == old(out[..k]) + (text + Separator(last, fmt))
  {
    end := StrCpy(out, k, entry, text);
    if !last {
      end := Put(out, end, ',');
      if fmt { end := Put(out, end, ' '); }
      out[end] := '\0';
    }
  }

  lemma MakeHolds(out: array<char>, k: nat, t: string)
    requires k < out.Length && out[..k] == t && out[k] == '\0' && '\0' !in t
    ensures Holds(out, t)
  {
  }

  lemma ArrayText(items: seq<Json>, depth: nat, fmt: bool)
    ensures JsonText.PrintValue(Array(items), depth, fmt) == "[" + PrintItems(items, depth + 1, fmt) + "]"
    ensures '\0' !in JsonText.PrintValue(Array(items), depth, fmt)
  {
    PrintHasNoTerminator(Array(items), depth, fmt);
  }

  // ---------- Objects -----------------------------------------------------------

  // The room print_object adds up for its names and entries.
  function MembersRoom(members: seq<Member>, depth: nat, fmt: bool): nat {
    if members == [] then 0
    else MemberRoom(members[0], depth, fmt) + MembersRoom(members[1..], depth, fmt)
  }

  function MemberRoom(m: Member, depth: nat, fmt: bool): nat {
    |PrintString(m.name)| + |JsonText.PrintValue(m.value, depth, fmt)| + 2 + (if fmt then 2 + depth else 0)
  }

  ghost predicate NamesPrinted(names: seq<array?<char>>, members: seq<Member>)
    requires |names| <= |members|
    reads names
  {
    forall i :: 0 <= i < |names| ==> Holds(names[i], PrintString(members[i].name))
  }

  ghost predicate ValuesPrinted(entries: seq<array?<char>>, members: seq<Member>, depth: nat, fmt: bool)
    requires |entries| <= |members|
    reads entries
  {
    forall i :: 0 <= i < |entries| ==> Holds(entries[i], JsonText.PrintValue(members[i].value, depth, fmt))
  }

  method PrintObject(item: Item, ghost v: Json, ghost world: set<object>, depth: nat, fmt: bool) returns (out: array<char>)
    requires v.Object? && Representable(v) && Shows(item, v, world)
    ensures fresh(out) && Holds(out, JsonText.PrintValue(v, depth, fmt))
    ensures out.Length == 7 + (if fmt then depth + 1 else 0) + MembersRoom(v.members, depth + 1, fmt)
    decreases v, 0
  {
    ShowsMembers(item, v, world);
    hide *;
    var names, entries, len := CollectMembers(item.child, v, world, depth + 1, fmt);
    out := ComposeObject(names, entries, v.members, depth + 1, fmt, len);
    assert v == Object(v.members);
  }

  lemma ShowsMembers(item: Item, v: Json, world: set<object>)
    requires v.Object? && Shows(item, v, world)
    ensures MembersShow(item.child, v.members, world)
  {
  }

  method CollectMembers(head: Item?, ghost v: Json, ghost world: set<object>, depth: nat, fmt: bool)
    returns (names: array<array?<char>>, entries: array<array?<char>>, len: nat)
    requires v.Object? && Representable(v) && MembersShow(head, v.members, world)
    ensures fresh(names) && names.Length == |v.members| && NamesPrinted(names[..], v.members)
    ensures fresh(entries) && entries.Length == |v.members| && ValuesPrinted(entries[..], v.members, depth, fmt)
    ensures len == 7 + (if fmt then depth else 0) + MembersRoom(v.members, depth, fmt)
    decreases v, 0, 2
  {
    hide Shows, MembersShow, JsonText.PrintValue, PrintString, Holds, MembersRoom, MemberRoom, Representable;
    hide NamesPrinted, ValuesPrinted;
    var n := CountMembers(head, v.members, world);
    entries, names := new array?<char>[n], new array?<char>[n];
    len := 7;
    if fmt { len := len + depth; }
    ghost var base := len;
    var child := head;
    var i := 0;
    assert v.members[0..] == v.members && names[..0] == [] && entries[..0] == [];
    NothingPrinted(v.members, depth, fmt);
    while child != null
      invariant i <= n && MembersShow(child, v.members[i..], world)
      invariant NamesPrinted(names[..i], v.members) && ValuesPrinted(entries[..i], v.members, depth, fmt)
      invariant len + MembersRoom(v.members[i..], depth, fmt) == base + MembersRoom(v.members, depth, fmt)
      decreases n - i
    {
      OneMember(child, v.members, i, world);
      MembersRoomStep(v.members, i, depth, fmt);
      var room := StorePair(child, v, world, names, entries, i, depth, fmt);
      len := len + room;
      child, i := child.next, i + 1;
    }
    NoMember(v.members, i, world);
    NoMembersRoom(v.members, i, depth, fmt);
    assert names[..i] == names[..] && entries[..i] == entries[..];
  }

  // The body of the collecting loop.
  method StorePair(child: Item, ghost v: Json, ghost world: set<object>, names: array<array?<char>>,
                   entries: array<array?<char>>, i: nat, depth: nat, fmt: bool) returns (room: nat)
    requires v.Object? && Representable(v) && i < |v.members| == names.Length == entries.Length && names != entries
    requires Shows(child, v.members[i].value, world) && Holds(child.name, v.members[i].name)
    requires NamesPrinted(names[..i], v.members) && ValuesPrinted(entries[..i], v.members, depth, fmt)
    modifies names, entries
    ensures NamesPrinted(names[..i + 1], v.members) && ValuesPrinted(entries[..i + 1], v.members, depth, fmt)
    ensures room == MemberRoom(v.members[i], depth, fmt)
    decreases v, 0, 1
  {
    hide Shows, JsonText.PrintValue, PrintString, Holds, MemberRoom, NamesPrinted, ValuesPrinted;
    var str, ret;
    str, ret, room := PrintPair(child, v, world, i, depth, fmt);
    OneMorePrinted(names[..i], entries[..i], str, ret, v.members, depth, fmt);
    names[i], entries[i] := str, ret;
    assert names[..i + 1] == old(names[..i]) + [str] && entries[..i + 1] == old(entries[..i]) + [ret];
  }

  lemma NothingPrinted(members: seq<Member>, depth: nat, fmt: bool)
    ensures NamesPrinted([], members) && ValuesPrinted([], members, depth, fmt)
  {
  }

  lemma OneMorePrinted(names: seq<array?<char>>, entries: seq<array?<char>>, str: array<char>, ret: array<char>,
                       members: seq<Member>, depth: nat, fmt: bool)
    requires |names| == |entries| < |members|
    requires NamesPrinted(names, members) && ValuesPrinted(entries, members, depth, fmt)
    requires Holds(str, PrintString(members[|names|].name))
    requires Holds(ret, JsonText.PrintValue(members[|names|].value, depth, fmt))
    ensures NamesPrinted(names + [str], members) && ValuesPrinted(entries + [ret], members, depth, fmt)
  {
    hide Holds, PrintString, JsonText.PrintValue;
  }

  // The name and the value of one child, and the room they are given.
  method PrintPair(child: Item, ghost v: Json, ghost world: set<object>, ghost i: nat, depth: nat, fmt: bool)
    returns (str: array<char>, ret: array<char>, room: nat)
    requires v.Object? && Representable(v) && i < |v.members|
    requires Shows(child, v.members[i].value, world) && Holds(child.name, v.members[i].name)
    ensures fresh(str) && Holds(str, PrintString(v.members[i].name))
    ensures fresh(ret) && Holds(ret, JsonText.PrintValue(v.members[i].value, depth, fmt)) && str != ret
    ensures room == MemberRoom(v.members[i], depth, fmt)
    decreases v, 0, 0
  {
    hide Shows, JsonText.PrintValue, PrintString;
    ghost var m := v.members[i];
    str := PrintStringPtr(child.name, m.name);
    ret := PrintValue(child, m.value, world, depth, fmt);
    var r := StrLen(ret, JsonText.PrintValue(m.value, depth, fmt));
    var s := StrLen(str, PrintString(m.name));
    room := r + s + 2 + (if fmt then 2 + depth else 0);
  }

  lemma MembersRoomStep(members: seq<Member>, i: nat, depth: nat, fmt: bool)
    requires i < |members|
    ensures MembersRoom(members[i..], depth, fmt)
         == MemberRoom(members[i], depth, fmt) + MembersRoom(members[i + 1..], depth, fmt)
  {
    hide MemberRoom;
    assert members[i..][1..] == members[i + 1..];
  }

  lemma NoMembersRoom(members: seq<Member>, i: nat, depth: nat, fmt: bool)
    requires i == |members|
    ensures MembersRoom(members[i..], depth, fmt) == 0 && PrintMembers(members[i..], depth, fmt) == ""
  {
  }

  // What stands behind a member.
  function MemberEnd(last: bool, fmt: bool): string {
    (if last then "" else ",") + (if fmt then "\n" else "")
  }

  lemma MembersCons(members: seq<Member>, i: nat, depth: nat, fmt: bool)
    requires i < |members|
    ensures PrintMembers(members[i..], depth, fmt)
         == PrintMember(members[i], depth, fmt) + MemberEnd(i == |members| - 1, fmt) + PrintMembers(members[i + 1..], depth, fmt)
  {
    hide PrintMember;
    assert members[i..][1..] == members[i + 1..];
    Shift(PrintMember(members[i], depth, fmt), if i == |members| - 1 then "" else ",", if fmt then "\n" else "");
  }

  method ComposeObject(names: array<array?<char>>, entries: array<array?<char>>, ghost members: seq<Member>,
                       depth: nat, fmt: bool, len: nat) returns (out: array<char>)
    requires names.Length == entries.Length == |members| && depth > 0
    requires NamesPrinted(names[..], members) && ValuesPrinted(entries[..], members, depth, fmt)
    requires len == 7 + (if fmt then depth else 0) + MembersRoom(members, depth, fmt)
    ensures fresh(out) && out.Length == len && Holds(out, JsonText.PrintValue(Object(members), depth - 1, fmt))
  {
    hide JsonText.PrintValue, PrintMembers, PrintMember, PrintString, MembersRoom, MemberRoom, Holds, MemberEnd, Tabs;
    out := new char[len];
    var ptr: nat := Put(out, 0, '{');
    if fmt { ptr := Put(out, ptr, '\n'); }
    out[ptr] := '\0';
    ghost var open := out[..ptr];
    assert open == "{" + (if fmt then "\n" else "");
    var i := 0;
    assert members[0..] == members;
    while i < entries.Length
      invariant 0 <= i <= entries.Length
      invariant NamesPrinted(names[..], members) && ValuesPrinted(entries[..], members, depth, fmt)
      invariant ptr + MembersRoom(members[i..], depth, fmt) + (if fmt then depth else 0) + 5 <= len
      invariant out[..ptr] + PrintMembers(members[i..], depth, fmt) == open + PrintMembers(members, depth, fmt)
    {
      ghost var before := out[..ptr];
      assert entries[..][i] == entries[i] && names[..][i] == names[i];
      MembersRoomStep(members, i, depth, fmt);
      MembersCons(members, i, depth, fmt);
      ptr := PutMember(out, ptr, names[i], entries[i], members[i], i == entries.Length - 1, depth, fmt);
      Shift(before, PrintMember(members[i], depth, fmt) + MemberEnd(i == |members| - 1, fmt),
            PrintMembers(members[i + 1..], depth, fmt));
      i := i + 1;
    }
    NoMembersRoom(members, i, depth, fmt);
    ghost var body := PrintMembers(members, depth, fmt);
    assert out[..ptr] == open + body;
    if fmt { ptr := PutTabs(out, ptr, depth - 1); }
    ptr := Put(out, ptr, '}');
    out[ptr] := '\0';
    ObjectText(members, depth, fmt, open, body);
    MakeHolds(out, ptr, JsonText.PrintValue(Object(members), depth - 1, fmt));
  }

  lemma ObjectText(members: seq<Member>, depth: nat, fmt: bool, open: string, body: string)
    requires depth > 0 && open == "{" + (if fmt then "\n" else "") && body == PrintMembers(members, depth, fmt)
    ensures JsonText.PrintValue(Object(members), depth - 1, fmt)
         == open + body + (if fmt then Tabs(depth - 1) else "") + ['}']
    ensures '\0' !in JsonText.PrintValue(Object(members), depth - 1, fmt)
  {
    PrintHasNoTerminator(Object(members), depth - 1, fmt);
  }

  method PutMember(out: array<char>, k: nat, name: array?<char>, entry: array?<char>, ghost m: Member,
                   last: bool, depth: nat, fmt: bool) returns (end: nat)
    requires Holds(name, PrintString(m.name)) && name != out
    requires Holds(entry, JsonText.PrintValue(m.value, depth, fmt)) && entry != out
    requires k + MemberRoom(m, depth, fmt) < out.Length
    modifies out
    ensures k <= end <= k + MemberRoom(m, depth, fmt)
    ensures out[..end] == old(out[..k]) + (PrintMember(m, depth, fmt) + MemberEnd(last, fmt))
  {
    hide JsonText.PrintValue, PrintString, Tabs, Holds;
    end := PutName(out, k, name, PrintString(m.name), depth, fmt);
    ghost var lead := (if fmt then Tabs(depth) else "") + PrintString(m.name) + ":" + (if fmt then "\t" else "");
    ghost var value := JsonText.PrintValue(m.value, depth, fmt);
    end := PutEnd(out, end, entry, value, last, fmt);
    Regroup(old(out[..k]), lead, value, MemberEnd(last, fmt));
  }

  lemma Regroup(a: string, b: string, c: string, d: string)
    ensures a + b + (c + d) == a + (b + c + d)
  {
  }

  // The indentation, the name and its colon.
  method PutName(out: array<char>, k: nat, name: array?<char>, ghost n: string, depth: nat, fmt: bool) returns (end: nat)
    requires Holds(name, n) && name != out
    requires k + |n| + 1 + (if fmt then depth + 1 else 0) <= out.Length
    modifies out
    ensures end == k + |n| + 1 + (if fmt then depth + 1 else 0)
    ensures out[..end] == old(out[..k]) + ((if fmt then Tabs(depth) else "") + n + ":" + (if fmt then "\t" else ""))
  {
    hide Tabs;
    end := k;
    if fmt { end := PutTabs(out, end, depth); }
    end := StrCpy(out, end, name, n);
    end := Put(out, end, ':');
    if fmt { end := Put(out, end, '\t'); }
  }

  // The value, the comma and the end of the line.
  method PutEnd(out: array<char>, k: nat, entry: array?<char>, ghost e: string, last: bool, fmt: bool) returns (end: nat)
    requires Holds(entry, e) && entry != out
    requires k + |e| + 1 + (if fmt then 1 else 0) < out.Length
    modifies out
    ensures k <= end <= k + |e| + 1 + (if fmt then 1 else 0)
    ensures out[..end] == old(out[..k]) + (e + MemberEnd(last, fmt))
  {
    end := StrCpy(out, k, entry, e);
    if !last { end := Put(out, end, ','); }
    if fmt { end := Put(out, end, '\n'); }
    out[end] := '\0';
  }

  method PrintValue(item: Item, ghost v: Json, ghost world: set<object>, depth: nat, fmt: bool) returns (out: array<char>)
    requires Representable(v) && Shows(item, v, world)
    ensures fresh(out) && Holds(out, JsonText.PrintValue(v, depth, fmt))
    decreases v, 1
  {
    match item.kind
    case KNull => out := StrDup("null", 5);
    case KFalse => out := StrDup("false", 6);
    case KTrue => out := StrDup("true", 5);
    case KNumber => out := PrintNumber(item);
    case KString => out := PrintStringPtr(item.valuestring, v.s);
    case KArray => out := PrintArray(item, v, world, depth, fmt);
    case KObject => out := PrintObject(item, v, world, depth, fmt);
  }

  // ---------- Through the text and back -------------------------------------------

  // cJSON_Print followed by cJSON_Parse: a separate tree with the same value,
  // up to the control characters the printer drops.
  method PrintAndParse(item: Item, ghost v: Json, fmt: bool, heap: Heap) returns (copy: Item)
    requires Representable(v) && item.Owns() && item.Denotes(v)
    modifies heap
    ensures copy.Owns() && copy.Denotes(JsonRoundTrip.Scrub(v)) && fresh(copy.foot)
    ensures JsonRoundTrip.Clean(v) ==> copy.Denotes(v)
    ensures heap.freed == old(heap.freed)
  {
    hide Item.Owns, Item.Denotes, Shows, JsonText.PrintValue, JsonText.Parse;
    OwnedShows(item, v);
    var out := PrintValue(item, v, item.foot, 0, fmt);
    ghost var text := JsonText.PrintValue(v, 0, fmt);
    var n := StrLen(out, text);
    JsonRoundTrip.ParseOfPrint(v, fmt);
    JsonRoundTrip.ScrubIdentity(v);
    var c, stray := CJsonParser.Parse(out[..n], heap);
    copy := c;
  }
}
