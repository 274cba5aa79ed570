// JSON values and their text: what the cJSON printer writes and what the
// cJSON parser reads, as functions, and the theorem that relates the two.
//
// A C string is a `string` without its terminator, and a pointer into a text
// is the part of the text it points at.

module JsonText {
  import opened Common

  datatype Json =
    | Null
    | False
    | True
    | Number(n: int)
    | String(s: string)
    | Array(items: seq<Json>)
    | Object(members: seq<Member>)

  datatype Member = Member(name: string, value: Json)

  // What a parser step comes to.  Undefined: the C code reads past the
  // terminator of the text or leaves the range this model covers.
  datatype Outcome<T> = Done(value: T, rest: string) | Reject | Undefined

  const INT_MIN := -0x8000_0000
  const INT_MAX := 0x7fff_ffff

  // Every number is a C int and no string contains its own terminator.
  ghost predicate Representable(v: Json) {
    match v
    case Number(n) => INT_MIN <= n <= INT_MAX
    case String(s) => '\0' !in s
    case Array(items) => forall x | x in items :: Representable(x)
    case Object(members) => forall m | m in members :: '\0' !in m.name && Representable(m.value)
    case _ => true
  }

  // ---------- The printer -----------------------------------------------

  function EscapeChar(c: char): string {
    if c > 31 as char && c != '\"' && c != '\\' then [c]
    else match c
      case '\\' => "\\\\"
      case '\"' => "\\\""
      case '\U{8}' => "\\b"
      case '\U{c}' => "\\f"
      case '\n' => "\\n"
      case '\r' => "\\r"
      case '\t' => "\\t"
      case _ => ""
  }

  function Escape(s: string): string {
    if s == "" then "" else EscapeChar(s[0]) + Escape(s[1..])
  }

  function PrintString(s: string): string { "\"" + Escape(s) + "\"" }

  function Digits(n: nat): (d: string)
    ensures d != ""
  {
    if n < 10 then [(n + '0' as int) as char] else Digits(n / 10) + [(n % 10 + '0' as int) as char]
  }

  function PrintNumber(n: int): string {
    if n < 0 then "-" + Digits(-n) else Digits(n)
  }

  function Tabs(n: nat): (t: string)
    ensures |t| == n && forall c | c in t :: c == '\t'
  {
    seq(n, _ => '\t')
  }

  function PrintValue(v: Json, depth: nat, fmt: bool): string
    decreases v, 0
  {
    match v
    case Null => "null"
    case False => "false"
    case True => "true"
    case Number(n) => PrintNumber(n)
    case String(s) => PrintString(s)
    case Array(items) => "[" + PrintItems(items, depth + 1, fmt) + "]"
    case Object(members) =>
      "{" + (if fmt then "\n" else "") + PrintMembers(members, depth + 1, fmt)
      + (if fmt then Tabs(depth) else "") + "}"
  }

  function PrintItems(items: seq<Json>, depth: nat, fmt: bool): string
    decreases items, 1
  {
    if items == [] then ""
    else PrintValue(items[0], depth, fmt) + MoreItems(items[1..], depth, fmt)
  }

  function MoreItems(items: seq<Json>, depth: nat, fmt: bool): string
    decreases items, 2
  {
    if items == [] then "" else (if fmt then ", " else ",") + PrintItems(items, depth, fmt)
  }

  function PrintMembers(members: seq<Member>, depth: nat, fmt: bool): string
    decreases members, 1
  {
    if members == [] then ""
    else
      PrintMember(members[0], depth, fmt)
      + (if |members| > 1 then "," else "") + (if fmt then "\n" else "")
      + PrintMembers(members[1..], depth, fmt)
  }

  function PrintMember(m: Member, depth: nat, fmt: bool): string
    decreases m, 0
  {
    (if fmt then Tabs(depth) else "") + PrintString(m.name) + ":" + (if fmt then "\t" else "")
    + PrintValue(m.value, depth, fmt)
  }

  // ---------- The parser ------------------------------------------------

  // Step over blanks and control characters; None when that would step over
  // the terminator, which counts as a control character for the C loop.
  function Skip(s: string): (r: Option<string>)
    ensures r.Some? ==> r.value != "" && |r.value| <= |s| && r.value[0] > ' '
  {
    if s == "" then None else if s[0] <= ' ' then Skip(s[1..]) else Some(s)
  }

  function HexValue(c: char): (n: nat)
    requires IsHex(c)
    ensures n < 16
  {
    if IsDigit(c) then c as int - '0' as int
    else if c >= 'a' then c as int - 'a' as int + 10
    else c as int - 'A' as int + 10
  }

  function HexCode(s: string): (n: nat)
    requires |s| == 4 && forall c | c in s :: IsHex(c)
    ensures n < 0x10000
  {
    ((HexValue(s[0]) * 16 + HexValue(s[1])) * 16 + HexValue(s[2])) * 16 + HexValue(s[3])
  }

  // The bytes the parser stores for a \u escape.
  function Utf8(code: nat): (s: string)
    requires code < 0x10000
    ensures 1 <= |s| <= 3
  {
    if code < 0x80 then [code as char]
    else if code < 0x800 then [(0xC0 + code / 64) as char, (0x80 + code % 64) as char]
    else [(0xE0 + code / 4096) as char, (0x80 + code / 64 % 64) as char, (0x80 + code % 64) as char]
  }

  function UnescapeChar(c: char): char {
    match c
    case 'b' => '\U{8}'
    case 'f' => '\U{c}'
    case 'n' => '\n'
    case 'r' => '\r'
    case 't' => '\t'
    case _ => c
  }

  predicate EndsString(t: string) { t == "" || t[0] == '\"' || t[0] <= 31 as char }

  function Prepend(s: string, r: Outcome<string>): Outcome<string> {
    if r.Done? then Done(s + r.value, r.rest) else r
  }

  // The second pass over a string literal, after its opening quote.
  function Unescape(t: string): (r: Outcome<string>)
    ensures r.Done? ==> |r.rest| <= |t|
  {
    if EndsString(t) then Done("", if t != "" && t[0] == '\"' then t[1..] else t)
    else if t[0] != '\\' then Prepend([t[0]], Unescape(t[1..]))
    else if |t| == 1 then Undefined
    else if t[1] != 'u' then Prepend([UnescapeChar(t[1])], Unescape(t[2..]))
    else if |t| >= 6 && (forall c | c in t[2..6] :: IsHex(c)) then
      Prepend(Utf8(HexCode(t[2..6])), Unescape(t[6..]))
    else Undefined
  }

  // A buffer read as a C string ends at its first terminator.
  function Cut(s: string): (r: string)
    ensures '\0' !in r && r <= s && (r != s ==> s[|r|] == '\0')
  {
    if s == "" || s[0] == '\0' then "" else [s[0]] + Cut(s[1..])
  }

  function ParseString(s: string): (r: Outcome<string>)
    ensures r.Done? ==> |r.rest| < |s| && '\0' !in r.value
  {
    if s == "" || s[0] != '\"' then Reject
    else match Unescape(s[1..])
      case Done(t, rest) => Done(Cut(t), rest)
      case other => other
  }

  // Read digits onto `n`.
  function ReadDigits(n: nat, s: string): (r: (nat, string))
    ensures |r.1| <= |s|
    ensures r.1 == "" || !IsDigit(r.1[0])
    decreases s
  {
    if s != "" && IsDigit(s[0]) then ReadDigits(10 * n + (s[0] as int - '0' as int), s[1..]) else (n, s)
  }

  function Negate(minus: bool, n: int): int { if minus then -n else n }

  function ParseNumber(s: string): (r: Outcome<Json>)
    requires s != "" && (s[0] == '-' || IsDigit(s[0]))
    ensures r.Done? ==> |r.rest| < |s| && r.value.Number? && INT_MIN <= r.value.n <= INT_MAX
  {
    var s1 := if s[0] == '-' then s[1..] else s;
    var s2 := if s1 != "" && s1[0] == '0' then s1[1..] else s1;
    var (n, rest) := if s2 != "" && '1' <= s2[0] <= '9' then ReadDigits(0, s2) else (0, s2);
    if rest != "" && rest[0] in ".eE" then Undefined
    else
      var m := Negate(s[0] == '-', n);
      if INT_MIN <= m <= INT_MAX then Done(Number(m), rest) else Undefined
  }

  predicate HasPrefix(s: string, p: string) { |p| <= |s| && s[..|p|] == p }

  function ParseValue(s: string): (r: Outcome<Json>)
    ensures r.Done? ==> |r.rest| < |s|
    decreases |s|, 1
  {
    if HasPrefix(s, "null") then Done(Null, s[4..])
    else if HasPrefix(s, "false") then Done(False, s[5..])
    else if HasPrefix(s, "true") then Done(True, s[4..])
    else if s == "" then Reject
    else if s[0] == '\"' then
      match ParseString(s)
      case Done(t, rest) => Done(String(t), rest)
      case Reject => Reject
      case Undefined => Undefined
    else if s[0] == '-' || IsDigit(s[0]) then ParseNumber(s)
    else if s[0] == '[' then
      match Skip(s[1..])
      case None => Undefined
      case Some(t) =>
        if t[0] == ']' then Done(Array([]), t[1..])
        else
          match ParseItems(t)
          case Done(items, rest) => Done(Array(items), rest)
          case Reject => Reject
          case Undefined => Undefined
    else if s[0] == '{' then
      match Skip(s[1..])
      case None => Undefined
      case Some(t) =>
        if t[0] == '}' then Done(Object([]), t[1..])
        else
          match ParseMembers(t)
          case Done(members, rest) => Done(Object(members), rest)
          case Reject => Reject
          case Undefined => Undefined
    else Reject
  }

  // A value and the blanks behind it.
  function ParseTrimmed(s: string): (r: Outcome<Json>)
    ensures r.Done? ==> |r.rest| < |s| && r.rest != ""
    decreases |s|, 2
  {
    match ParseValue(s)
    case Done(v, t) => (match Skip(t) case None => Undefined case Some(t) => Done(v, t))
    case other => other
  }

  // One item, with the blanks on both sides of it.
  function ParseOne(s: string): (r: Outcome<Json>)
    ensures r.Done? ==> |r.rest| < |s| && r.rest != ""
    decreases |s|, 3
  {
    match Skip(s)
    case None => Undefined
    case Some(t) => ParseTrimmed(t)
  }

  // One item and, after a comma, the others; ends behind the ']'.
  function ParseItems(s: string): (r: Outcome<seq<Json>>)
    ensures r.Done? ==> |r.rest| < |s|
    decreases |s|, 4
  {
    match ParseOne(s)
    case Done(v, t) => ItemsAfter([v], t)
    case Reject => Reject
    case Undefined => Undefined
  }

  // The items read so far are `vs` and `t` is left.
  function ItemsAfter(vs: seq<Json>, t: string): (r: Outcome<seq<Json>>)
    requires t != ""
    ensures r.Done? ==> |r.rest| < |t|
    decreases |t|, 0
  {
    if t[0] == ',' then
      match ParseItems(t[1..])
      case Done(items, rest) => Done(vs + items, rest)
      case other => other
    else if t[0] == ']' then Done(vs, t[1..])
    else Reject
  }

  // A name, its colon and the blanks around it.
  function ParseName(s: string): (r: Outcome<string>)
    ensures r.Done? ==> |r.rest| < |s| && '\0' !in r.value
  {
    match Skip(s)
    case None => Undefined
    case Some(t) =>
      match ParseString(t)
      case Reject => Reject
      case Undefined => Undefined
      case Done(name, t) =>
        match Skip(t)
        case None => Undefined
        case Some(t) =>
          if t[0] != ':' then Reject
          else match Skip(t[1..])
            case None => Undefined
            case Some(t) => Done(name, t)
  }

  // One name and value, with the blanks behind them.
  function ParseMember(s: string): (r: Outcome<Member>)
    ensures r.Done? ==> |r.rest| < |s| && r.rest != ""
    decreases |s|, 3
  {
    match ParseName(s)
    case Reject => Reject
    case Undefined => Undefined
    case Done(name, t) =>
      match ParseTrimmed(t)
      case Done(v, t) => Done(Member(name, v), t)
      case Reject => Reject
      case Undefined => Undefined
  }

  // One member and, after a comma, the others; ends behind the '}'.
  function ParseMembers(s: string): (r: Outcome<seq<Member>>)
    ensures r.Done? ==> |r.rest| < |s|
    decreases |s|, 4
  {
    match ParseMember(s)
    case Done(m, t) => MembersAfter([m], t)
    case Reject => Reject
    case Undefined => Undefined
  }

  function MembersAfter(ms: seq<Member>, t: string): (r: Outcome<seq<Member>>)
    requires t != ""
    ensures r.Done? ==> |r.rest| < |t|
    decreases |t|, 0
  {
    if t[0] == ',' then
      match ParseMembers(t[1..])
      case Done(members, rest) => Done(ms + members, rest)
      case other => other
    else if t[0] == '}' then Done(ms, t[1..])
    else Reject
  }

  // cJSON_Parse ignores whatever follows the first value.
  function Parse(text: string): Outcome<Json> {
    match Skip(text)
    case None => Undefined
    case Some(t) => ParseValue(t)
  }
}
