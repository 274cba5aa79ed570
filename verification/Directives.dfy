// The requested image name is cut apart in its buffer; the clauses cut off are
// kept on a stack and then carried out.

module Directives {
  import opened Common
  import opened DirectiveSearch

  // ---------- The buffers of show_image --------------------------------------------

  const PATH_MAX := 4096
  const MAX_DIRECTIVES := 16

  // The C string that begins at i.
  function TextAt(b: seq<char>, i: nat): (s: string)
    decreases |b| - i
  {
    if i >= |b| || b[i] == '\0' then "" else [b[i]] + TextAt(b, i + 1)
  }

  predicate Terminated(b: seq<char>, i: nat, s: string) {
    i + |s| < |b| && b[i..i + |s|] == s && b[i + |s|] == '\0' && '\0' !in s
  }

  lemma {:induction false} TextOfTerminated(b: seq<char>, i: nat, s: string)
    requires Terminated(b, i, s)
    ensures TextAt(b, i) == s
    decreases |s|
  {
    if s != "" {
      assert b[i] == b[i..i + |s|][0] == s[0];
      assert b[i + 1..i + 1 + |s[1..]|] == b[i..i + |s|][1..];
      TextOfTerminated(b, i + 1, s[1..]);
    }
  }

  method StrCpy(dst: array<char>, at: nat, s: string)
    requires at + |s| < dst.Length && '\0' !in s
    modifies dst
    ensures Terminated(dst[..], at, s) && dst[..at] == old(dst[..at])
  {
    var i := 0;
    while i < |s|
      invariant i <= |s|
      invariant dst[at..at + i] == s[..i]
      invariant dst[..at] == old(dst[..at])
    {
      dst[at + i] := s[i];
      i := i + 1;
    }
    dst[at + i] := '\0';
  }

  // for (; last > ptr && *last != c; last--)
  method FindBack(b: array<char>, from: nat, c: char) returns (last: nat)
    requires from < b.Length && b[from] == '\0' != c
    ensures last <= from && (b[last] == c <==> LastAt(b[..from], c) >= 0)
    ensures b[last] == c ==> last == LastAt(b[..from], c)
  {
    last := from;
    while last > 0 && b[last] != c
      invariant last <= from && forall k | last < k <= from :: b[k] != c
    {
      last := last - 1;
    }
  }

  // Put the extension behind the base, over what is in the buffer, and open.
  method TryOpen(fname: array<char>, last: nat, e: string, present: string -> bool) returns (file: Option<string>)
    requires last + 1 + |e| < fname.Length && '\0' !in fname[..last] && '\0' !in e
    modifies fname
    ensures fname[..last] == old(fname[..last])
    ensures file == if present(FileName(fname[..last], e)) then Some(FileName(fname[..last], e)) else None
  {
    fname[last] := '.';
    ghost var base := fname[..last];
    StrCpy(fname, last + 1, e);
    BaseAndExtension(fname[..], base, e);
    var name := TextAt(fname[..], 0);
    file := if present(name) then Some(name) else None;
  }

  lemma BaseAndExtension(b: seq<char>, base: string, e: string)
    requires '\0' !in base && base + "." <= b && Terminated(b, |base| + 1, e)
    ensures TextAt(b, 0) == FileName(base, e)
  {
    var s := FileName(base, e);
    assert b[..|s|] == b[..|base| + 1] + b[|base| + 1..|base| + 1 + |e|];
    TextOfTerminated(b, 0, s);
  }

  // What one round of opening files comes to: the file, the extension from
  // now on, and whether the search is over.
  ghost predicate Tried(base: string, e: string, present: string -> bool,
                        file: Option<string>, next: string, over: bool) {
    && (over <==> present(FileName(base, e)) || Fallbacks(e) == [])
    && (over ==> file == if present(FileName(base, e)) then Some(FileName(base, e)) else None)
    && (!over ==> match FirstExisting(base, Fallbacks(e), present)
        case Some(x) => file == Some(FileName(base, x)) && next == x
        case None => file == None && next == Fallbacks(e)[|Fallbacks(e)| - 1])
  }

  // The extension can be put behind a base that is shorter than `last`.
  predicate ExtensionFits(e: string, last: nat) {
    '\0' !in e && last + 1 + |e| <= PATH_MAX && (Fallbacks(e) != [] ==> last + 5 <= PATH_MAX)
  }

  // The requested extension, then its fallbacks.
  method TryFormats(fname: array<char>, last: nat, ext: string, present: string -> bool)
    returns (file: Option<string>, next: string, over: bool)
    requires last < fname.Length == PATH_MAX && '\0' !in fname[..last] && ExtensionFits(ext, last + 1)
    modifies fname
    ensures fname[..last] == old(fname[..last])
    ensures Tried(fname[..last], ext, present, file, next, over)
  {
    hide Fallbacks, FileName, FirstExisting;
    next := ext;
    file := TryOpen(fname, last, ext, present);
    if file.Some? {
      return file, ext, true;
    }
    var format := FindFormat(ext);
    if format == |FORMATS| {
      return None, ext, true;
    }
    over := false;
    file, next := TryFallbacks(fname, last, Fallbacks(FORMATS[format]), present);
  }

  method FindFormat(ext: string) returns (format: nat)
    ensures format <= |FORMATS| && (format == |FORMATS| <==> Fallbacks(ext) == [])
    ensures format < |FORMATS| ==> FORMATS[format] == ext
  {
    InTable(ext);
    hide Fallbacks;
    format := 0;
    while format < |FORMATS|
      invariant format <= |FORMATS| && forall k | 0 <= k < format :: FORMATS[k] != ext
    {
      if ext == FORMATS[format] { break; }
      format := format + 1;
    }
  }

  lemma InTable(e: string)
    ensures Fallbacks(e) == [] <==> forall k | 0 <= k < |FORMATS| :: FORMATS[k] != e
  {
    assert |FORMATS| == 5;
    assert FORMATS[0] == "jpg" && FORMATS[1] == "png" && FORMATS[2] == "gif" && FORMATS[3] == "jpeg"
        && FORMATS[4] == "bmp";
    LastFallbacks(e);
    hide Fallbacks;
  }

  method TryFallbacks(fname: array<char>, last: nat, fs: seq<string>, present: string -> bool)
    returns (file: Option<string>, ext: string)
    requires fs != [] && last + 6 <= fname.Length && '\0' !in fname[..last]
    requires forall x | x in fs :: |x| <= 4 && '\0' !in x
    modifies fname
    ensures fname[..last] == old(fname[..last])
    ensures match FirstExisting(fname[..last], fs, present)
      case Some(x) => file == Some(FileName(fname[..last], x)) && ext == x
      case None => file == None && ext == fs[|fs| - 1]
  {
    hide FileName, FirstExisting;
    ghost var base := fname[..last];
    file := None;
    ext := fs[0];
    var k := 0;
    assert fs[0..] == fs;
    while k < |fs|
      invariant k <= |fs| && fname[..last] == base && file == None
      invariant ext == fs[if k == 0 then 0 else k - 1]
      invariant FirstExisting(base, fs, present) == FirstExisting(base, fs[k..], present)
    {
      NextFallback(base, fs, k, present);
      ext := fs[k];
      file := TryOpen(fname, last, ext, present);
      if file.Some? { break; }
      k := k + 1;
    }
    if k == |fs| {
      NoFallbackLeft(base, fs, present);
    }
  }

  lemma NextFallback(base: string, fs: seq<string>, k: nat, present: string -> bool)
    requires k < |fs|
    ensures FirstExisting(base, fs[k..], present) ==
      if present(FileName(base, fs[k])) then Some(fs[k]) else FirstExisting(base, fs[k + 1..], present)
  {
    assert fs[k..][1..] == fs[k + 1..];
  }

  lemma NoFallbackLeft(base: string, fs: seq<string>, present: string -> bool)
    ensures FirstExisting(base, fs[|fs|..], present) == None
  {
  }

  // The stack of clauses: each entry is where in the buffer a clause begins.
  ghost predicate Stacked(butcher: seq<char>, commands: seq<nat>, count: nat, clauses: seq<string>, above: nat) {
    && count == |clauses| <= |commands|
    && forall k | 0 <= k < count :: above < commands[k] && Terminated(butcher, commands[k], clauses[k])
  }

  // Writing a terminator at or below `above` leaves the clauses on the stack.
  lemma StackStays(before: seq<char>, after: seq<char>, commands: seq<nat>, count: nat, clauses: seq<string>,
                   above: nat, cut: nat)
    requires Stacked(before, commands, count, clauses, above) && cut <= above
    requires cut < |before| == |after| && before[cut + 1..] == after[cut + 1..]
    ensures Stacked(after, commands, count, clauses, cut)
  {
    forall k | 0 <= k < count ensures Terminated(after, commands[k], clauses[k]) {
      var i, n := commands[k], |clauses[k]|;
      assert before[cut + 1..][i - cut - 1..i + n - cut - 1] == before[i..i + n];
      assert after[cut + 1..][i - cut - 1..i + n - cut - 1] == after[i..i + n];
      assert before[i + n] == before[cut + 1..][i + n - cut - 1];
    }
  }

  // Cut the last clause off at its underscore and push it.
  method CutClause(butcher: array<char>, commands: array<nat>, count: nat, last: nat, ghost clauses: seq<string>)
    returns (found: bool, cut: nat)
    requires last < butcher.Length && butcher[last] == '\0' && '\0' !in butcher[..last]
    requires LastAt(butcher[..last], '_') >= 0 ==> count < commands.Length
    requires Stacked(butcher[..], commands[..], count, clauses, last)
    modifies butcher, commands
    ensures found <==> LastAt(old(butcher[..last]), '_') >= 0
    ensures !found ==> butcher[..] == old(butcher[..]) && commands[..] == old(commands[..])
    ensures found ==> cut == LastAt(old(butcher[..last]), '_') < last && butcher[cut] == '\0'
    ensures found ==> butcher[..cut] == old(butcher[..last])[..cut]
    ensures found ==>
      Stacked(butcher[..], commands[..], count + 1, clauses + [old(butcher[..last])[cut + 1..]], cut)
  {
    hide Terminated;
    cut := FindBack(butcher, last, '_');
    found := butcher[cut] == '_';
    if found {
      ghost var before := butcher[..];
      butcher[cut] := '\0';
      StackStays(before, butcher[..], commands[..], count, clauses, last, cut);
      commands[count] := cut + 1;
      ClauseTerminated(before, butcher[..], last, cut);
    }
  }

  lemma ClauseTerminated(before: seq<char>, after: seq<char>, last: nat, cut: nat)
    requires cut < last < |before| == |after| && before[cut + 1..] == after[cut + 1..]
    requires before[last] == '\0' && '\0' !in before[..last]
    ensures Terminated(after, cut + 1, before[..last][cut + 1..])
  {
    var clause := before[..last][cut + 1..];
    assert after[cut + 1..last] == after[cut + 1..][..last - cut - 1] == clause;
    assert after[last] == after[cut + 1..][last - cut - 1];
  }

  // What is found when these clauses have been cut off already.
  function Behind(clauses: seq<string>, h: Hunted): (r: Hunted) {
    Hunted(h.file, h.base, clauses + h.clauses)
  }

  // One cut of the search.
  lemma HuntStep(s: string, e: string, file: Option<string>, present: string -> bool)
    ensures LastAt(s, '_') < 0 ==> Hunt(s, e, file, present) == Hunted(file, s, [])
    ensures LastAt(s, '_') >= 0 ==>
      var base, clause := s[..LastAt(s, '_')], s[LastAt(s, '_') + 1..];
      Hunt(s, e, file, present) ==
        if present(FileName(base, e)) then Hunted(Some(FileName(base, e)), base, [clause])
        else if Fallbacks(e) == [] then Hunted(None, base, [clause])
        else match FirstExisting(base, Fallbacks(e), present)
          case Some(x) => Behind([clause], Hunt(base, x, Some(FileName(base, x)), present))
          case None => Behind([clause], Hunt(base, Fallbacks(e)[|Fallbacks(e)| - 1], None, present))
  {
  }

  lemma BehindBoth(a: seq<string>, b: seq<string>, h: Hunted)
    ensures Behind(a, Behind(b, h)) == Behind(a + b, h)
  {
  }

  // How far the search has come: what is left to hunt for gives, together
  // with the clauses on the stack, the result of the whole hunt.
  ghost predicate Hunting(h: Hunted, stem: string, last: nat, pushed: seq<string>, file: Option<string>, e: string,
                          over: bool, present: string -> bool) {
    && last <= |stem|
    && (over ==> h == Hunted(file, stem[..last], pushed))
    && (!over ==> h == Behind(pushed, Hunt(stem[..last], e, file, present)) && ExtensionFits(e, last))
  }

  lemma NoMoreClauses(h: Hunted, stem: string, last: nat, pushed: seq<string>, file: Option<string>, e: string,
                      present: string -> bool)
    requires Hunting(h, stem, last, pushed, file, e, false, present) && LastAt(stem[..last], '_') < 0
    ensures Hunting(h, stem, last, pushed, file, e, true, present)
  {
    hide ExtensionFits;
  }

  lemma RoomOnStack(h: Hunted, stem: string, last: nat, pushed: seq<string>, file: Option<string>, e: string,
                    present: string -> bool)
    requires Hunting(h, stem, last, pushed, file, e, false, present) && LastAt(stem[..last], '_') >= 0
    ensures |pushed| < |h.clauses|
  {
    hide ExtensionFits, FileName, FirstExisting, Fallbacks;
    HuntStep(stem[..last], e, file, present);
  }

  lemma NextClause(h: Hunted, stem: string, last: nat, pushed: seq<string>, file: Option<string>, e: string,
                   cut: nat, found: Option<string>, next: string, over: bool, present: string -> bool)
    requires Hunting(h, stem, last, pushed, file, e, false, present) && cut == LastAt(stem[..last], '_')
    requires Tried(stem[..cut], e, present, found, next, over)
    ensures Hunting(h, stem, cut, pushed + [stem[..last][cut + 1..]], found, next, over, present)
  {
    hide Hunt, FileName, FirstExisting, Fallbacks, LastAt, Behind;
    var s, clause := stem[..last], stem[..last][cut + 1..];
    if !over {
      NextFits(stem[..cut], e, present, found, next, last, cut);
    }
    hide ExtensionFits;
    Prefixes(stem, last, cut);
    TriedIsHunted(s, e, file, cut, found, next, over, present);
    if over {
      BehindLast(pushed, Hunted(found, stem[..cut], [clause]));
    } else {
      BehindBoth(pushed, [clause], Hunt(stem[..cut], next, found, present));
    }
  }

  lemma BehindLast(pushed: seq<string>, h: Hunted)
    ensures Behind(pushed, h) == Hunted(h.file, h.base, pushed + h.clauses)
  {
  }

  lemma NextFits(base: string, e: string, present: string -> bool, found: Option<string>, next: string, last: nat, cut: nat)
    requires Tried(base, e, present, found, next, false) && ExtensionFits(e, last) && cut < last
    ensures ExtensionFits(next, cut)
  {
    hide FileName;
  }

  lemma TriedIsHunted(s: string, e: string, file: Option<string>, cut: nat, found: Option<string>, next: string,
                      over: bool, present: string -> bool)
    requires cut == LastAt(s, '_') && Tried(s[..cut], e, present, found, next, over)
    ensures Hunt(s, e, file, present) ==
      if over then Hunted(found, s[..cut], [s[cut + 1..]])
      else Behind([s[cut + 1..]], Hunt(s[..cut], next, found, present))
  {
    hide Hunt, FileName, FirstExisting, Fallbacks, LastAt, Behind;
    HuntStep(s, e, file, present);
  }

  // The buffers while the search goes on: the base ends at `last`, the clauses
  // cut off stand behind it.
  ghost predicate Searching(butcher: array<char>, fname: array<char>, commands: array<nat>, stem: string,
                            last: nat, count: nat, pushed: seq<string>)
    reads butcher, fname, commands
  {
    && butcher != fname && last <= |stem| && last < butcher.Length == fname.Length == PATH_MAX
    && butcher[last] == '\0' && '\0' !in stem && butcher[..last] == stem[..last] == fname[..last]
    && Stacked(butcher[..], commands[..], count, pushed, last) && count == |pushed|
  }

  // Cut one clause off, if there is one.
  method CutOne(butcher: array<char>, fname: array<char>, commands: array<nat>, last: nat, count: nat,
                ghost stem: string, ghost pushed: seq<string>)
    returns (found: bool, cut: nat)
    requires Searching(butcher, fname, commands, stem, last, count, pushed)
    requires LastAt(stem[..last], '_') >= 0 ==> count < commands.Length
    modifies butcher, commands
    ensures found <==> LastAt(stem[..last], '_') >= 0
    ensures !found ==> Searching(butcher, fname, commands, stem, last, count, pushed)
    ensures found ==> cut == LastAt(stem[..last], '_') < last
    ensures found ==>
      Searching(butcher, fname, commands, stem, cut, count + 1, pushed + [stem[..last][cut + 1..]])
  {
    hide Stacked, LastAt;
    found, cut := CutClause(butcher, commands, count, last, pushed);
    if found {
      Prefixes(stem, last, cut);
      assert fname[..cut] == fname[..last][..cut];
    }
  }

  lemma Prefixes(s: string, last: nat, cut: nat)
    requires cut <= last <= |s|
    ensures s[..last][..cut] == s[..cut]
  {
  }

  method CutAndTry(butcher: array<char>, fname: array<char>, commands: array<nat>, last: nat, count: nat,
                   file: Option<string>, e: string, present: string -> bool,
                   ghost stem: string, ghost pushed: seq<string>, ghost h: Hunted)
    returns (end: nat, got: Option<string>, next: string, over: bool, found: bool, ghost clauses: seq<string>)
    requires Searching(butcher, fname, commands, stem, last, count, pushed)
    requires Hunting(h, stem, last, pushed, file, e, false, present) && |h.clauses| <= commands.Length
    modifies butcher, fname, commands
    ensures end <= last && (end == last ==> over) && |clauses| == if found then count + 1 else count
    ensures Searching(butcher, fname, commands, stem, end, |clauses|, clauses)
    ensures Hunting(h, stem, end, clauses, got, next, over, present)
  {
    StackSize(butcher, fname, commands, stem, last, count, pushed);
    hide *;
    if LastAt(stem[..last], '_') >= 0 {
      RoomOnStack(h, stem, last, pushed, file, e, present);
    }
    FitsBelow(h, stem, last, pushed, file, e, present);
    var cut;
    found, cut := CutOne(butcher, fname, commands, last, count, stem, pushed);
    if found {
      clauses := pushed + [stem[..last][cut + 1..]];
      got, next, over := TryAt(butcher, fname, commands, cut, e, present, stem, last, count + 1, clauses);
      NextClause(h, stem, last, pushed, file, e, cut, got, next, over, present);
      end := cut;
    } else {
      NoMoreClauses(h, stem, last, pushed, file, e, present);
      end, got, next, over, clauses := last, file, e, true, pushed;
    }
  }

  // Open the files at the base that is left.
  method TryAt(butcher: array<char>, fname: array<char>, commands: array<nat>, cut: nat, e: string,
               present: string -> bool, ghost stem: string, ghost last: nat, ghost count: nat, ghost clauses: seq<string>)
    returns (got: Option<string>, next: string, over: bool)
    requires Searching(butcher, fname, commands, stem, cut, count, clauses) && cut < last && ExtensionFits(e, last)
    modifies fname
    ensures Searching(butcher, fname, commands, stem, cut, count, clauses)
    ensures Tried(stem[..cut], e, present, got, next, over)
  {
    hide Fallbacks, Stacked, Tried;
    got, next, over := TryFormats(fname, cut, e, present);
  }

  lemma StackSize(butcher: array<char>, fname: array<char>, commands: array<nat>, stem: string,
                  last: nat, count: nat, pushed: seq<string>)
    requires Searching(butcher, fname, commands, stem, last, count, pushed)
    ensures count == |pushed| && last <= |stem| && butcher != fname
  {
  }

  lemma FitsBelow(h: Hunted, stem: string, last: nat, pushed: seq<string>, file: Option<string>, e: string,
                  present: string -> bool)
    requires Hunting(h, stem, last, pushed, file, e, false, present)
    ensures ExtensionFits(e, last)
  {
  }

  method StripClauses(butcher: array<char>, fname: array<char>, commands: array<nat>, dot: nat, ext: string,
                      present: string -> bool)
    returns (file: Option<string>, count: nat)
    requires butcher != fname && butcher.Length == fname.Length == PATH_MAX
    requires dot < PATH_MAX && butcher[dot] == '\0' && '\0' !in butcher[..dot] && fname[..dot] == butcher[..dot]
    requires ExtensionFits(ext, dot)
    requires |Hunt(butcher[..dot], ext, None, present).clauses| <= commands.Length
    modifies butcher, fname, commands
    ensures var h := Hunt(old(butcher[..dot]), ext, None, present);
      file == h.file && Terminated(butcher[..], 0, h.base)
      && Stacked(butcher[..], commands[..], count, h.clauses, |h.base|)
  {
    ghost var stem, pushed := butcher[..dot], [];
    ghost var h := Hunt(stem, ext, None, present);
    var last: nat, e, over := dot, ext, false;
    HuntStarts(butcher[..], commands[..], h, stem, e, present);
    file, count := None, 0;
    assert Searching(butcher, fname, commands, stem, last, count, pushed);
    hide *;
    while !over
      invariant Searching(butcher, fname, commands, stem, last, count, pushed) && count == |pushed|
      invariant Hunting(h, stem, last, pushed, file, e, over, present)
      decreases if over then 0 else last + 1
    {
      var found;
      last, file, e, over, found, pushed :=
        CutAndTry(butcher, fname, commands, last, count, file, e, present, stem, pushed, h);
      count := if found then count + 1 else count;
    }
    HuntEnds(butcher, fname, commands, h, stem, last, count, pushed, file, e, present);
  }

  lemma HuntStarts(butcher: seq<char>, commands: seq<nat>, h: Hunted, stem: string, e: string, present: string -> bool)
    requires h == Hunt(stem, e, None, present) && ExtensionFits(e, |stem|)
    ensures Stacked(butcher, commands, 0, [], |stem|)
    ensures Hunting(h, stem, |stem|, [], None, e, false, present)
  {
    hide Hunt;
    assert stem[..|stem|] == stem;
  }

  lemma HuntEnds(butcher: array<char>, fname: array<char>, commands: array<nat>, h: Hunted, stem: string, last: nat,
                 count: nat, pushed: seq<string>, file: Option<string>, e: string, present: string -> bool)
    requires Searching(butcher, fname, commands, stem, last, count, pushed)
    requires Hunting(h, stem, last, pushed, file, e, true, present)
    ensures h.file == file && h.clauses == pushed && Terminated(butcher[..], 0, h.base)
    ensures Stacked(butcher[..], commands[..], count, h.clauses, |h.base|)
  {
  }

  // Cut the requested name apart until a file is found.
  method FindFile(name: string, present: string -> bool)
    returns (file: Option<string>, butcher: array<char>, commands: array<nat>, count: nat)
    requires |name| < PATH_MAX && '\0' !in name
    requires |Request(name, present).clauses| <= MAX_DIRECTIVES
    ensures var h := Request(name, present);
      file == h.file && TextAt(butcher[..], 0) == h.base && Stacked(butcher[..], commands[..], count, h.clauses, |h.base|)
  {
    RequestCases(name, present);
    hide *;
    var fname;
    butcher, fname := NameInBuffers(name);
    commands, count := new nat[MAX_DIRECTIVES], 0;
    NothingStacked(butcher[..], commands[..], |name|);
    file := if present(name) then Some(name) else None;
    if file.Some? { return; }
    var found, dot := EndStem(butcher, fname, name);
    if !found { return; }
    DotFits(name, dot);
    file, count := StripClauses(butcher, fname, commands, dot, name[dot + 1..], present);
    TextOfTerminated(butcher[..], 0, Request(name, present).base);
  }

  lemma RequestCases(name: string, present: string -> bool)
    ensures present(name) ==> Request(name, present) == Hunted(Some(name), name, [])
    ensures !present(name) && LastAt(name, '.') < 0 ==> Request(name, present) == Hunted(None, name, [])
    ensures !present(name) && LastAt(name, '.') >= 0 ==>
      Request(name, present) == Hunt(name[..LastAt(name, '.')], name[LastAt(name, '.') + 1..], None, present)
  {
    hide Hunt;
  }

  // Put the terminator over the last dot.
  method EndStem(butcher: array<char>, fname: array<char>, name: string) returns (found: bool, dot: nat)
    requires |name| < butcher.Length == fname.Length && butcher != fname && '\0' !in name
    requires butcher[..|name|] == name == fname[..|name|] && butcher[|name|] == '\0'
    modifies butcher
    ensures found <==> LastAt(name, '.') >= 0
    ensures !found ==> butcher[..] == old(butcher[..])
    ensures found ==> dot == LastAt(name, '.') && butcher[dot] == '\0' && butcher[..dot] == name[..dot] == fname[..dot]
  {
    hide LastAt;
    dot := FindBack(butcher, |name|, '.');
    found := butcher[dot] == '.';
    if found {
      butcher[dot] := '\0';
      assert butcher[..dot] == old(butcher[..|name|])[..dot] && fname[..dot] == fname[..|name|][..dot];
    }
  }

  lemma NothingStacked(butcher: seq<char>, commands: seq<nat>, above: nat)
    ensures Stacked(butcher, commands, 0, [], above)
  {
  }

  // strcpy of the name to both buffers
  method NameInBuffers(name: string) returns (butcher: array<char>, fname: array<char>)
    requires |name| < PATH_MAX && '\0' !in name
    ensures fresh(butcher) && fresh(fname) && butcher != fname && butcher.Length == fname.Length == PATH_MAX
    ensures butcher[..|name|] == name == fname[..|name|] && butcher[|name|] == '\0'
    ensures TextAt(butcher[..], 0) == name
  {
    butcher, fname := new char[PATH_MAX], new char[PATH_MAX];
    StrCpy(fname, 0, name);
    StrCpy(butcher, 0, name);
    TextOfTerminated(butcher[..], 0, name);
  }

  lemma DotFits(name: string, dot: nat)
    requires dot < |name| < PATH_MAX && '\0' !in name
    ensures ExtensionFits(name[dot + 1..], dot)
  {
    hide Fallbacks;
  }

  // ---------- The replay ---------------------------------------------------------------

  function Reversed(c: seq<string>): (r: seq<string>)
    ensures |r| == |c|
  {
    if c == [] then [] else Reversed(c[1..]) + [c[0]]
  }

  // The name from left to right: base, then each clause behind an underscore.
  function InOrder(base: string, clauses: seq<string>): (s: string) {
    if clauses == [] then base
    else InOrder(base, clauses[..|clauses| - 1]) + "_" + clauses[|clauses| - 1]
  }

  lemma {:induction false} RejoinedInOrder(base: string, clauses: seq<string>)
    ensures InOrder(base, Reversed(clauses)) == Rejoin(base, clauses)
  {
    if clauses != [] {
      RejoinedInOrder(base, clauses[1..]);
      assert Reversed(clauses)[..|clauses| - 1] == Reversed(clauses[1..]);
    }
  }

  lemma {:induction false} ReversedUpTo(c: seq<string>, k: nat)
    requires k < |c|
    ensures Reversed(c[k..]) == Reversed(c[k + 1..]) + [c[k]]
  {
    assert c[k..][1..] == c[k + 1..];
  }

  // From the top of the stack to the bottom.
  method Replay(butcher: array<char>, commands: array<nat>, count: nat, ghost clauses: seq<string>, ghost above: nat)
    returns (visited: seq<string>)
    requires Stacked(butcher[..], commands[..], count, clauses, above)
    ensures visited == Reversed(clauses)
  {
    visited := [];
    var p := count - 1;
    while p + 1 != 0
      invariant -1 <= p < count && visited == Reversed(clauses[p + 1..])
      decreases p + 1
    {
      TextOfTerminated(butcher[..], commands[p], clauses[p]);
      ReversedUpTo(clauses, p);
      visited := visited + [TextAt(butcher[..], commands[p])];
      p := p - 1;
    }
  }

  // The directives of a request that is served with some are those of its
  // name, from left to right, and together with the base they are all of it.
  method ShowImage(name: string, present: string -> bool) returns (file: Option<string>, base: string, visited: seq<string>)
    requires |name| < PATH_MAX && '\0' !in name
    requires |Request(name, present).clauses| <= MAX_DIRECTIVES
    ensures file == Request(name, present).file
    ensures file.Some? ==> present(file.value)
    ensures file.Some? && present(name) ==> file.value == base == name && visited == []
    ensures file.Some? && !present(name) ==> LastAt(name, '.') >= 0 && base + "." <= file.value
    ensures file.Some? && !present(name) ==> InOrder(base, visited) == name[..LastAt(name, '.')]
    ensures forall c | c in visited :: '_' !in c
  {
    var butcher, commands, count;
    file, butcher, commands, count := FindFile(name, present);
    ghost var h := Request(name, present);
    RequestConserves(name, present);
    base, visited := TextAt(butcher[..], 0), [];
    if file.Some? {
      visited := Replay(butcher, commands, count, h.clauses, |h.base|);
      RejoinedInOrder(base, h.clauses);
      SameMembers(h.clauses);
    }
  }

  lemma {:induction false} SameMembers(c: seq<string>)
    ensures forall x :: x in Reversed(c) <==> x in c
  {
    if c != [] {
      SameMembers(c[1..]);
      assert forall x :: x in c <==> x == c[0] || x in c[1..];
    }
  }

  lemma RequestConserves(name: string, present: string -> bool)
    ensures var h := Request(name, present);
      && (forall c | c in h.clauses :: '_' !in c)
      && (h.file.Some? ==> present(h.file.value))
      && (h.file.Some? && present(name) ==> h == Hunted(Some(name), name, []))
      && (h.file.Some? && !present(name) ==> LastAt(name, '.') >= 0 && h.base + "." <= h.file.value)
      && (h.file.Some? && !present(name) ==> Rejoin(h.base, h.clauses) == name[..LastAt(name, '.')])
  {
    hide Hunt;
    var dot := LastAt(name, '.');
    if dot >= 0 {
      HuntConserves(name[..dot], name[dot + 1..], None, present);
      FoundAtTheBase(name[..dot], name[dot + 1..], None, present);
    }
  }
}
