// What the search for an image comes to: the requested name is cut apart from
// the right until a file is found, in any file system.

module DirectiveSearch {
  import opened Common

  // ---------- Formats --------------------------------------------------------

  // The table of formats, and the formats that each of them falls back on;
  // none for an extension that is not in the table.
  const FORMATS: seq<string> := ["jpg", "png", "gif", "jpeg", "bmp"]

  function Fallbacks(e: string): (f: seq<string>)
    ensures f != [] ==> |e| >= 3
    ensures forall x | x in f :: 3 <= |x| <= 4 && '\0' !in x
  {
    if e == "jpg" then ["png", "gif", "bmp", "jpeg", "tga", "tiff"]
    else if e == "png" then ["gif", "bmp", "jpg", "jpeg", "tiff"]
    else if e == "gif" then ["png", "bmp", "jpg", "jpeg"]
    else if e == "jpeg" then ["jpg", "png", "bmp", "gif", "tga", "tiff"]
    else if e == "bmp" then ["png", "jpg", "gif", "jpeg"]
    else []
  }

  // ---------- What is looked for ------------------------------------------------

  function FileName(base: string, e: string): (f: string) { base + "." + e }

  // The place of the last c, or -1.
  function LastAt(s: string, c: char): (i: int)
    ensures -1 <= i < |s| && (i >= 0 ==> s[i] == c) && forall k | i < k < |s| :: s[k] != c
  {
    if s == "" then -1
    else if s[|s| - 1] == c then |s| - 1
    else LastAt(s[..|s| - 1], c)
  }

  function FirstExisting(base: string, fs: seq<string>, present: string -> bool): (e: Option<string>)
    ensures e.Some? ==> e.value in fs && present(FileName(base, e.value))
    ensures e.None? <==> forall x | x in fs :: !present(FileName(base, x))
  {
    if fs == [] then None
    else if present(FileName(base, fs[0])) then Some(fs[0])
    else FirstExisting(base, fs[1..], present)
  }

  // The first of them, in their order.
  lemma {:induction false} NoneExistsBefore(base: string, fs: seq<string>, present: string -> bool) returns (k: nat)
    requires FirstExisting(base, fs, present).Some?
    ensures k < |fs| && fs[k] == FirstExisting(base, fs, present).value
    ensures forall j | 0 <= j < k :: !present(FileName(base, fs[j]))
    decreases |fs|
  {
    if present(FileName(base, fs[0])) {
      k := 0;
    } else {
      var i := NoneExistsBefore(base, fs[1..], present);
      k := i + 1;
      assert forall j | 0 < j < k :: fs[j] == fs[1..][j - 1];
    }
  }

  // The file found, what is left of the name, and the clauses in the order in
  // which they were cut off.
  datatype Hunted = Hunted(file: Option<string>, base: string, clauses: seq<string>)

  // Cut a clause off the stem s and try the extension e, then its fallbacks.
  // A fallback that is found does not end the search while there is more to
  // cut; without one the last that was tried becomes the extension.
  function Hunt(s: string, e: string, file: Option<string>, present: string -> bool): (h: Hunted)
    decreases |s|
  {
    var cut := LastAt(s, '_');
    if cut < 0 then Hunted(file, s, [])
    else
      var base, clause := s[..cut], s[cut + 1..];
      if present(FileName(base, e)) then Hunted(Some(FileName(base, e)), base, [clause])
      else if Fallbacks(e) == [] then Hunted(None, base, [clause])
      else
        var h := match FirstExisting(base, Fallbacks(e), present)
          case Some(x) => Hunt(base, x, Some(FileName(base, x)), present)
          case None => Hunt(base, Fallbacks(e)[|Fallbacks(e)| - 1], None, present);
        Hunted(h.file, h.base, [clause] + h.clauses)
  }

  // The whole request: the name itself, or what is found by cutting.
  function Request(name: string, present: string -> bool): (h: Hunted) {
    var dot := LastAt(name, '.');
    if present(name) then Hunted(Some(name), name, [])
    else if dot < 0 then Hunted(None, name, [])
    else Hunt(name[..dot], name[dot + 1..], None, present)
  }

  // ---------- Nothing of the name is lost ------------------------------------------

  // The clauses behind the base, the last one cut off first.
  function Rejoin(base: string, clauses: seq<string>): (s: string) {
    if clauses == [] then base
    else Rejoin(base, clauses[1..]) + "_" + clauses[0]
  }

  lemma {:induction false} HuntConserves(s: string, e: string, file: Option<string>, present: string -> bool)
    ensures var h := Hunt(s, e, file, present);
      Rejoin(h.base, h.clauses) == s && forall c | c in h.clauses :: '_' !in c
    decreases |s|
  {
    var cut := LastAt(s, '_');
    if cut >= 0 {
      var base, clause := s[..cut], s[cut + 1..];
      assert s == base + "_" + clause;
      var h := Hunt(s, e, file, present);
      if !present(FileName(base, e)) && Fallbacks(e) != [] {
        match FirstExisting(base, Fallbacks(e), present)
        case Some(x) => HuntConserves(base, x, Some(FileName(base, x)), present);
        case None => HuntConserves(base, Fallbacks(e)[|Fallbacks(e)| - 1], None, present);
        assert h.clauses[1..] == Hunt(s, e, file, present).clauses[1..];
      }
    }
  }

  function Count(s: string, c: char): (n: nat) {
    if s == "" then 0 else Count(s[..|s| - 1], c) + if s[|s| - 1] == c then 1 else 0
  }

  // A name with few enough clauses does not overflow the stack.
  lemma {:induction false} ClausesAreUnderscores(s: string, e: string, file: Option<string>, present: string -> bool)
    ensures |Hunt(s, e, file, present).clauses| <= Count(s, '_')
    decreases |s|
  {
    var cut := LastAt(s, '_');
    if cut >= 0 {
      CountFromLast(s, '_');
      var base := s[..cut];
      if !present(FileName(base, e)) && Fallbacks(e) != [] {
        match FirstExisting(base, Fallbacks(e), present)
        case Some(x) => ClausesAreUnderscores(base, x, Some(FileName(base, x)), present);
        case None => ClausesAreUnderscores(base, Fallbacks(e)[|Fallbacks(e)| - 1], None, present);
      }
    }
  }

  lemma {:induction false} CountFromLast(s: string, c: char)
    requires LastAt(s, c) >= 0
    ensures Count(s, c) == Count(s[..LastAt(s, c)], c) + 1
  {
    if s[|s| - 1] != c {
      CountFromLast(s[..|s| - 1], c);
      assert s[..|s| - 1][..LastAt(s, c)] == s[..LastAt(s, c)];
    }
  }

  // A file that is found is there, and its name is what is left of the stem
  // with the extension asked for or one of a fallback.
  lemma {:induction false} FoundAtTheBase(s: string, e: string, file: Option<string>, present: string -> bool)
    requires file.Some? ==> file.value == FileName(s, e) && present(file.value)
    ensures var h := Hunt(s, e, file, present);
      h.file.Some? ==> present(h.file.value) && h.base + "." <= h.file.value
    decreases |s|
  {
    var cut := LastAt(s, '_');
    if cut >= 0 {
      var base := s[..cut];
      if !present(FileName(base, e)) && Fallbacks(e) != [] {
        match FirstExisting(base, Fallbacks(e), present)
        case Some(x) => FoundAtTheBase(base, x, Some(FileName(base, x)), present);
        case None => FoundAtTheBase(base, Fallbacks(e)[|Fallbacks(e)| - 1], None, present);
      }
    }
  }

  // ---------- When the original is found ---------------------------------------------

  // The extensions that are tried at the n-th cut, when nothing was found at
  // the cuts before it.
  function Tries(e: string, n: nat): (t: seq<string>)
    decreases n
  {
    if n == 0 then []
    else if n == 1 then [e] + Fallbacks(e)
    else if Fallbacks(e) == [] then []
    else Tries(Fallbacks(e)[|Fallbacks(e)| - 1], n - 1)
  }

  predicate PlainClauses(clauses: seq<string>) {
    forall i | 0 <= i < |clauses| :: '_' !in clauses[i]
  }

  // What is left of the name when k clauses have been cut off.
  function AtCut(original: string, clauses: seq<string>, k: nat): (base: string)
    requires k <= |clauses|
  {
    Rejoin(original, clauses[k..])
  }

  // One of the extensions that would be tried at the k-th cut is there.
  ghost predicate HitAt(original: string, clauses: seq<string>, e: string, k: nat, present: string -> bool)
    requires k <= |clauses|
  {
    exists x :: x in Tries(e, k) && present(FileName(AtCut(original, clauses, k), x))
  }

  ghost predicate NoHitBefore(original: string, clauses: seq<string>, e: string, n: nat, present: string -> bool)
    requires n <= |clauses|
  {
    forall k: nat | 0 < k < n :: !HitAt(original, clauses, e, k, present)
  }

  // What the search comes to when the extensions `tries` are tried at a base.
  ghost function FoundAt(base: string, tries: seq<string>, present: string -> bool): (file: Option<string>) {
    if tries == [] then None
    else if present(FileName(base, tries[0])) then Some(FileName(base, tries[0]))
    else if Fallbacks(tries[0]) == [] then None
    else match FirstExisting(base, Fallbacks(tries[0]), present)
      case Some(x) => Hunt(base, x, Some(FileName(base, x)), present).file
      case None => Hunt(base, Fallbacks(tries[0])[|Fallbacks(tries[0])| - 1], None, present).file
  }

  // For every file system: the cuts at which nothing is found only change the
  // extension, so the first cut with a hit decides.
  lemma {:induction false} FirstHitDecides(original: string, clauses: seq<string>, e: string, n: nat,
                                           present: string -> bool)
    requires PlainClauses(clauses) && 0 < n <= |clauses| && NoHitBefore(original, clauses, e, n, present)
    ensures Hunt(Rejoin(original, clauses), e, None, present).file
         == FoundAt(AtCut(original, clauses, n), Tries(e, n), present)
    decreases n
  {
    hide Hunt, Fallbacks, FileName, HitAt;
    var rest := clauses[1..];
    var base := Rejoin(original, rest);
    CutOff(base, clauses[0], e, present);
    if n > 1 {
      MissedAt(original, clauses, e, present);
      if Fallbacks(e) != [] {
        var next := Fallbacks(e)[|Fallbacks(e)| - 1];
        LaterCuts(original, clauses, e, next, n, present);
        FirstHitDecides(original, rest, next, n - 1, present);
        assert rest[n - 1..] == clauses[n..];
      } else {
        NoTries(e, n);
      }
    }
  }

  lemma NoTries(e: string, n: nat)
    requires Fallbacks(e) == [] && n > 1
    ensures Tries(e, n) == []
  {
  }

  // Nothing found at the first cut.
  lemma MissedAt(original: string, clauses: seq<string>, e: string, present: string -> bool)
    requires |clauses| > 0 && !HitAt(original, clauses, e, 1, present)
    ensures !present(FileName(Rejoin(original, clauses[1..]), e))
    ensures FirstExisting(Rejoin(original, clauses[1..]), Fallbacks(e), present) == None
  {
    hide Fallbacks, FileName;
    assert e in Tries(e, 1);
    assert forall x | x in Fallbacks(e) :: x in Tries(e, 1);
  }

  lemma LaterCuts(original: string, clauses: seq<string>, e: string, next: string, n: nat, present: string -> bool)
    requires 1 < n <= |clauses| && NoHitBefore(original, clauses, e, n, present)
    requires Fallbacks(e) != [] && next == Fallbacks(e)[|Fallbacks(e)| - 1]
    ensures NoHitBefore(original, clauses[1..], next, n - 1, present)
    ensures Tries(next, n - 1) == Tries(e, n)
  {
    hide Fallbacks, FileName;
    forall k: nat | 0 < k < n - 1
      ensures !HitAt(original, clauses[1..], next, k, present)
    {
      assert !HitAt(original, clauses, e, k + 1, present);
      assert clauses[1..][k..] == clauses[k + 1..];
      assert Tries(next, k) == Tries(e, k + 1);
    }
  }

  lemma CutOff(base: string, clause: string, e: string, present: string -> bool)
    requires '_' !in clause
    ensures Hunt(base + "_" + clause, e, None, present).file == FoundAt(base, [e] + Fallbacks(e), present)
  {
    hide FileName, Fallbacks, FirstExisting;
    var s := base + "_" + clause;
    assert forall k | |base| < k < |s| :: s[k] == clause[k - |base| - 1];
    assert s[|base|] == '_';
    assert LastAt(s, '_') == |base|;
    assert s[..|base|] == base;
  }

  // At the original there is nothing more to cut: the first extension that is
  // there is served.
  lemma FoundAtOriginal(original: string, e: string, n: nat, present: string -> bool)
    requires '_' !in original && n > 0
    ensures var found := FirstExisting(original, Tries(e, n), present);
      FoundAt(original, Tries(e, n), present)
        == if found.Some? then Some(FileName(original, found.value)) else None
  {
    TriesAre(e, n);
    var tries := Tries(e, n);
    hide Tries, Fallbacks, FileName;
    assert tries != [] ==> tries[1..] == Fallbacks(tries[0]);
    assert forall x, file :: Hunt(original, x, file, present).file == file;
  }

  lemma {:induction false} TriesAre(e: string, n: nat)
    requires n > 0
    ensures Tries(e, n) != [] ==> Tries(e, n) == [Tries(e, n)[0]] + Fallbacks(Tries(e, n)[0])
    decreases n
  {
    hide Fallbacks;
    if n > 1 && Fallbacks(e) != [] {
      TriesAre(Fallbacks(e)[|Fallbacks(e)| - 1], n - 1);
    }
  }

  // Further left, the requested extension ends the search with that file.  A
  // fallback does not: the file is forgotten and the search goes on from there
  // as if the fallback had been asked for.
  lemma FoundBeforeOriginal(base: string, e: string, n: nat, present: string -> bool)
    requires '_' in base && n > 0 && Tries(e, n) != []
    ensures var c := Tries(e, n)[0];
      && (present(FileName(base, c)) ==> FoundAt(base, Tries(e, n), present) == Some(FileName(base, c)))
      && (!present(FileName(base, c)) ==> match FirstExisting(base, Fallbacks(c), present)
            case Some(x) => FoundAt(base, Tries(e, n), present) == Hunt(base, x, None, present).file
            case None => true)
  {
    hide Tries, FirstExisting;
    assert LastAt(base, '_') >= 0;
  }

  // A name without a dot is served only as it stands.
  lemma NoExtension(name: string, present: string -> bool)
    requires '.' !in name
    ensures Request(name, present) == Hunted(if present(name) then Some(name) else None, name, [])
  {
  }

  // The request for a file name with these clauses in front of its extension.
  function Chained(original: string, clauses: seq<string>, e: string): (name: string) {
    FileName(Rejoin(original, clauses), e)
  }

  lemma RequestIsHunt(s: string, e: string, present: string -> bool)
    requires '.' !in e && !present(FileName(s, e))
    ensures Request(FileName(s, e), present) == Hunt(s, e, None, present)
  {
    hide Hunt;
    var name := FileName(s, e);
    assert forall k | |s| < k < |name| :: name[k] == e[k - |s| - 1];
    assert name[|s|] == '.';
    assert LastAt(name, '.') == |s|;
    assert name[..|s|] == s && name[|s| + 1..] == e;
  }

  // The documentation promises that the original is found through any chain
  // of directives and through the fallbacks of its format.  In every file
  // system in which the file asked for is missing and no cut before the last
  // has a hit, the original is found exactly when it is there with one of the
  // extensions that are tried at the last cut, and the first of them is served.
  lemma OriginalIsFoundIff(original: string, clauses: seq<string>, e: string, present: string -> bool)
    requires '_' !in original && PlainClauses(clauses) && clauses != [] && '.' !in e
    requires !present(Chained(original, clauses, e))
    requires NoHitBefore(original, clauses, e, |clauses|, present)
    ensures var found := FirstExisting(original, Tries(e, |clauses|), present);
      Request(Chained(original, clauses, e), present).file
        == if found.Some? then Some(FileName(original, found.value)) else None
    ensures Request(Chained(original, clauses, e), present).file.Some?
       <==> HitAt(original, clauses, e, |clauses|, present)
  {
    hide Hunt, Tries, Fallbacks, FileName;
    RequestIsHunt(Rejoin(original, clauses), e, present);
    FirstHitDecides(original, clauses, e, |clauses|, present);
    assert clauses[|clauses|..] == [];
    FoundAtOriginal(original, e, |clauses|, present);
  }

  // A hit at an earlier cut: the requested extension, or the one that stands
  // for it at that cut, is served from there; a fallback takes its place for
  // the cuts that are left, and the file itself is not served.
  lemma EarlierHitDecides(original: string, clauses: seq<string>, e: string, n: nat, present: string -> bool)
    requires PlainClauses(clauses) && 0 < n < |clauses| && '.' !in e
    requires !present(Chained(original, clauses, e))
    requires NoHitBefore(original, clauses, e, n, present) && HitAt(original, clauses, e, n, present)
    ensures Tries(e, n) != []
    ensures var base, c := AtCut(original, clauses, n), Tries(e, n)[0];
      var found := FirstExisting(base, Fallbacks(c), present);
      if present(FileName(base, c)) then
        Request(Chained(original, clauses, e), present).file == Some(FileName(base, c))
      else
        found.Some? && Request(Chained(original, clauses, e), present).file == Hunt(base, found.value, None, present).file
  {
    var base := AtCut(original, clauses, n);
    RequestIsHunt(Rejoin(original, clauses), e, present);
    FirstHitDecides(original, clauses, e, n, present);
    TriesAre(e, n);
    hide Hunt, Tries, Fallbacks, FileName;
    var x :| x in Tries(e, n) && present(FileName(base, x));
    assert x == Tries(e, n)[0] || x in Fallbacks(Tries(e, n)[0]);
    HasUnderscore(original, clauses[n..]);
    FoundBeforeOriginal(base, e, n, present);
  }

  lemma HasUnderscore(original: string, clauses: seq<string>)
    requires clauses != []
    ensures '_' in Rejoin(original, clauses)
  {
    var s := Rejoin(original, clauses[1..]);
    assert Rejoin(original, clauses)[|s|] == '_';
  }

  ghost predicate OnlyFile(file: string, present: string -> bool) {
    forall x :: present(x) <==> x == file
  }

  lemma AnotherName(original: string, f: string, clauses: seq<string>, x: string)
    requires clauses != []
    ensures FileName(Rejoin(original, clauses), x) != FileName(original, f)
  {
    StartsWithOriginal(original, clauses);
    assert FileName(Rejoin(original, clauses), x)[|original|] == '_';
    assert FileName(original, f)[|original|] == '.';
  }

  lemma {:induction false} StartsWithOriginal(original: string, clauses: seq<string>)
    ensures original <= Rejoin(original, clauses)
    ensures clauses != [] ==> original + "_" <= Rejoin(original, clauses)
  {
    if clauses != [] {
      StartsWithOriginal(original, clauses[1..]);
    }
  }

  // With the original alone in the file system there are no earlier hits.
  lemma OriginalAlone(original: string, f: string, clauses: seq<string>, e: string, present: string -> bool)
    requires clauses != [] && OnlyFile(FileName(original, f), present)
    ensures !present(Chained(original, clauses, e)) && NoHitBefore(original, clauses, e, |clauses|, present)
    ensures forall x :: present(FileName(original, x)) <==> x == f
  {
    hide Tries, FileName, Rejoin;
    AnotherName(original, f, clauses, e);
    forall k: nat, x | 0 < k < |clauses|
      ensures !present(FileName(AtCut(original, clauses, k), x))
    {
      AnotherName(original, f, clauses[k..], x);
    }
    forall x ensures present(FileName(original, x)) <==> x == f {
      SameExtension(original, x, f);
    }
  }

  lemma SameExtension(base: string, x: string, y: string)
    ensures FileName(base, x) == FileName(base, y) <==> x == y
  {
    assert FileName(base, x)[|base| + 1..] == x && FileName(base, y)[|base| + 1..] == y;
  }

  // The nearest ancestor is there in a fallback format, but with one more
  // clause to cut it is forgotten, and nothing is served.
  lemma NearestIsForgotten(original: string, near: string, far: string, e: string, x: string, present: string -> bool)
    requires '_' !in original && '_' !in near && '_' !in far && '.' !in e
    requires x in Fallbacks(e) && x != e && OnlyFile(FileName(original + "_" + near, x), present)
    ensures Request(FileName(original + "_" + near + "_" + far, e), present).file == None
  {
    var base := original + "_" + near;
    OnlyAt(base, x, present);
    DifferentBase(base, far, e, x);
    hide *;
    RequestIsHunt(base + "_" + far, e, present);
    CutOff(base, far, e, present);
    FallbackTakesOver(original, near, e, x, present);
    SearchFromNearest(original, near, x, present);
  }

  lemma FallbackTakesOver(original: string, near: string, e: string, x: string, present: string -> bool)
    requires x in Fallbacks(e) && x != e
    requires forall y :: present(FileName(original + "_" + near, y)) <==> y == x
    ensures FoundAt(original + "_" + near, [e] + Fallbacks(e), present)
         == Hunt(original + "_" + near, x, None, present).file
  {
    hide Fallbacks, FileName;
    var base := original + "_" + near;
    assert base[|original|] == '_';
    assert ([e] + Fallbacks(e))[0] == e;
    assert FirstExisting(base, Fallbacks(e), present) == Some(x);
    SameFile(base, x, present);
  }

  // The file found so far plays no part while there is something to cut.
  lemma SameFile(s: string, e: string, present: string -> bool)
    requires '_' in s
    ensures forall file :: Hunt(s, e, file, present) == Hunt(s, e, None, present)
  {
    assert LastAt(s, '_') >= 0;
  }

  lemma SearchFromNearest(original: string, near: string, x: string, present: string -> bool)
    requires '_' !in original && '_' !in near && OnlyFile(FileName(original + "_" + near, x), present)
    ensures Hunt(original + "_" + near, x, None, present).file == None
  {
    forall y ensures !present(FileName(original, y)) {
      DifferentBase(original, near, x, y);
    }
    CutOff(original, near, x, present);
    NothingAt(original, x, present);
  }

  lemma OnlyAt(base: string, x: string, present: string -> bool)
    requires OnlyFile(FileName(base, x), present)
    ensures forall y :: present(FileName(base, y)) <==> y == x
  {
    forall y ensures present(FileName(base, y)) <==> y == x {
      SameExtension(base, x, y);
    }
  }

  lemma DifferentBase(base: string, clause: string, x: string, y: string)
    ensures FileName(base + "_" + clause, x) != FileName(base, y)
  {
    assert FileName(base + "_" + clause, x)[|base|] == '_';
    assert FileName(base, y)[|base|] == '.';
  }

  lemma NothingAt(base: string, e: string, present: string -> bool)
    requires '_' !in base && forall y :: !present(FileName(base, y))
    ensures FoundAt(base, [e] + Fallbacks(e), present) == None
  {
    hide Fallbacks, FileName;
    assert forall x :: Hunt(base, x, None, present).file == None;
  }

  predicate FallsBackToTiff(e: string) { e == "jpg" || e == "png" || e == "jpeg" }

  predicate FallsBackToJpeg(e: string) { e == "gif" || e == "bmp" }

  // What is tried at the first cut: the extension itself, and then these.
  lemma TriesAtFirstCut(e: string)
    ensures Tries(e, 1) == [e] + Fallbacks(e)
    ensures e == "jpg" ==> Fallbacks(e) == ["png", "gif", "bmp", "jpeg", "tga", "tiff"]
    ensures e == "png" ==> Fallbacks(e) == ["gif", "bmp", "jpg", "jpeg", "tiff"]
    ensures e == "gif" ==> Fallbacks(e) == ["png", "bmp", "jpg", "jpeg"]
    ensures e == "jpeg" ==> Fallbacks(e) == ["jpg", "png", "bmp", "gif", "tga", "tiff"]
    ensures e == "bmp" ==> Fallbacks(e) == ["png", "jpg", "gif", "jpeg"]
    ensures e != "jpg" && e != "png" && e != "gif" && e != "jpeg" && e != "bmp" ==> Fallbacks(e) == []
  {
    if e == "jpg" {
    } else if e == "png" {
    } else if e == "gif" {
    } else if e == "jpeg" {
    } else if e == "bmp" {
    }
  }

  lemma BehindJpeg()
    ensures ["jpeg"] + Fallbacks("jpeg") == ["jpeg", "jpg", "png", "bmp", "gif", "tga", "tiff"]
  {
  }

  // What this comes to, extension by extension: behind the first cut, only
  // the formats whose last fallback is listed itself are looked for again.
  lemma TriesByCuts(e: string, n: nat)
    requires n >= 2
    ensures Tries(e, n) ==
      if FallsBackToTiff(e) && n == 2 then ["tiff"]
      else if FallsBackToJpeg(e) && n == 2 then ["jpeg", "jpg", "png", "bmp", "gif", "tga", "tiff"]
      else if FallsBackToJpeg(e) && n == 3 then ["tiff"]
      else []
  {
    BehindJpeg();
    LastFallbacks(e);
    LastFallbacks("jpeg");
    LastFallbacks("tiff");
    hide Fallbacks;
    if FallsBackToJpeg(e) {
      hide FallsBackToJpeg, FallsBackToTiff;
      NextTries(e, n);
      NextTries("jpeg", n - 1);
      TiffIsTheEnd(n - 1);
    } else if FallsBackToTiff(e) {
      hide FallsBackToJpeg, FallsBackToTiff;
      NextTries(e, n);
      TiffIsTheEnd(n - 1);
    }
  }

  lemma NextTries(e: string, n: nat)
    requires n >= 1 && Fallbacks(e) != []
    ensures Tries(e, n) ==
      if n == 1 then [e] + Fallbacks(e) else Tries(Fallbacks(e)[|Fallbacks(e)| - 1], n - 1)
  {
    hide Fallbacks;
  }

  lemma TiffIsTheEnd(n: nat)
    requires n > 0
    ensures Tries("tiff", n) == if n == 1 then ["tiff"] else []
    ensures n > 1 ==> Tries("tiff", n - 1) == if n == 2 then ["tiff"] else []
  {
    LastFallbacks("tiff");
    hide Fallbacks;
  }

  lemma LastFallbacks(e: string)
    ensures Fallbacks(e) == [] <==> !FallsBackToTiff(e) && !FallsBackToJpeg(e)
    ensures FallsBackToTiff(e) ==> Fallbacks(e)[|Fallbacks(e)| - 1] == "tiff"
    ensures FallsBackToJpeg(e) ==> Fallbacks(e)[|Fallbacks(e)| - 1] == "jpeg"
  {
    if e == "jpg" {
    } else if e == "png" {
    } else if e == "gif" {
    } else if e == "jpeg" {
    } else if e == "bmp" {
    }
  }

  // So the documentation's own example of a chain, a request for png behind
  // three directives with only the bmp there, is not served.
  lemma ChainingExampleIsNotServed(present: string -> bool)
    requires OnlyFile(FileName("myfile", "bmp"), present)
    ensures Request(Chained("myfile", EXAMPLE, "png"), present).file == None
  {
    ExampleIsPlain();
    var n := |EXAMPLE|;
    assert n == 3;
    TriesByCuts("png", n);
    hide *;
    OriginalAlone("myfile", "bmp", EXAMPLE, "png", present);
    OriginalIsFoundIff("myfile", EXAMPLE, "png", present);
    assert Tries("png", n) == [];
  }

  const EXAMPLE := ["q50", "o250x250p250p250", "r1000x1000"]

  lemma ExampleIsPlain()
    ensures '_' !in "myfile" && '.' !in "png" && PlainClauses(EXAMPLE)
  {
    assert '_' !in "q50" && '_' !in "o250x250p250p250" && '_' !in "r1000x1000";
  }
}
