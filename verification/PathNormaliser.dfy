// The URI path is cleaned in its own buffer: behind a separator, further
// separators and pairs of dots are dropped.

module PathNormaliser {

  predicate IsSeparator(c: char) { c == '/' || c == '\\' }

  predicate StartsWithDots(s: string) { |s| >= 2 && s[0] == '.' && s[1] == '.' }

  // What is left when separators and pairs of dots are taken off the front.
  function SkipJunk(s: string): (r: string)
    ensures |r| <= |s|
    ensures r != "" ==> !IsSeparator(r[0]) && !StartsWithDots(r)
  {
    if s == "" then ""
    else if IsSeparator(s[0]) then SkipJunk(s[1..])
    else if StartsWithDots(s) then SkipJunk(s[2..])
    else s
  }

  function Normal(s: string): (r: string)
    ensures |r| <= |s|
    ensures r == "" <==> s == ""
    ensures s != "" ==> r[0] == s[0]
    decreases |s|
  {
    if s == "" then ""
    else [s[0]] + Normal(if IsSeparator(s[0]) then SkipJunk(s[1..]) else s[1..])
  }

  // No separator is followed by another one or by two dots.
  predicate Clean(s: string) {
    forall i | 0 <= i < |s| && IsSeparator(s[i]) ::
      (i + 1 < |s| ==> !IsSeparator(s[i + 1])) && !StartsWithDots(s[i + 1..])
  }

  // t comes from s by leaving characters out.
  predicate Subsequence(t: string, s: string) {
    if t == "" then true
    else if s == "" then false
    else if t[0] == s[0] && Subsequence(t[1..], s[1..]) then true
    else Subsequence(t, s[1..])
  }

  // The characters that mean something other than a way up or down.
  function Letters(s: string): (l: string) {
    if s == "" then ""
    else if IsSeparator(s[0]) || s[0] == '.' then Letters(s[1..])
    else [s[0]] + Letters(s[1..])
  }

  lemma CleanTail(s: string)
    requires s != ""
    ensures Clean(s)
       <==> (Clean(s[1..]) && (IsSeparator(s[0]) ==> !StartsWithDots(s[1..]) && (|s| > 1 ==> !IsSeparator(s[1]))))
  {
    var t := s[1..];
    if Clean(s) {
      forall i | 0 <= i < |t| && IsSeparator(t[i])
        ensures (i + 1 < |t| ==> !IsSeparator(t[i + 1])) && !StartsWithDots(t[i + 1..])
      {
        assert t[i] == s[i + 1] && t[i + 1..] == s[i + 2..];
      }
      assert s[0 + 1..] == t;
    }
    if Clean(t) {
      forall i | 1 <= i < |s| && IsSeparator(s[i])
        ensures (i + 1 < |s| ==> !IsSeparator(s[i + 1])) && !StartsWithDots(s[i + 1..])
      {
        assert s[i] == t[i - 1] && s[i + 1..] == t[i..];
      }
    }
  }

  // Two dots in the result were two dots in the source.
  lemma DotsStay(s: string)
    ensures StartsWithDots(Normal(s)) ==> StartsWithDots(s)
  {
    if |s| > 1 && s[0] == '.' {
      assert Normal(s)[1] == Normal(s[1..])[0];
    }
  }

  lemma {:induction false} ResultIsClean(s: string)
    ensures Clean(Normal(s))
    decreases |s|
  {
    if s != "" {
      var rest := if IsSeparator(s[0]) then SkipJunk(s[1..]) else s[1..];
      ResultIsClean(rest);
      DotsStay(rest);
      CleanTail(Normal(s));
      assert Normal(s)[1..] == Normal(rest);
    }
  }

  // Exactly the clean paths are left alone.
  lemma {:induction false} UnchangedIffClean(s: string)
    ensures Normal(s) == s <==> Clean(s)
    decreases |s|
  {
    if Normal(s) == s {
      ResultIsClean(s);
    }
    if Clean(s) && s != "" {
      CleanTail(s);
      UnchangedIffClean(s[1..]);
      assert SkipJunk(s[1..]) == s[1..] || !IsSeparator(s[0]);
    }
  }

  lemma Idempotent(s: string)
    ensures Normal(Normal(s)) == Normal(s)
  {
    ResultIsClean(s);
    UnchangedIffClean(Normal(s));
  }

  lemma {:induction false} OnlyLeavesOut(s: string)
    ensures Subsequence(Normal(s), s) && Letters(Normal(s)) == Letters(s)
    decreases |s|
  {
    if s != "" {
      var rest := if IsSeparator(s[0]) then SkipJunk(s[1..]) else s[1..];
      OnlyLeavesOut(rest);
      assert Normal(s)[1..] == Normal(rest);
      SkippingLeavesOut(s[1..], Normal(rest));
    }
  }

  lemma {:induction false} SkippingLeavesOut(s: string, t: string)
    ensures Subsequence(t, SkipJunk(s)) ==> Subsequence(t, s)
    ensures Letters(SkipJunk(s)) == Letters(s)
    decreases |s|
  {
    if s != "" && IsSeparator(s[0]) {
      SkippingLeavesOut(s[1..], t);
    } else if StartsWithDots(s) {
      SkippingLeavesOut(s[2..], t);
      assert s[1..][1..] == s[2..];
    }
  }

  // ---------- Exactly what is dropped ----------------------------------------------

  // Slashes, backslashes and pairs of dots, in any order.
  ghost predicate Junk(j: string) {
    || j == ""
    || (j[0] in "/\\" && Junk(j[1..]))
    || (|j| > 1 && j[0] == j[1] == '.' && Junk(j[2..]))
  }

  lemma {:induction false} JunkIsSkipped(j: string, b: string)
    requires Junk(j) && (b == "" || b[0] !in "/\\") && !(|b| > 1 && b[0] == b[1] == '.')
    ensures SkipJunk(j + b) == b
    decreases |j|
  {
    if j == "" {
      assert j + b == b;
    } else if j[0] in "/\\" {
      assert (j + b)[1..] == j[1..] + b;
      JunkIsSkipped(j[1..], b);
    } else {
      assert (j + b)[2..] == j[2..] + b;
      JunkIsSkipped(j[2..], b);
    }
  }

  // Behind the first separator junk is dropped as far as it goes, and what
  // stands in front of it is kept; a path without separators is kept whole.
  // Every path is of one of these two kinds.
  lemma {:induction false} JunkIsDropped(a: string, c: char, j: string, b: string)
    requires '/' !in a && '\\' !in a && c in "/\\" && Junk(j)
    requires (b == "" || b[0] !in "/\\") && !(|b| > 1 && b[0] == b[1] == '.')
    ensures Normal(a + ([c] + (j + b))) == a + ([c] + Normal(b)) && Normal(a) == a
    decreases |a|
  {
    var t := [c] + (j + b);
    if a == "" {
      SeparatorAndJunk(c, j, b);
      assert "" + t == t && "" + ([c] + Normal(b)) == [c] + Normal(b);
    } else {
      JunkIsDropped(a[1..], c, j, b);
      KeptInFront(a[0], a[1..] + t);
      KeptInFront(a[0], a[1..]);
      hide *;
      assert a == [a[0]] + a[1..];
      InFront(a[0], a[1..], t);
      InFront(a[0], a[1..], [c] + Normal(b));
    }
  }

  lemma SeparatorAndJunk(c: char, j: string, b: string)
    requires c in "/\\" && Junk(j)
    requires (b == "" || b[0] !in "/\\") && !(|b| > 1 && b[0] == b[1] == '.')
    ensures Normal([c] + (j + b)) == [c] + Normal(b)
  {
    assert ([c] + (j + b))[1..] == j + b;
    JunkIsSkipped(j, b);
  }

  lemma KeptInFront(x: char, s: string)
    requires x !in "/\\"
    ensures Normal([x] + s) == [x] + Normal(s)
  {
    assert ([x] + s)[1..] == s;
  }

  lemma InFront(x: char, s: string, t: string)
    ensures [x] + s + t == [x] + (s + t)
  {
  }

  lemma {:induction false} EveryPath(s: string) returns (a: string, c: char, j: string, b: string)
    ensures '/' !in a && '\\' !in a && c in "/\\" && Junk(j)
    ensures (b == "" || b[0] !in "/\\") && !(|b| > 1 && b[0] == b[1] == '.')
    ensures s == a || s == a + ([c] + (j + b))
    decreases |s|
  {
    if s == "" {
      a, c, j, b := "", '/', "", "";
    } else if s[0] in "/\\" {
      a, c := "", s[0];
      j, b := JunkInFront(s[1..]);
      assert s == [s[0]] + s[1..];
    } else {
      a, c, j, b := EveryPath(s[1..]);
      a := [s[0]] + a;
      assert s == [s[0]] + s[1..];
    }
  }

  lemma {:induction false} JunkInFront(s: string) returns (j: string, b: string)
    ensures Junk(j) && s == j + b
    ensures (b == "" || b[0] !in "/\\") && !(|b| > 1 && b[0] == b[1] == '.')
    decreases |s|
  {
    var n := if s != "" && s[0] in "/\\" then 1 else if |s| > 1 && s[0] == s[1] == '.' then 2 else 0;
    if n == 0 {
      j, b := "", s;
    } else {
      var k, r := JunkInFront(s[n..]);
      j, b := s[..n] + k, r;
      assert j[n..] == k && s == s[..n] + s[n..];
    }
  }

  // ---------- The loop ---------------------------------------------------------

  // A string in a buffer ends at the first null byte.
  predicate EndsAt(b: string, n: nat) {
    n < |b| && b[n] == '\0' && '\0' !in b[..n]
  }

  method SkipSeparators(b: array<char>, from: nat, ghost n: nat) returns (s: nat)
    requires from <= n < b.Length && b[n] == '\0' && forall i | from <= i < n :: b[i] != '\0'
    ensures from <= s <= n && b[s..n] == SkipJunk(b[from..n])
  {
    s := from;
    while b[s] != '\0'
      invariant from <= s <= n && SkipJunk(b[from..n]) == SkipJunk(b[s..n])
      decreases n - s
    {
      ghost var rest := b[s..n];
      if b[s] == '/' || b[s] == '\\' {
        assert rest[1..] == b[s + 1..n];
        s := s + 1;
      } else if b[s] == '.' && b[s + 1] == '.' {
        assert rest[2..] == b[s + 2..n];
        s := s + 2;
      } else {
        break;
      }
    }
  }

  // One round of the loop, on values.
  lemma OneRound(all: string, done: string, rest: string, next: string)
    requires rest != "" && all == done + Normal(rest)
    requires next == if IsSeparator(rest[0]) then SkipJunk(rest[1..]) else rest[1..]
    ensures all == (done + [rest[0]]) + Normal(next)
  {
    assert Normal(rest) == [rest[0]] + Normal(next);
    Grouped(done, rest[0], Normal(next));
  }

  lemma Grouped(a: string, c: char, b: string)
    ensures a + ([c] + b) == (a + [c]) + b
  {
  }

  lemma {:induction false} NothingNew(s: string, c: char)
    requires c in Normal(s)
    ensures c in s
    decreases |s|
  {
    if c != s[0] {
      var rest := if IsSeparator(s[0]) then SkipJunk(s[1..]) else s[1..];
      assert c in Normal(rest);
      NothingNew(rest, c);
      if IsSeparator(s[0]) {
        SkippingAddsNothing(s[1..], c);
      }
    }
  }

  lemma {:induction false} SkippingAddsNothing(s: string, c: char)
    requires c in SkipJunk(s)
    ensures c in s
    decreases |s|
  {
    if IsSeparator(s[0]) {
      SkippingAddsNothing(s[1..], c);
    } else if StartsWithDots(s) {
      SkippingAddsNothing(s[2..], c);
    }
  }

  // The writer at p never passes the reader at s.
  method RemoveDoubleDotsAndDoubleSlashes(b: array<char>, ghost n: nat)
    requires EndsAt(b[..], n)
    modifies b
    ensures EndsAt(b[..], |Normal(old(b[..n]))|)
    ensures b[..|Normal(old(b[..n]))|] == Normal(old(b[..n]))
    ensures forall i | |Normal(old(b[..n]))| < i < b.Length :: b[i] == old(b[i])
  {
    hide Normal, SkipJunk;
    ghost var was := b[..];
    assert forall i | 0 <= i < n :: was[..n][i] != '\0';
    ghost var all := Normal(was[..n]);
    var s, p := 0, 0;
    while b[s] != '\0'
      invariant p <= s <= n && n < b.Length && was[n] == '\0'
      invariant forall i | p <= i < b.Length :: b[i] == was[i]
      invariant all == b[..p] + Normal(was[s..n])
      decreases n - s
    {
      ghost var done, rest := b[..p], was[s..n];
      b[p] := b[s];
      assert b[..p + 1] == done + [rest[0]];
      p, s := p + 1, s + 1;
      assert b[s..n] == rest[1..];
      if b[s - 1] == '/' || b[s - 1] == '\\' {
        s := SkipSeparators(b, s, n);
      }
      OneRound(all, done, rest, was[s..n]);
    }
    b[p] := '\0';
    EndsInside(was[..n]);
  }

  lemma EndsInside(s: string)
    requires '\0' !in s
    ensures '\0' !in Normal(s) && Normal("") == ""
  {
    if '\0' in Normal(s) {
      NothingNew(s, '\0');
    }
  }
}
