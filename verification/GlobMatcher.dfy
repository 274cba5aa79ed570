// The URI pattern matcher of the web server.
//
// A pattern is tried from left to right and a star first takes as many
// characters as it can; the matcher then keeps the first success.  The
// theorem proved here is that this greedy search nevertheless returns the
// LONGEST prefix of the string that the pattern describes.

module GlobMatcher {

  // ---------- What a pattern means -------------------------------------

  // The number of leading characters before the first '/'.
  function Span(s: string): (n: nat)
    ensures n <= |s|
    ensures '/' !in s[..n]
    ensures n < |s| ==> s[n] == '/'
  {
    if s == [] || s[0] == '/' then 0
    else
      var n := 1 + Span(s[1..]);
      assert s[..n] == [s[0]] + s[1..][..n - 1];
      n
  }

  // How many pattern characters the star at the front of `p` occupies, and
  // the most string characters it may cover.
  function StarWidth(p: string): (w: nat)
    requires p != [] && p[0] == '*'
    ensures 1 <= w <= |p|
  {
    if |p| > 1 && p[1] == '*' then 2 else 1
  }

  function StarReach(p: string, s: string): (n: nat)
    requires p != [] && p[0] == '*'
    ensures n <= |s|
  {
    if StarWidth(p) == 2 then |s| else Span(s)
  }

  // The alternative `p` (a pattern without '|') describes the first `k`
  // characters of `s`.  '$' demands the end of the string and everything
  // behind it in the pattern is ignored, as in the source.
  ghost predicate Matches(p: string, s: string, k: nat)
    decreases |p|
  {
    if p == [] then k == 0
    else if p[0] == '?' && s != [] then k > 0 && Matches(p[1..], s[1..], k - 1)
    else if p[0] == '$' then s == [] && k == 0
    else if p[0] == '*' then
      exists l: nat :: l <= StarReach(p, s) && l <= k && Matches(p[StarWidth(p)..], s[l..], k - l)
    else s != [] && s[0] == p[0] && k > 0 && Matches(p[1..], s[1..], k - 1)
  }

  // `r` is the answer the matcher owes for an alternative: the greatest
  // described length, or -1 when no prefix is described.
  ghost predicate IsLongest(p: string, s: string, r: int)
  {
    && r >= -1
    && (r == -1 <==> forall k: nat :: !Matches(p, s, k))
    && (r >= 0 ==> Matches(p, s, r) && forall k: nat | Matches(p, s, k) :: k <= r)
  }

  // The alternatives of a pattern, cut at every '|'.
  function Alternatives(pat: string): (alts: seq<string>)
    ensures alts != []
  {
    var i := Bar(pat);
    if i == |pat| then [pat] else [pat[..i]] + Alternatives(pat[i + 1..])
  }

  // Index of the first '|', or the length when there is none.
  function Bar(pat: string): (i: nat)
    ensures i <= |pat|
    ensures '|' !in pat[..i]
    ensures i < |pat| ==> pat[i] == '|'
  {
    if pat == [] || pat[0] == '|' then 0
    else
      var i := 1 + Bar(pat[1..]);
      assert pat[..i] == [pat[0]] + pat[1..][..i - 1];
      i
  }

  // The verdict on a list of alternatives: the first alternative that
  // describes a non-empty prefix decides; when none does, the last one does.
  ghost predicate IsVerdict(alts: seq<string>, s: string, r: int)
    requires alts != []
  {
    if r > 0 then
      exists i :: 0 <= i < |alts| && IsLongest(alts[i], s, r) && NoneNonEmpty(alts, i, s)
    else
      NoneNonEmpty(alts, |alts|, s) && IsLongest(alts[|alts| - 1], s, r)
  }

  // None of the first `n` alternatives describes a non-empty prefix.
  ghost predicate NoneNonEmpty(alts: seq<string>, n: nat, s: string)
    requires n <= |alts|
  {
    forall i, k: nat | 0 <= i < n && Matches(alts[i], s, k) :: k == 0
  }

  // ---------- The meaning, sign by sign ------------------------------------

  // A single star stands for any characters but a slash.
  lemma SingleStar(q: string, s: string, k: nat)
    requires q == "" || q[0] != '*'
    ensures Matches("*" + q, s, k) <==>
      exists l: nat :: l <= k && l <= |s| && '/' !in s[..l] && Matches(q, s[l..], k - l)
  {
    var p := "*" + q;
    assert p[1..] == q && StarWidth(p) == 1;
    forall l: nat | l <= |s| ensures '/' !in s[..l] <==> l <= Span(s) {
      if l <= Span(s) {
        assert s[..l] <= s[..Span(s)];
      } else {
        assert s[..l][Span(s)] == '/';
      }
    }
  }

  // Two stars stand for any characters.
  lemma DoubleStar(q: string, s: string, k: nat)
    ensures Matches("**" + q, s, k) <==> exists l: nat :: l <= k && l <= |s| && Matches(q, s[l..], k - l)
  {
    var p := "**" + q;
    assert p[2..] == q && StarWidth(p) == 2;
  }

  // A question mark stands for one character, a dollar sign for the end of the
  // string, whatever follows it, and any other character for itself.
  lemma OtherSigns(c: char, q: string, s: string, k: nat)
    requires c != '*'
    ensures Matches("", s, k) <==> k == 0
    ensures c == '$' ==> (Matches([c] + q, s, k) <==> s == "" && k == 0)
    ensures c != '$' ==>
      (Matches([c] + q, s, k) <==> s != "" && (c == '?' || s[0] == c) && k > 0 && Matches(q, s[1..], k - 1))
  {
    assert ([c] + q)[1..] == q;
  }

  function Join(alts: seq<string>): (pat: string)
    requires alts != []
  {
    if |alts| == 1 then alts[0] else alts[0] + "|" + Join(alts[1..])
  }

  // The alternatives are what stands between the bars.
  lemma {:induction false} AlternativesBetweenBars(pat: string)
    ensures Join(Alternatives(pat)) == pat && forall i | 0 <= i < |Alternatives(pat)| :: '|' !in Alternatives(pat)[i]
    decreases |pat|
  {
    var i := Bar(pat);
    if i < |pat| {
      AlternativesBetweenBars(pat[i + 1..]);
      assert pat == pat[..i] + "|" + pat[i + 1..];
      assert Alternatives(pat)[1..] == Alternatives(pat[i + 1..]);
    } else {
      assert pat[..i] == pat;
    }
  }

  // ---------- Why greedy is longest -------------------------------------

  lemma {:induction false} MatchFits(p: string, s: string, k: nat)
    requires Matches(p, s, k)
    ensures k <= |s|
    decreases |p|
  {
    if p == [] {
    } else if p[0] == '?' && s != [] {
      MatchFits(p[1..], s[1..], k - 1);
    } else if p[0] == '$' {
    } else if p[0] == '*' {
      var l: nat :| l <= StarReach(p, s) && l <= k && Matches(p[StarWidth(p)..], s[l..], k - l);
      MatchFits(p[StarWidth(p)..], s[l..], k - l);
    } else {
      MatchFits(p[1..], s[1..], k - 1);
    }
  }

  // A star that may cover s[..n] may, seen from any later start within it,
  // still cover up to the same place.
  lemma StarReachFromInside(p: string, s: string, a: nat, n: nat)
    requires p != [] && p[0] == '*'
    requires a <= n <= StarReach(p, s)
    ensures n - a <= StarReach(p, s[a..])
  {
    if StarWidth(p) == 1 {
      var m := Span(s[a..]);
      assert m < |s[a..]| ==> s[a + m] == '/';
      assert forall x | 0 <= x < n :: s[x] != '/' by { assert forall x | 0 <= x < n :: s[x] in s[..Span(s)]; }
    }
  }

  // Two matches that start at 0 and at `b` and whose ends are in the opposite
  // order must cross, and the later start can take over the further end.
  lemma {:induction false} Crossing(p: string, s: string, b: nat, far: nat, near: nat)
    requires b <= |s|
    requires Matches(p, s, far) && Matches(p, s[b..], near)
    requires b + near <= far
    ensures Matches(p, s[b..], far - b)
    decreases |p|, 1
  {
    if p == [] || b == 0 {
      assert b == 0 ==> s[b..] == s;
    } else if p[0] == '?' {
      assert s[b..] != [];
      assert s[b..][1..] == s[1..][b..];
      Crossing(p[1..], s[1..], b, far - 1, near - 1);
    } else if p[0] == '$' {
    } else if p[0] == '*' {
      CrossingStar(p, s, b, far, near);
    } else {
      assert s[b..][1..] == s[1..][b..];
      Crossing(p[1..], s[1..], b, far - 1, near - 1);
    }
  }

  // The star may not stop after `l` characters.
  ghost predicate DeadEnd(rest: string, s: string, l: nat)
    requires l <= |s|
  {
    forall k: nat :: !Matches(rest, s[l..], k)
  }

  lemma StarIntro(p: string, s: string, l: nat, k: nat)
    requires p != [] && p[0] == '*'
    requires l <= StarReach(p, s) && Matches(p[StarWidth(p)..], s[l..], k)
    ensures Matches(p, s, l + k)
  {
    assert Matches(p[StarWidth(p)..], s[l..], l + k - l);
  }

  lemma StarElim(p: string, s: string, k: nat) returns (l: nat)
    requires p != [] && p[0] == '*' && Matches(p, s, k)
    ensures l <= StarReach(p, s) && l <= k && Matches(p[StarWidth(p)..], s[l..], k - l)
    ensures !DeadEnd(p[StarWidth(p)..], s, l)
  {
    l :| l <= StarReach(p, s) && l <= k && Matches(p[StarWidth(p)..], s[l..], k - l);
  }

  lemma {:induction false} CrossingStar(p: string, s: string, b: nat, far: nat, near: nat)
    requires p != [] && p[0] == '*'
    requires 0 < b <= |s|
    requires Matches(p, s, far) && Matches(p, s[b..], near)
    requires b + near <= far
    ensures Matches(p, s[b..], far - b)
    decreases |p|, 0
  {
    hide Matches, Span;
    var l := StarElim(p, s, far);
    var m := StarElim(p, s[b..], near);
    assert s[b..][m..] == s[b + m..];
    if l <= b + m {
      // The first star stopped earlier: the rests of the two matches cross.
      CrossingBehind(p[StarWidth(p)..], s, l, b + m, far - l, near - m);
      StarIntro(p, s[b..], m, far - b - m);
    } else {
      // The first star ran past the second: extend the second to meet it.
      StarReachFromInside(p, s, b, l);
      assert s[b..][l - b..] == s[l..];
      StarIntro(p, s[b..], l - b, far - l);
    }
  }

  lemma {:induction false} CrossingBehind(rest: string, s: string, x: nat, y: nat, far: nat, near: nat)
    requires x <= y <= |s|
    requires Matches(rest, s[x..], far) && Matches(rest, s[y..], near)
    requires y + near <= x + far
    ensures Matches(rest, s[y..], x + far - y)
    decreases |rest|, 2
  {
    hide Matches, Span;
    assert s[x..][y - x..] == s[y..];
    Crossing(rest, s[x..], y - x, far, near);
  }

  // The greedy step: when no longer cover of the star leaves a matching rest,
  // the longest cover that does gives the longest match of all.
  lemma GreedyStar(p: string, s: string, cover: nat, r: nat)
    requires p != [] && p[0] == '*'
    requires cover <= StarReach(p, s)
    requires forall l: nat | cover < l <= StarReach(p, s) :: DeadEnd(p[StarWidth(p)..], s, l)
    requires IsLongest(p[StarWidth(p)..], s[cover..], r)
    ensures IsLongest(p, s, cover + r)
  {
    var rest := p[StarWidth(p)..];
    StarIntro(p, s, cover, r);
    forall k: nat | Matches(p, s, k)
      ensures k <= cover + r
    {
      var l := StarElim(p, s, k);
      if cover + r < k {
        assert s[l..][cover - l..] == s[cover..];
        Crossing(rest, s[l..], cover - l, k - l, r);
      }
    }
  }

  lemma NoCoverNoMatch(p: string, s: string)
    requires p != [] && p[0] == '*'
    requires forall l: nat | l <= StarReach(p, s) :: DeadEnd(p[StarWidth(p)..], s, l)
    ensures IsLongest(p, s, -1)
  {
    forall k: nat | Matches(p, s, k)
      ensures false
    {
      var l := StarElim(p, s, k);
    }
  }

  // A star that ends the pattern covers all it can.
  lemma LastStar(p: string, s: string)
    requires p != [] && p[0] == '*' && StarWidth(p) == |p|
    ensures IsLongest(p, s, StarReach(p, s))
  {
    StarIntro(p, s, StarReach(p, s), 0);
    forall k: nat | Matches(p, s, k)
      ensures k <= StarReach(p, s)
    {
      var l := StarElim(p, s, k);
    }
  }

  // A pattern character matched one for one shifts the answer by one.
  lemma OneForOne(p: string, s: string, q: int)
    requires p != [] && s != [] && p[0] != '$' && p[0] != '*' && (p[0] == '?' || p[0] == s[0])
    requires IsLongest(p[1..], s[1..], q)
    ensures IsLongest(p, s, Shift(1, q))
  {
    forall k: nat | Matches(p, s, k) ensures k > 0 && Matches(p[1..], s[1..], k - 1) {}
    if q >= 0 {
      assert Matches(p, s, q + 1);
    }
  }

  // Characters already matched one for one shift the answer.
  ghost function Shift(j: nat, r: int): int { if r == -1 then -1 else j + r }

  // ---------- The matcher ------------------------------------------------

  // `after` is the character that stands just behind the pattern in memory;
  // the source reads it when the pattern ends in a star.
  method MatchPrefix(pat: string, after: char, str: string) returns (r: int)
    requires after != '*'
    requires '\0' !in pat && '\0' !in str
    ensures IsVerdict(Alternatives(pat), str, r)
    decreases |pat|, 1
  {
    var bar := Bar(pat);
    if bar < |pat| {
      var rest := pat[bar + 1..];
      r := MatchPrefix(pat[..bar], '|', str);
      SoleAlternative(pat[..bar], str, r);
      var alts := Alternatives(pat);
      assert alts == [pat[..bar]] + Alternatives(rest);
      if r > 0 {
        assert IsLongest(alts[0], str, r);
        return;
      }
      ghost var r0 := r;
      r := MatchPrefix(rest, after, str);
      FirstFails(pat[..bar], Alternatives(rest), str, r0, r);
    } else {
      r := MatchAlternative(pat, after, str);
      SoleAlternative(pat, str, r);
    }
  }

  lemma FirstFails(p: string, alts: seq<string>, s: string, r0: int, r: int)
    requires alts != [] && r0 <= 0
    requires IsVerdict([p], s, r0) && IsVerdict(alts, s, r)
    ensures IsVerdict([p] + alts, s, r)
  {
    var all := [p] + alts;
    if r > 0 {
      var i :| 0 <= i < |alts| && IsLongest(alts[i], s, r) && NoneNonEmpty(alts, i, s);
      assert all[i + 1] == alts[i];
      assert IsLongest([p][0], s, r0);
      assert NoneNonEmpty(all, i + 1, s);
    } else {
      forall m, k: nat | 0 <= m < |all| && Matches(all[m], s, k)
        ensures k == 0
      {
        if m == 0 {
          assert [p][0] == p;
        } else {
          assert all[m] == alts[m - 1];
        }
      }
    }
  }

  // The loop over a pattern without '|'.
  method MatchAlternative(pat: string, after: char, str: string) returns (r: int)
    requires after != '*'
    requires '|' !in pat && '\0' !in pat && '\0' !in str
    ensures IsLongest(pat, str, r)
    decreases |pat|, 0
  {
    hide Matches, Span;
    var i, j := 0, 0;
    while i < |pat|
      invariant 0 <= i <= |pat| && 0 <= j <= |str|
      invariant Reduces(pat, str, i, j)
    {
      ghost var p, s := pat[i..], str[j..];
      if pat[i] == '?' && j < |str| {
        Advance(pat, str, i, j);
        i, j := i + 1, j + 1;
      } else if pat[i] == '$' {
        EndMark(p, s);
        return if j == |str| then j else -1;
      } else if pat[i] == '*' {
        i := i + 1;
        var len;
        if (if i < |pat| then pat[i] else after) == '*' {
          i := i + 1;
          len := |str| - j;
        } else {
          len := Span(str[j..]);
        }
        assert p[StarWidth(p)..] == pat[i..] && len == StarReach(p, s);
        if i == |pat| {
          LastStar(p, s);
          return j + len;
        }
        r := MatchStar(p, pat[i..], after, str[j..], len);
        return if r == -1 then -1 else j + r;
      } else if j == |str| || pat[i] != str[j] {
        Mismatch(p, s);
        return -1;
      } else {
        Advance(pat, str, i, j);
        i, j := i + 1, j + 1;
      }
    }
    NothingLeft(pat[i..], str[j..]);
    return j;
  }

  lemma EndMark(p: string, s: string)
    requires p != [] && p[0] == '$'
    ensures IsLongest(p, s, if s == [] then 0 else -1)
  {
    assert s == [] ==> Matches(p, s, 0);
  }

  lemma Mismatch(p: string, s: string)
    requires p != [] && p[0] !in "$*" && (p[0] == '?' ==> s == []) && (s == [] || p[0] != s[0])
    ensures IsLongest(p, s, -1)
  {
  }

  lemma NothingLeft(p: string, s: string)
    requires p == []
    ensures IsLongest(p, s, 0)
  {
    assert Matches(p, s, 0);
  }

  // The do-while loop of a star: `rest` is the pattern behind it, `reach` the
  // most it may cover of `s`.
  method MatchStar(ghost p: string, rest: string, after: char, s: string, reach: nat) returns (r: int)
    requires p != [] && p[0] == '*' && rest == p[StarWidth(p)..] && reach == StarReach(p, s)
    requires after != '*'
    requires '|' !in rest && '\0' !in rest && '\0' !in s
    ensures IsLongest(p, s, r)
    decreases |rest|, 2
  {
    var len := reach;
    r := MatchPrefix(rest, after, s[len..]);
    SoleAlternative(rest, s[len..], r);
    while r == -1 && len > 0
      invariant 0 <= len <= reach
      invariant IsLongest(rest, s[len..], r)
      invariant forall l: nat | len < l <= reach :: DeadEnd(rest, s, l)
    {
      assert DeadEnd(rest, s, len);
      len := len - 1;
      r := MatchPrefix(rest, after, s[len..]);
      SoleAlternative(rest, s[len..], r);
    }
    if r == -1 {
      assert DeadEnd(rest, s, 0);
      NoCoverNoMatch(p, s);
    } else {
      GreedyStar(p, s, len, r);
      r := r + len;
    }
  }

  // What is left of the pattern decides the whole.
  ghost predicate Reduces(pat: string, str: string, i: nat, j: nat)
    requires i <= |pat| && j <= |str|
  {
    forall q | IsLongest(pat[i..], str[j..], q) :: IsLongest(pat, str, Shift(j, q))
  }

  // One turn of the loop keeps the invariant.
  lemma Advance(pat: string, str: string, i: nat, j: nat)
    requires i < |pat| && j < |str|
    requires pat[i] != '$' && pat[i] != '*' && (pat[i] == '?' || pat[i] == str[j])
    requires Reduces(pat, str, i, j)
    ensures Reduces(pat, str, i + 1, j + 1)
  {
    var p, s := pat[i + 1..], str[j + 1..];
    assert pat[i..][1..] == p && str[j..][1..] == s;
    forall q | IsLongest(p, s, q)
      ensures IsLongest(pat, str, Shift(j + 1, q))
    {
      OneForOne(pat[i..], str[j..], q);
    }
  }

  // A pattern without '|' has one alternative, whose longest match is the verdict.
  lemma SoleAlternative(p: string, s: string, r: int)
    requires '|' !in p
    ensures Alternatives(p) == [p]
    ensures IsVerdict([p], s, r) <==> IsLongest(p, s, r)
  {
    assert r > 0 && IsLongest(p, s, r) ==> IsLongest([p][0], s, r) && NoneNonEmpty([p], 0, s);
  }

  // The verdict is unique, so the contract of MatchPrefix determines its result.
  lemma VerdictUnique(alts: seq<string>, s: string, q: int, r: int)
    requires alts != []
    requires IsVerdict(alts, s, q) && IsVerdict(alts, s, r)
    ensures q == r
  {
    if q > 0 && r > 0 {
      var i :| 0 <= i < |alts| && IsLongest(alts[i], s, q) && NoneNonEmpty(alts, i, s);
      var j :| 0 <= j < |alts| && IsLongest(alts[j], s, r) && NoneNonEmpty(alts, j, s);
    }
  }

  // Over the whole pattern: the result is positive exactly when some
  // alternative describes a non-empty prefix.
  lemma PositiveIffNonEmpty(pat: string, s: string, r: int)
    requires IsVerdict(Alternatives(pat), s, r)
    ensures r > 0 <==> exists i, k: nat :: 0 <= i < |Alternatives(pat)| && k > 0 && Matches(Alternatives(pat)[i], s, k)
  {
    var alts := Alternatives(pat);
    if r > 0 {
      var i :| 0 <= i < |alts| && IsLongest(alts[i], s, r) && NoneNonEmpty(alts, i, s);
      assert Matches(alts[i], s, r);
    }
  }
}
