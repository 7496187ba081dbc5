/**
 `SafeFNMatch_` of glog's vlog_is_on.cc: matching with the wildcards `*` and `?`.

 `Matches` is the usual meaning of such patterns.  The code always agrees with it when it says yes;
 the two lemmas at the end say exactly for which patterns it also agrees when it says no.
 */
module Wildcards {

  // ---------- The meaning of patterns ----------

  /** `*` stands for any string, `?` for any character. */
  ghost predicate Matches(p: string, s: string)
    decreases |p|
  {
    if p == [] then s == []
    else if p[0] == '*' then exists k :: 0 <= k <= |s| && Matches(p[1..], s[k..])
    else s != [] && (p[0] == '?' || p[0] == s[0]) && Matches(p[1..], s[1..])
  }

  // ---------- The code ----------

  /** What the code computes. */
  predicate FnMatch(p: string, s: string)
    decreases |p|, |s| + 1
  {
    if p == [] then s == []
    else if s == [] then |p| == 1 && p[0] == '*'
    else if p[0] == s[0] || p[0] == '?' then FnMatch(p[1..], s[1..])
    else if p[0] == '*' then |p| == 1 || SomeSuffix(p[1..], s)
    else false
  }

  /** The inner loop: some non-empty suffix of `s` matches. */
  predicate SomeSuffix(p: string, s: string)
    decreases |p| + 1, |s|
  {
    s != [] && (FnMatch(p, s) || SomeSuffix(p, s[1..]))
  }

  /** `SafeFNMatch_`, with its loop, its recursion and its early exits. */
  method SafeFNMatch(pattern: string, str: string) returns (r: bool)
    ensures r == FnMatch(pattern, str)
    decreases |pattern|
  {
    var p, s := 0, 0;
    while true
      invariant p <= |pattern| && s <= |str|
      invariant FnMatch(pattern, str) == FnMatch(pattern[p..], str[s..])
      decreases |pattern| - p
    {
      if p == |pattern| && s == |str| {
        return true;
      }
      if p == |pattern| {
        return false;
      }
      if s == |str| {
        return p + 1 == |pattern| && pattern[p] == '*';
      }
      if pattern[p] == str[s] || pattern[p] == '?' {
        p, s := p + 1, s + 1;
        continue;
      }
      if pattern[p] == '*' {
        if p + 1 == |pattern| {
          return true;
        }
        ghost var whole := SomeSuffix(pattern[p + 1..], str[s..]);
        assert pattern[p..][1..] == pattern[p + 1..];
        while true
          invariant s < |str|
          invariant whole == SomeSuffix(pattern[p + 1..], str[s..])
          decreases |str| - s
        {
          var found := SafeFNMatch(pattern[p + 1..], str[s..]);
          if found {
            return true;
          }
          s := s + 1;
          if s == |str| {
            break;
          }
        }
        return false;
      }
      return false;
    }
  }

  // ---------- Soundness ----------

  /** A match reported by the code is a match. */
  lemma {:induction false} Sound(p: string, s: string)
    requires FnMatch(p, s)
    ensures Matches(p, s)
    decreases |p|
  {
    if p == [] {
    } else if s == [] {
      assert Matches(p[1..], s[0..]);
    } else if p[0] == s[0] || p[0] == '?' {
      Sound(p[1..], s[1..]);
    } else if |p| == 1 {
      assert Matches(p[1..], s[|s|..]);
    } else {
      var k := SuffixWitness(p[1..], s);
      Sound(p[1..], s[k..]);
    }
  }

  lemma {:induction false} SuffixWitness(p: string, s: string) returns (k: nat)
    requires SomeSuffix(p, s)
    ensures k < |s| && FnMatch(p, s[k..])
    decreases |s|
  {
    if FnMatch(p, s) {
      k := 0;
    } else {
      var j := SuffixWitness(p, s[1..]);
      k := j + 1;
      assert s[1..][j..] == s[k..];
    }
  }

  lemma {:induction false} SuffixFound(p: string, s: string, k: nat)
    requires k < |s| && FnMatch(p, s[k..])
    ensures SomeSuffix(p, s)
    decreases k
  {
    if k > 0 {
      assert s[1..][k - 1..] == s[k..];
      SuffixFound(p, s[1..], k - 1);
    }
  }

  // ---------- Completeness ----------

  predicate NoStar(s: string) {
    forall i :: 0 <= i < |s| ==> s[i] != '*'
  }

  predicate EndsWithTwoStars(p: string) {
    |p| >= 2 && p[|p| - 2] == '*' && p[|p| - 1] == '*'
  }

  /** Only stars match the empty string. */
  lemma {:induction false} EmptyMatch(p: string)
    requires Matches(p, [])
    ensures forall i :: 0 <= i < |p| ==> p[i] == '*'
    decreases |p|
  {
    if p != [] {
      var rest, empty: string := p[1..], [];
      assert Matches(rest, empty) by {
        var k :| 0 <= k <= |empty| && Matches(rest, empty[k..]);
        assert empty[k..] == empty;
      }
      EmptyMatch(rest);
      forall i | 0 <= i < |p| ensures p[i] == '*' {
        assert i > 0 ==> p[i] == rest[i - 1];
      }
    }
  }

  /** On text without stars, a pattern that does not end in `**` finds all its matches. */
  lemma {:induction false} Complete(p: string, s: string)
    requires Matches(p, s) && NoStar(s) && !EndsWithTwoStars(p)
    ensures FnMatch(p, s)
    decreases |p|
  {
    if p == [] {
    } else if s == [] {
      EmptyMatch(p);
    } else if p[0] != '*' {
      Complete(p[1..], s[1..]);
    } else if |p| > 1 {
      var k :| 0 <= k <= |s| && Matches(p[1..], s[k..]);
      if k == |s| {
        EmptyMatch(p[1..]);
        assert false;
      }
      Complete(p[1..], s[k..]);
      SuffixFound(p[1..], s, k);
    }
  }

  /** The pattern without its stars, `?` filled in: its shortest match. */
  function Skeleton(p: string): string {
    if p == [] then []
    else if p[0] == '*' then Skeleton(p[1..])
    else if p[0] == '?' then ['a'] + Skeleton(p[1..])
    else [p[0]] + Skeleton(p[1..])
  }

  lemma {:induction false} SkeletonMatches(p: string)
    ensures Matches(p, Skeleton(p)) && NoStar(Skeleton(p))
    decreases |p|
  {
    if p != [] {
      SkeletonMatches(p[1..]);
      var s := Skeleton(p);
      if p[0] == '*' {
        assert s[0..] == s;
      } else {
        assert s[1..] == Skeleton(p[1..]);
        assert forall i :: 1 <= i < |s| ==> s[i] == s[1..][i - 1];
      }
    }
  }

  /** A pattern ending in `**` finds no match as short as its skeleton. */
  lemma {:induction false} MissesShort(p: string, s: string)
    requires EndsWithTwoStars(p) && |s| <= |Skeleton(p)| && NoStar(s)
    ensures !FnMatch(p, s)
    decreases |p|
  {
    assert |p| == 2 ==> Skeleton(p) == Skeleton(p[1..]) == Skeleton(p[1..][1..]) == [];
    if s == [] {
    } else if p[0] == s[0] || p[0] == '?' {
      MissesShort(p[1..], s[1..]);
    } else if p[0] == '*' {
      if |p| > 2 && SomeSuffix(p[1..], s) {
        var k := SuffixWitness(p[1..], s);
        MissesShort(p[1..], s[k..]);
      }
    }
  }

  /**
   For text without stars (such as file names), the code finds every match of a pattern exactly when
   the pattern does not end in `**`.
   */
  lemma ExactOnPlainText(p: string)
    ensures (forall s | NoStar(s) :: FnMatch(p, s) <==> Matches(p, s)) <==> !EndsWithTwoStars(p)
  {
    if EndsWithTwoStars(p) {
      SkeletonMatches(p);
      MissesShort(p, Skeleton(p));
    } else {
      forall s | NoStar(s) ensures FnMatch(p, s) <==> Matches(p, s) {
        if FnMatch(p, s) {
          Sound(p, s);
        } else if Matches(p, s) {
          Complete(p, s);
        }
      }
    }
  }

  // ---------- Trailing stars, text by text ----------

  function Trimmed(p: string): string {
    if p == [] || p[|p| - 1] != '*' then p else Trimmed(p[..|p| - 1])
  }

  function Stars(n: nat): (p: string)
    ensures |p| == n && forall i :: 0 <= i < n ==> p[i] == '*'
  {
    seq(n, _ => '*')
  }

  lemma {:induction false} TrimmedStars(p: string)
    ensures |Trimmed(p)| <= |p| && p == Trimmed(p) + Stars(|p| - |Trimmed(p)|)
    ensures EndsWithTwoStars(p) ==> |p| - |Trimmed(p)| >= 2
  {
    if p != [] && p[|p| - 1] == '*' {
      TrimmedStars(p[..|p| - 1]);
    }
  }

  lemma {:induction false} StarsMatch(n: nat, s: string)
    requires n > 0 && s != [] && NoStar(s)
    ensures FnMatch(Stars(n), s)
  {
    if n > 1 {
      assert Stars(n)[1..] == Stars(n - 1);
      StarsMatch(n - 1, s);
    }
  }

  /** Two or more trailing stars stand for at least one character. */
  lemma {:induction false} TrailingStars(q: string, n: nat, s: string)
    requires n >= 2 && NoStar(s)
    ensures FnMatch(q + Stars(n), s) <==> FnMatch(q + "?*", s)
    decreases |q|
  {
    var p, p' := q + Stars(n), q + "?*";
    if q == [] {
      assert p == Stars(n) && p' == "?*" && p'[1..] == "*";
      if s != [] {
        StarsMatch(n, s);
      }
    } else if s != [] {
      assert p[1..] == q[1..] + Stars(n) && p'[1..] == q[1..] + "?*";
      if q[0] == s[0] || q[0] == '?' {
        TrailingStars(q[1..], n, s[1..]);
      } else if q[0] == '*' {
        TrailingSuffix(q, n, s);
      }
    }
  }

  lemma {:induction false} TrailingSuffix(q: string, n: nat, s: string)
    requires q != [] && n >= 2 && NoStar(s)
    ensures SomeSuffix(q[1..] + Stars(n), s) <==> SomeSuffix(q[1..] + "?*", s)
    decreases |q|, 0
  {
    if SomeSuffix(q[1..] + Stars(n), s) {
      var k := SuffixWitness(q[1..] + Stars(n), s);
      TrailingStars(q[1..], n, s[k..]);
      SuffixFound(q[1..] + "?*", s, k);
    }
    if SomeSuffix(q[1..] + "?*", s) {
      var k := SuffixWitness(q[1..] + "?*", s);
      TrailingStars(q[1..], n, s[k..]);
      SuffixFound(q[1..] + Stars(n), s, k);
    }
  }

  /** On text without stars, trailing stars after the first are taken to ask for one more character. */
  lemma MeaningOnPlainText(p: string, s: string)
    requires NoStar(s)
    ensures FnMatch(p, s) <==> Matches(if EndsWithTwoStars(p) then Trimmed(p) + "?*" else p, s)
  {
    var q := if EndsWithTwoStars(p) then Trimmed(p) + "?*" else p;
    if EndsWithTwoStars(p) {
      TrimmedStars(p);
      TrailingStars(Trimmed(p), |p| - |Trimmed(p)|, s);
      assert q[|q| - 2] == '?';
    }
    if FnMatch(q, s) {
      Sound(q, s);
    } else if Matches(q, s) {
      Complete(q, s);
    }
  }

  // ---------- Text with stars ----------

  lemma {:induction false} NoStarPattern(p: string, s: string)
    requires NoStar(p)
    ensures FnMatch(p, s) <==> Matches(p, s)
    ensures FnMatch(p, s) ==> |s| == |p|
    decreases |p|
  {
    if p != [] && s != [] && (p[0] == s[0] || p[0] == '?') {
      NoStarPattern(p[1..], s[1..]);
    }
  }

  /** A text that a pattern with a star matches but the code misses: its own stars are taken literally. */
  function Missed(p: string): string {
    if p == [] then []
    else if p[0] != '*' then [if p[0] == '?' then 'a' else p[0]] + Missed(p[1..])
    else if NoStar(p[1..]) then ['*', 'a'] + Skeleton(p[1..])
    else ['*'] + Missed(p[1..])
  }

  lemma {:induction false} MissedIsMissed(p: string)
    requires !NoStar(p)
    ensures Matches(p, Missed(p)) && !FnMatch(p, Missed(p))
    decreases |p|
  {
    var s, q := Missed(p), p[1..];
    if p[0] != '*' {
      MissedIsMissed(q);
      assert s[1..] == Missed(q);
    } else if NoStar(q) {
      SkeletonMatches(q);
      assert s[2..] == Skeleton(q) && s[1..] == ['a'] + Skeleton(q);
      NoStarPattern(q, Skeleton(q));
      NoStarPattern(q, s[1..]);
      SkeletonLength(q);
    } else {
      MissedIsMissed(q);
      assert s[1..] == Missed(q);
    }
  }

  lemma {:induction false} SkeletonLength(p: string)
    requires NoStar(p)
    ensures |Skeleton(p)| == |p|
  {
    if p != [] {
      SkeletonLength(p[1..]);
    }
  }

  /** For arbitrary text, the code finds every match of a pattern exactly when the pattern has no `*`. */
  lemma ExactOnAllText(p: string)
    ensures (forall s :: FnMatch(p, s) <==> Matches(p, s)) <==> NoStar(p)
  {
    if NoStar(p) {
      forall s ensures FnMatch(p, s) <==> Matches(p, s) {
        NoStarPattern(p, s);
      }
    } else {
      MissedIsMissed(p);
    }
  }

  /** A pattern matches itself, character by character. */
  lemma {:induction false} MatchesItself(p: string)
    ensures FnMatch(p, p)
    decreases |p|
  {
    if p != [] {
      MatchesItself(p[1..]);
    }
  }
}
