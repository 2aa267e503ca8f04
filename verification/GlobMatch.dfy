/**
 lib/glog/vlog_is_on.cc: SafeFNMatch_, the matcher for the module patterns of --vmodule,
 against the usual meaning of the wildcards * and ?.
 */
module GlobMatch {

  /** The meaning of a pattern: * stands for any string, ? for any one character. */
  predicate Glob(pattern: string, str: string)
    decreases |pattern| + |str|
  {
    if pattern == "" then str == ""
    else if pattern[0] == '*' then Glob(pattern[1..], str) || (str != "" && Glob(pattern, str[1..]))
    else str != "" && (pattern[0] == '?' || pattern[0] == str[0]) && Glob(pattern[1..], str[1..])
  }

  /** What the matcher accepts: it compares characters before it looks for a star. */
  ghost predicate Accepts(pattern: string, str: string)
    decreases |pattern|
  {
    if pattern == "" then str == ""
    else if str == "" then pattern == "*"
    else if pattern[0] == str[0] || pattern[0] == '?' then Accepts(pattern[1..], str[1..])
    else pattern[0] == '*' && (pattern == "*" || exists k: nat :: k < |str| && Accepts(pattern[1..], str[k..]))
  }

  predicate HasStar(s: string) {
    exists i :: 0 <= i < |s| && s[i] == '*'
  }

  predicate EndsWithTwoStars(pattern: string) {
    2 <= |pattern| && pattern[|pattern| - 2] == '*' && pattern[|pattern| - 1] == '*'
  }

  // ---------- the matcher ----------

  method SafeFNMatch(pattern: string, str: string) returns (r: bool)
    ensures r <==> Accepts(pattern, str)
    decreases |pattern|
  {
    hide Accepts;
    var p, s := 0, 0;
    assert pattern[0..] == pattern && str[0..] == str;
    while true
      invariant p <= |pattern| && s <= |str|
      invariant Accepts(pattern, str) <==> Accepts(pattern[p..], str[s..])
      decreases |pattern| - p
    {
      OneRound(pattern, str, p, s);
      if p == |pattern| && s == |str| {
        return true;
      }
      if p == |pattern| {
        return false;
      }
      if s == |str| {
        return p + 1 == |pattern| && pattern[p] == '*';
      }
      if pattern[p] == str[s] || pattern[p] == '?' {
        p := p + 1;
        s := s + 1;
        continue;
      }
      if pattern[p] == '*' {
        if p + 1 == |pattern| {
          return true;
        }
        ghost var from := s;
        while true
          invariant from <= s < |str|
          invariant forall k: nat | from <= k < s :: !Accepts(pattern[p + 1..], str[k..])
          decreases |str| - s
        {
          var found := SafeFNMatch(pattern[p + 1..], str[s..]);
          if found {
            return true;
          }
          s := s + 1;
          if s == |str| {
            break;
          }
        }
        return false;
      }
      return false;
    }
  }

  /** The cases of one round, at positions p and s. */
  lemma OneRound(pattern: string, str: string, p: nat, s: nat)
    requires p <= |pattern| && s <= |str|
    ensures p == |pattern| ==> (Accepts(pattern[p..], str[s..]) <==> s == |str|)
    ensures p < |pattern| && s == |str| ==> (Accepts(pattern[p..], str[s..]) <==> p + 1 == |pattern| && pattern[p] == '*')
    ensures p < |pattern| && s < |str| && (pattern[p] == str[s] || pattern[p] == '?') ==>
              (Accepts(pattern[p..], str[s..]) <==> Accepts(pattern[p + 1..], str[s + 1..]))
    ensures p < |pattern| && s < |str| && !(pattern[p] == str[s] || pattern[p] == '?') ==>
              (Accepts(pattern[p..], str[s..]) <==>
               pattern[p] == '*' && (p + 1 == |pattern| || exists k: nat :: s <= k < |str| && Accepts(pattern[p + 1..], str[k..])))
  {
    if p < |pattern| && s < |str| {
      var pat, rest := pattern[p..], str[s..];
      assert pat[1..] == pattern[p + 1..] && rest[1..] == str[s + 1..];
      assert pat == "*" <==> p + 1 == |pattern| && pattern[p] == '*';
      forall k: nat | k < |rest|
        ensures rest[k..] == str[s + k..]
      {
      }
      SuffixExists(pattern[p + 1..], str, s);
    }
  }

  lemma SuffixExists(pat: string, str: string, s: nat)
    requires s <= |str|
    ensures (exists k: nat :: k < |str[s..]| && Accepts(pat, str[s..][k..])) <==> (exists k: nat :: s <= k < |str| && Accepts(pat, str[k..]))
  {
    hide Accepts;
    if k: nat :| k < |str[s..]| && Accepts(pat, str[s..][k..]) {
      assert str[s..][k..] == str[s + k..];
      assert Accepts(pat, str[s + k..]);
    }
    if k: nat :| s <= k < |str| && Accepts(pat, str[k..]) {
      assert str[s..][k - s..] == str[k..];
      assert Accepts(pat, str[s..][k - s..]);
    }
  }

  // ---------- soundness ----------

  /** A star may swallow any prefix. */
  lemma {:induction false} StarSwallows(pattern: string, str: string, k: nat)
    requires pattern != "" && pattern[0] == '*' && k <= |str| && Glob(pattern[1..], str[k..])
    ensures Glob(pattern, str)
    decreases k
  {
    if k == 0 {
      assert str[0..] == str;
    } else {
      assert str[1..][k - 1..] == str[k..];
      StarSwallows(pattern, str[1..], k - 1);
    }
  }

  lemma {:induction false} LoneStar(str: string)
    ensures Glob("*", str)
  {
    assert str[|str|..] == "" && "*"[1..] == "";
    StarSwallows("*", str, |str|);
  }

  /** Nothing outside the meaning of the pattern is accepted, whatever the string. */
  lemma {:induction false} Sound(pattern: string, str: string)
    requires Accepts(pattern, str)
    ensures Glob(pattern, str)
    decreases |pattern|
  {
    if pattern != "" {
      if str == "" || pattern == "*" {
        LoneStar(str);
      } else if pattern[0] == str[0] || pattern[0] == '?' {
        Sound(pattern[1..], str[1..]);
        if pattern[0] == '*' {
          StarSwallows(pattern, str, 1);
        }
      } else {
        var k: nat :| k < |str| && Accepts(pattern[1..], str[k..]);
        Sound(pattern[1..], str[k..]);
        StarSwallows(pattern, str, k);
      }
    }
  }

  // ---------- completeness ----------

  lemma {:induction false} StarSplits(pattern: string, str: string) returns (k: nat)
    requires pattern != "" && pattern[0] == '*' && Glob(pattern, str)
    ensures k <= |str| && Glob(pattern[1..], str[k..])
    decreases |str|
  {
    if Glob(pattern[1..], str) {
      k := 0;
      assert str[0..] == str;
    } else {
      k := StarSplits(pattern, str[1..]);
      assert str[1..][k..] == str[k + 1..];
      k := k + 1;
    }
  }

  /** Only stars match the empty string. */
  lemma {:induction false} EmptyNeedsStars(pattern: string)
    requires Glob(pattern, "")
    ensures forall i | 0 <= i < |pattern| :: pattern[i] == '*'
  {
    if pattern != "" {
      EmptyNeedsStars(pattern[1..]);
      forall i | 0 <= i < |pattern|
        ensures pattern[i] == '*'
      {
        assert 0 < i ==> pattern[i] == pattern[1..][i - 1];
      }
    }
  }

  lemma StarFreeSuffix(str: string, k: nat)
    requires k <= |str| && !HasStar(str)
    ensures !HasStar(str[k..])
  {
  }

  lemma TwoStarsOfTail(pattern: string)
    requires pattern != "" && !EndsWithTwoStars(pattern)
    ensures !EndsWithTwoStars(pattern[1..])
  {
  }

  /** Every match is found when the string has no star and the pattern does not end in two. */
  lemma {:induction false} Complete(pattern: string, str: string)
    requires Glob(pattern, str) && !HasStar(str) && !EndsWithTwoStars(pattern)
    ensures Accepts(pattern, str)
    decreases |pattern|
  {
    if pattern != "" {
      TwoStarsOfTail(pattern);
      if str == "" {
        EmptyNeedsStars(pattern);
        assert pattern == "*";
      } else if pattern[0] == '*' {
        assert str[0] != '*';
        var k := StarSplits(pattern, str);
        StarFreeSuffix(str, k);
        Complete(pattern[1..], str[k..]);
        if k == |str| {
          assert str[k..] == "";
          EmptyNeedsStars(pattern[1..]);
          assert pattern == "*";
        }
      } else {
        StarFreeSuffix(str, 1);
        Complete(pattern[1..], str[1..]);
      }
    }
  }

  // ---------- exactly when the matcher implements the patterns ----------

  function NonStars(pattern: string): nat {
    if pattern == "" then 0 else NonStars(pattern[1..]) + if pattern[0] == '*' then 0 else 1
  }

  /** The shortest match: stars are left out, and every ? becomes an x. */
  function Shortest(pattern: string): (s: string)
    ensures |s| == NonStars(pattern)
  {
    if pattern == "" then ""
    else if pattern[0] == '*' then Shortest(pattern[1..])
    else [if pattern[0] == '?' then 'x' else pattern[0]] + Shortest(pattern[1..])
  }

  lemma {:induction false} ShortestMatches(pattern: string)
    ensures Glob(pattern, Shortest(pattern)) && !HasStar(Shortest(pattern))
  {
    if pattern != "" {
      ShortestMatches(pattern[1..]);
      var s := Shortest(pattern);
      if pattern[0] != '*' {
        assert s[1..] == Shortest(pattern[1..]);
        assert forall i | 0 < i < |s| :: s[i] == s[1..][i - 1];
      }
    }
  }

  /** A pattern that ends in two stars is only accepted on more than its shortest match. */
  lemma {:induction false} TwoStarsNeedMore(pattern: string, str: string)
    requires Accepts(pattern, str) && !HasStar(str)
    ensures NonStars(pattern) <= |str|
    ensures EndsWithTwoStars(pattern) ==> NonStars(pattern) < |str|
    decreases |pattern|
  {
    if pattern != "" && str != "" && pattern != "*" {
      assert str[0] != '*';
      if pattern[0] == str[0] || pattern[0] == '?' {
        StarFreeSuffix(str, 1);
        TwoStarsNeedMore(pattern[1..], str[1..]);
      } else {
        var k: nat :| k < |str| && Accepts(pattern[1..], str[k..]);
        StarFreeSuffix(str, k);
        TwoStarsNeedMore(pattern[1..], str[k..]);
      }
    }
  }

  /** On strings without a star the matcher is right for exactly the patterns that do not end in two stars. */
  lemma RightOnPlainStrings(pattern: string)
    ensures (forall str: string | !HasStar(str) :: Accepts(pattern, str) <==> Glob(pattern, str)) <==> !EndsWithTwoStars(pattern)
  {
    if EndsWithTwoStars(pattern) {
      var s := Shortest(pattern);
      ShortestMatches(pattern);
      if Accepts(pattern, s) {
        TwoStarsNeedMore(pattern, s);
      }
    } else {
      forall str: string | !HasStar(str)
        ensures Accepts(pattern, str) <==> Glob(pattern, str)
      {
        if Accepts(pattern, str) {
          Sound(pattern, str);
        }
        if Glob(pattern, str) {
          Complete(pattern, str);
        }
      }
    }
  }

  lemma TailStars(pattern: string)
    requires pattern != ""
    ensures HasStar(pattern) <==> pattern[0] == '*' || HasStar(pattern[1..])
  {
    if i :| 0 <= i < |pattern[1..]| && pattern[1..][i] == '*' {
      assert pattern[i + 1] == '*';
    }
    if i :| 0 <= i < |pattern| && pattern[i] == '*' {
      assert i != 0 ==> pattern[1..][i - 1] == '*';
    }
  }

  lemma {:induction false} PlainLength(pattern: string, str: string)
    requires !HasStar(pattern)
    ensures NonStars(pattern) == |pattern|
    ensures Accepts(pattern, str) ==> |str| == |pattern|
    ensures Glob(pattern, str) ==> Accepts(pattern, str)
    decreases |pattern|
  {
    hide HasStar;
    if pattern != "" {
      TailStars(pattern);
      PlainLength(pattern[1..], if str == "" then "" else str[1..]);
      assert pattern != "*" by { LoneStarHasStar(); }
    }
  }

  lemma LoneStarHasStar()
    ensures HasStar("*")
  {
    assert "*"[0] == '*';
  }

  /** A match that contains the pattern's own stars, and one x more after the last of them. */
  function WithStars(pattern: string): string {
    if pattern == "" then ""
    else if pattern[0] == '*' && NonStars(pattern[1..]) == |pattern[1..]| then "*x" + Shortest(pattern[1..])
    else [if pattern[0] == '?' then 'x' else pattern[0]] + WithStars(pattern[1..])
  }

  lemma {:induction false} StarsCounted(pattern: string)
    ensures NonStars(pattern) <= |pattern|
    ensures NonStars(pattern) == |pattern| <==> !HasStar(pattern)
  {
    hide HasStar;
    if pattern == "" {
      assert !HasStar("") by { EmptyHasNone(); }
    } else {
      TailStars(pattern);
      StarsCounted(pattern[1..]);
    }
  }

  lemma EmptyHasNone()
    ensures !HasStar("")
  {
  }

  /** The matcher takes the stars of this string literally and misses the match. */
  lemma {:induction false} StarsTakenLiterally(pattern: string)
    requires HasStar(pattern)
    ensures Glob(pattern, WithStars(pattern)) && !Accepts(pattern, WithStars(pattern))
  {
    hide HasStar;
    assert pattern != "" by { EmptyHasNone(); }
    TailStars(pattern);
    StarsCounted(pattern[1..]);
    var rest, s := pattern[1..], WithStars(pattern);
    if HasStar(rest) {
      StarsTakenLiterally(rest);
      assert s[1..] == WithStars(rest);
      if pattern[0] == '*' {
        StarSwallows(pattern, s, 1);
      }
    } else {
      ShortestMatches(rest);
      assert s[1..] == "x" + Shortest(rest) && s[2..] == Shortest(rest);
      StarSwallows(pattern, s, 2);
      PlainLength(rest, s[1..]);
    }
  }

  /** On all strings the matcher is right for exactly the patterns without a star. */
  lemma RightOnAllStrings(pattern: string)
    ensures (forall str: string :: Accepts(pattern, str) <==> Glob(pattern, str)) <==> !HasStar(pattern)
  {
    if HasStar(pattern) {
      StarsTakenLiterally(pattern);
    } else {
      forall str: string
        ensures Accepts(pattern, str) <==> Glob(pattern, str)
      {
        if Accepts(pattern, str) {
          Sound(pattern, str);
        }
        PlainLength(pattern, str);
      }
    }
  }
}
