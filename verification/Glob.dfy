/** `wildcard_match` of kernel/ad_block.c against what globbing means. */
module Glob {
  type Str = seq<char>

  /** `*` stands for any string and `?` for any one character. */
  predicate Globs(p: Str, h: Str)
    decreases |p|
  {
    if p == [] then h == []
    else if p[0] == '*' then exists k :: 0 <= k <= |h| && Globs(p[1..], h[k..])
    else h != [] && (p[0] == '?' || p[0] == h[0]) && Globs(p[1..], h[1..])
  }

  predicate EndsInTwoStars(p: Str) {
    |p| >= 2 && p[|p| - 2] == '*' && p[|p| - 1] == '*'
  }

  /** `p` without the stars at its end. */
  function Stem(p: Str): Str {
    if p != [] && p[|p| - 1] == '*' then Stem(p[..|p| - 1]) else p
  }

  /** The pattern the code really implements: two or more stars at the end insist
      on at least one character. */
  function Effective(p: Str): Str {
    if EndsInTwoStars(p) then Stem(p) + ['?', '*'] else p
  }

  /** So behind any text that does not end in a star, two stars or more at the end
      mean: one character, then anything. */
  lemma {:induction false} StarsAtEndInsist(q: Str, n: nat)
    requires (q == [] || q[|q| - 1] != '*') && n >= 2
    ensures Effective(q + seq(n, _ => '*')) == q + ['?', '*']
  {
    StemOfStars(q, n);
  }

  lemma {:induction false} StemOfStars(q: Str, n: nat)
    requires q == [] || q[|q| - 1] != '*'
    ensures Stem(q + seq(n, _ => '*')) == q
  {
    var p := q + seq(n, _ => '*');
    if n == 0 {
      assert p == q;
    } else {
      StemOfStars(q, n - 1);
      assert p[..|p| - 1] == q + seq(n - 1, _ => '*');
    }
  }

  // ----- facts about globbing -----

  predicate AllStars(p: Str) {
    forall i :: 0 <= i < |p| ==> p[i] == '*'
  }

  lemma {:induction false} EmptyHost(p: Str)
    ensures Globs(p, []) <==> AllStars(p)
  {
    if p != [] {
      EmptyHost(p[1..]);
      assert AllStars(p) <==> p[0] == '*' && AllStars(p[1..]);
      if p[0] == '*' {
        var none: Str := [];
        assert none[0..] == none;
      }
    }
  }

  lemma LoneStar(h: Str)
    ensures Globs(['*'], h)
  {
    assert h[|h|..] == [] && ['*'][1..] == [];
    assert Globs(['*'][1..], h[|h|..]);
  }

  lemma QuestionStar(h: Str)
    ensures Globs(['?', '*'], h) <==> h != []
  {
    assert ['?', '*'][1..] == ['*'];
    if h != [] {
      LoneStar(h[1..]);
    }
  }

  /** How many characters a match needs at least. */
  function MinLength(p: Str): nat {
    if p == [] then 0 else (if p[0] == '*' then 0 else 1) + MinLength(p[1..])
  }

  lemma {:induction false} MatchIsLongEnough(p: Str, h: Str)
    requires Globs(p, h)
    ensures |h| >= MinLength(p)
    decreases |p|
  {
    if p != [] {
      if p[0] == '*' {
        var k :| 0 <= k <= |h| && Globs(p[1..], h[k..]);
        MatchIsLongEnough(p[1..], h[k..]);
      } else {
        MatchIsLongEnough(p[1..], h[1..]);
      }
    }
  }

  /** A shortest host the pattern matches. */
  function Instance(p: Str): Str {
    if p == [] then [] else (if p[0] == '*' then [] else if p[0] == '?' then ['a'] else [p[0]]) + Instance(p[1..])
  }

  lemma {:induction false} InstanceMatches(p: Str)
    ensures Globs(p, Instance(p)) && |Instance(p)| == MinLength(p)
  {
    if p != [] {
      InstanceMatches(p[1..]);
      var h := Instance(p);
      if p[0] == '*' {
        assert h[0..] == Instance(p[1..]);
      } else {
        assert h[1..] == Instance(p[1..]);
      }
    }
  }

  lemma {:induction false} StarsAtEndAddNothing(p: Str, h: Str)
    requires Globs(p, h)
    ensures Globs(p + ['*'], h)
    decreases |p|
  {
    if p == [] {
      LoneStar(h);
      assert p + ['*'] == ['*'];
    } else {
      assert (p + ['*'])[1..] == p[1..] + ['*'];
      if p[0] == '*' {
        var k :| 0 <= k <= |h| && Globs(p[1..], h[k..]);
        StarsAtEndAddNothing(p[1..], h[k..]);
      } else {
        StarsAtEndAddNothing(p[1..], h[1..]);
      }
    }
  }

  lemma {:induction false} StemMatchesToo(p: Str, h: Str)
    requires Globs(Stem(p), h)
    ensures Globs(p, h)
    decreases |p|
  {
    if p != [] && p[|p| - 1] == '*' {
      StemMatchesToo(p[..|p| - 1], h);
      StarsAtEndAddNothing(p[..|p| - 1], h);
      assert p[..|p| - 1] + ['*'] == p;
    }
  }

  lemma {:induction false} LengthOfConcat(p: Str, q: Str)
    ensures MinLength(p + q) == MinLength(p) + MinLength(q)
  {
    if p == [] {
      assert p + q == q;
    } else {
      assert (p + q)[1..] == p[1..] + q;
      LengthOfConcat(p[1..], q);
    }
  }

  // ----- how the effective pattern unfolds, character by character -----

  lemma {:induction false} StemOfTail(p: Str)
    requires p != []
    ensures AllStars(p) ==> Stem(p) == []
    ensures !AllStars(p) ==> Stem(p) == [p[0]] + Stem(p[1..])
    decreases |p|
  {
    if p[|p| - 1] == '*' {
      var q := p[..|p| - 1];
      if q != [] {
        StemOfTail(q);
        assert q[1..] == p[1..][..|p[1..]| - 1];
        assert AllStars(p) <==> AllStars(q);
      }
    } else if |p| > 1 {
      assert p == [p[0]] + p[1..];
      assert p[1..][|p| - 2] == p[|p| - 1];
    } else {
      assert p[1..] == [];
    }
  }

  /** An ordinary character or `?` is matched first, then the rest. */
  lemma PlainStep(p: Str, h: Str)
    requires p != [] && p[0] != '*'
    ensures Globs(Effective(p), h) <==>
            h != [] && (p[0] == '?' || p[0] == h[0]) && Globs(Effective(p[1..]), h[1..])
  {
    StemOfTail(p);
    if EndsInTwoStars(p) {
      assert EndsInTwoStars(p[1..]);
      assert Effective(p)[1..] == Effective(p[1..]);
    } else {
      assert !EndsInTwoStars(p[1..]);
    }
  }

  lemma AllStarsLeft(q: Str, h: Str)
    requires q != [] && AllStars(q) && h != []
    ensures Globs(Effective(q), h)
  {
    if |q| == 1 {
      assert q == ['*'];
      LoneStar(h);
    } else {
      StemOfTail(q);
      QuestionStar(h);
      assert Effective(q) == ['?', '*'];
    }
  }

  /** What follows the leading stars of an effective pattern needs a character. */
  lemma TailNeedsText(p: Str)
    requires |p| > 1 && p[0] == '*' && !AllStars(p)
    ensures Effective(p) == ['*'] + Effective(p[1..]) && !Globs(Effective(p[1..]), [])
  {
    var q := p[1..];
    StemOfTail(p);
    EmptyHost(Effective(q));
    if EndsInTwoStars(p) {
      assert EndsInTwoStars(q) by {
        assert |p| > 2;
      }
      assert Effective(q)[|Stem(q)|] == '?';
    } else {
      assert !EndsInTwoStars(q) && !AllStars(q);
    }
  }

  /** A star that is not last is tried on every non-empty rest of the host. */
  lemma StarStep(p: Str, h: Str)
    requires |p| > 1 && p[0] == '*'
    ensures Globs(Effective(p), h) <==> exists k :: 0 <= k < |h| && Globs(Effective(p[1..]), h[k..])
  {
    if AllStars(p) {
      StemOfTail(p);
      QuestionStar(h);
      assert Effective(p) == ['?', '*'];
      if h != [] {
        AllStarsLeft(p[1..], h[0..]);
      }
    } else {
      TailNeedsText(p);
      assert h[|h|..] == [] && Effective(p)[1..] == Effective(p[1..]);
    }
  }

  lemma OneStarLeft(p: Str, h: Str)
    requires |p| == 1 && p[0] == '*'
    ensures Globs(Effective(p), h)
  {
    assert p == ['*'];
    LoneStar(h);
  }

  lemma NothingLeft(p: Str, h: Str)
    requires p == []
    ensures Globs(Effective(p), h) <==> h == []
  {
  }

  /** The same steps at positions of a pattern and a host. */
  predicate MatchAt(pattern: Str, p: nat, host: Str, h: nat)
    requires p <= |pattern| && h <= |host|
  {
    Globs(Effective(pattern[p..]), host[h..])
  }

  lemma PlainAt(pattern: Str, p: nat, host: Str, h: nat)
    requires p < |pattern| && h <= |host| && pattern[p] != '*'
    ensures MatchAt(pattern, p, host, h) <==>
            h < |host| && (pattern[p] == '?' || pattern[p] == host[h]) && MatchAt(pattern, p + 1, host, h + 1)
  {
    hide Globs, Effective;
    PlainStep(pattern[p..], host[h..]);
    assert pattern[p..][1..] == pattern[p + 1..];
    if h < |host| {
      assert host[h..][1..] == host[h + 1..];
    }
  }

  /** Some non-empty rest of the host from `h` on matches the pattern from `p` on. */
  predicate RestMatches(pattern: Str, p: nat, host: Str, h: nat)
    requires p <= |pattern| && h <= |host|
  {
    exists k :: h <= k < |host| && MatchAt(pattern, p, host, k)
  }

  lemma StarAt(pattern: Str, p: nat, host: Str, h: nat)
    requires p + 1 < |pattern| && h <= |host| && pattern[p] == '*'
    ensures MatchAt(pattern, p, host, h) <==> RestMatches(pattern, p + 1, host, h)
  {
    hide Globs, Effective;
    var left, rest, next := host[h..], pattern[p + 1..], p + 1;
    StarStep(pattern[p..], left);
    assert pattern[p..][1..] == rest;
    if k :| 0 <= k < |left| && Globs(Effective(rest), left[k..]) {
      assert left[k..] == host[h + k..];
      assert MatchAt(pattern, next, host, h + k);
    }
    if k :| h <= k < |host| && MatchAt(pattern, next, host, k) {
      assert left[k - h..] == host[k..];
    }
  }

  lemma MatchFromStart(pattern: Str, host: Str)
    ensures MatchAt(pattern, 0, host, 0) == Globs(Effective(pattern), host)
  {
    hide Globs, Effective;
    assert pattern[0..] == pattern && host[0..] == host;
  }

  // ----- the code -----

  /** `wildcard_match`. */
  method WildcardMatch(host: Str, pattern: Str) returns (r: bool)
    ensures r == Globs(Effective(pattern), host)
    decreases |pattern|, 1
  {
    hide MatchAt, RestMatches, Globs, Effective;
    MatchFromStart(pattern, host);
    var p, h := 0, 0;
    while p < |pattern|
      invariant 0 <= p <= |pattern| && 0 <= h <= |host|
      invariant MatchAt(pattern, 0, host, 0) == MatchAt(pattern, p, host, h)
    {
      if pattern[p] == '*' {
        if p + 1 == |pattern| {
          LastStarMatches(pattern, host, h);
          return true;
        }
        StarAt(pattern, p, host, h);
        r := TryRests(host, h, pattern, p + 1);
        return;
      }
      PlainAt(pattern, p, host, h);
      if (h == |host| || host[h] != pattern[p]) && pattern[p] != '?' { return false; }
      if h == |host| { return false; }
      p, h := p + 1, h + 1;
    }
    PatternUsedUp(pattern, host, h);
    return h == |host|;
  }

  /** The loop behind a star: every non-empty rest of the host is tried. */
  method TryRests(host: Str, h0: nat, pattern: Str, p: nat) returns (r: bool)
    requires h0 <= |host| && 0 < p <= |pattern|
    ensures r <==> RestMatches(pattern, p, host, h0)
    decreases |pattern|, 0
  {
    hide Globs, Effective;
    var h := h0;
    while h < |host|
      invariant h0 <= h <= |host|
      invariant forall k :: h0 <= k < h ==> !MatchAt(pattern, p, host, k)
    {
      r := WildcardMatch(host[h..], pattern[p..]);
      if r {
        assert MatchAt(pattern, p, host, h);
        return;
      }
      h := h + 1;
    }
    return false;
  }

  lemma LastStarMatches(pattern: Str, host: Str, h: nat)
    requires pattern != [] && pattern[|pattern| - 1] == '*' && h <= |host|
    ensures MatchAt(pattern, |pattern| - 1, host, h)
  {
    OneStarLeft(pattern[|pattern| - 1..], host[h..]);
  }

  lemma PatternUsedUp(pattern: Str, host: Str, h: nat)
    requires h <= |host|
    ensures MatchAt(pattern, |pattern|, host, h) <==> h == |host|
  {
    NothingLeft(pattern[|pattern|..], host[h..]);
  }

  /** Main result on the matcher: it agrees with globbing on every host exactly
      when the pattern does not end in two stars. */
  lemma AgreesWithGlobbingIff(p: Str)
    ensures (forall h :: Globs(Effective(p), h) <==> Globs(p, h)) <==> !EndsInTwoStars(p)
  {
    if EndsInTwoStars(p) {
      var h := Instance(Stem(p));
      InstanceMatches(Stem(p));
      StemMatchesToo(p, h);
      LengthOfConcat(Stem(p), ['?', '*']);
      assert ['?', '*'][1..] == ['*'] && ['*'][1..] == [];
      assert MinLength(['?', '*']) == 1;
      assert !Globs(Effective(p), h) by {
        if Globs(Effective(p), h) {
          MatchIsLongEnough(Effective(p), h);
        }
      }
    }
  }
}
