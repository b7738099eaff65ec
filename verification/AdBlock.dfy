/** The host blocker of kernel/ad_block.c: its rule store and the host check. */
module AdBlock {
  import opened Glob
  import opened Prelude

  const MAX_DOMAINS: nat := 256
  const DOMAIN_MAX: nat := 80

  // ----- normal form -----

  function LowerChar(c: char): char {
    if 'A' <= c <= 'Z' then c - 'A' + 'a' else c
  }

  function Lower(s: Str): Str {
    seq(|s|, i requires 0 <= i < |s| => LowerChar(s[i]))
  }

  function StripDots(s: Str): (r: Str)
    ensures r <= s && (r != [] ==> r[|r| - 1] != '.')
  {
    if s != [] && s[|s| - 1] == '.' then StripDots(s[..|s| - 1]) else s
  }

  /** Lower case, at most 79 characters, no dots at the end. */
  function Norm(s: Str): Str {
    StripDots(Lower(s[..Min(|s|, DOMAIN_MAX - 1)]))
  }

  lemma LowerEmpty()
    ensures Lower([]) == []
  {
  }

  lemma LowerAppend(s: Str, c: char)
    ensures Lower(s + [c]) == Lower(s) + [LowerChar(c)]
  {
  }

  lemma StripOne(s: Str)
    requires s != [] && s[|s| - 1] == '.'
    ensures StripDots(s) == StripDots(s[..|s| - 1])
  {
  }

  lemma StripNone(s: Str)
    requires s == [] || s[|s| - 1] != '.'
    ensures StripDots(s) == s
  {
  }

  /** `domain_to_lower`. */
  method DomainToLower(src: Str) returns (dst: Str)
    ensures dst == Norm(src)
  {
    hide StripDots, Lower;
    assert Lower(src[..0]) == [] by { assert src[..0] == []; LowerEmpty(); }
    var buf: Str := [];
    var i := 0;
    while i < |src| && i < DOMAIN_MAX - 1
      invariant |buf| == i <= Min(|src|, DOMAIN_MAX - 1) && buf == Lower(src[..i])
    {
      var c := src[i];
      if c >= 'A' && c <= 'Z' {
        c := c - 'A' + 'a';
      }
      LowerAppend(src[..i], src[i]);
      assert src[..i + 1] == src[..i] + [src[i]];
      buf := buf + [c];
      i := i + 1;
    }
    assert buf[..i] == buf == Lower(src[..Min(|src|, DOMAIN_MAX - 1)]);
    while i > 0 && buf[i - 1] == '.'
      invariant 0 <= i <= |buf| && StripDots(buf[..i]) == Norm(src)
    {
      StripOne(buf[..i]);
      assert buf[..i][..i - 1] == buf[..i - 1];
      i := i - 1;
    }
    StripNone(buf[..i]);
    dst := buf[..i];
  }

  lemma NormIsIdempotent(s: Str)
    ensures Norm(Norm(s)) == Norm(s)
  {
    var t := Lower(s[..Min(|s|, DOMAIN_MAX - 1)]);
    var n := StripDots(t);
    assert forall i :: 0 <= i < |n| ==> n[i] == t[i];
    assert Lower(n) == n;
    assert n[..Min(|n|, DOMAIN_MAX - 1)] == n;
  }

  /** What normalising keeps: a prefix of the name's first 79 characters, without
      capitals and without a dot at its end, cut only at dots. */
  lemma {:induction false} NormShape(s: Str)
    ensures |Norm(s)| <= Min(|s|, DOMAIN_MAX - 1)
    ensures Norm(s) == [] || Norm(s)[|Norm(s)| - 1] != '.'
    ensures forall i :: 0 <= i < |Norm(s)| ==>
              !('A' <= Norm(s)[i] <= 'Z') && (Norm(s)[i] == s[i] || ('A' <= s[i] <= 'Z' && Norm(s)[i] as int == s[i] as int + 32))
    ensures forall i :: |Norm(s)| <= i < Min(|s|, DOMAIN_MAX - 1) ==> s[i] == '.'
  {
    var t := Lower(s[..Min(|s|, DOMAIN_MAX - 1)]);
    StrippedAreDots(t);
    forall i | |Norm(s)| <= i < |t|
      ensures s[i] == '.'
    {
      assert t[i] == '.' && t[i] == LowerChar(s[i]);
    }
  }

  lemma {:induction false} StrippedAreDots(s: Str)
    ensures forall i :: |StripDots(s)| <= i < |s| ==> s[i] == '.'
  {
    if s != [] && s[|s| - 1] == '.' {
      StrippedAreDots(s[..|s| - 1]);
    }
  }

  // ----- what a rule blocks -----

  predicate HasWildcard(rule: Str) {
    '*' in rule || '?' in rule
  }

  predicate EndsWith(host: Str, rule: Str) {
    |rule| <= |host| && host[|host| - |rule|..] == rule
  }

  /** A plain rule blocks its own host and every host below it; a rule with
      wildcards blocks what it globs. */
  predicate RuleBlocks(rule: Str, host: Str) {
    if HasWildcard(rule) then Globs(Effective(rule), host)
    else host == rule || EndsWith(host, ['.'] + rule)
  }

  predicate Blocked(rules: seq<Str>, host: Str) {
    Norm(host) != [] && exists i :: 0 <= i < |rules| && RuleBlocks(rules[i], Norm(host))
  }

  // ----- the store -----

  predicate WellFormed(rule: Str) {
    rule != [] && rule[0] != '#' && Norm(rule) == rule
  }

  predicate StoreOk(rules: seq<Str>) {
    && |rules| <= MAX_DOMAINS
    && (forall i :: 0 <= i < |rules| ==> WellFormed(rules[i]))
    && (forall i, j :: 0 <= i < j < |rules| ==> rules[i] != rules[j])
  }

  function AddCode(rules: seq<Str>, name: Str): int {
    if name == [] || |rules| >= MAX_DOMAINS || Norm(name) == [] || Norm(name)[0] == '#' then -1 else 0
  }

  function AfterAdd(rules: seq<Str>, name: Str): seq<Str> {
    if AddCode(rules, name) == -1 || Norm(name) in rules then rules else rules + [Norm(name)]
  }

  function IndexOf(rules: seq<Str>, x: Str): (k: nat)
    ensures k <= |rules| && (k < |rules| ==> rules[k] == x)
    ensures forall j :: 0 <= j < k ==> rules[j] != x
  {
    if rules == [] || rules[0] == x then 0 else 1 + IndexOf(rules[1..], x)
  }

  function RemoveCode(rules: seq<Str>, name: Str): int {
    if name != [] && Norm(name) in rules then 0 else -1
  }

  function AfterRemove(rules: seq<Str>, name: Str): seq<Str> {
    var k := IndexOf(rules, Norm(name));
    if RemoveCode(rules, name) == -1 then rules else rules[..k] + rules[k + 1..]
  }

  class Blocker {
    const domains: array<Str>
    var count: nat
    var enabled: bool

    ghost predicate Valid()
      reads this
    {
      domains.Length == MAX_DOMAINS && count <= MAX_DOMAINS
    }

    ghost function Rules(): seq<Str>
      requires Valid()
      reads this, domains
    {
      domains[..count]
    }

    /** `adblock_init`, before any list is loaded. */
    constructor ()
      ensures Valid() && fresh(domains) && Rules() == [] && enabled
    {
      domains := new Str[MAX_DOMAINS](_ => "");
      count := 0;
      enabled := true;
    }

    /** `domain_exists`. */
    method DomainExists(name: Str) returns (r: bool)
      requires Valid()
      ensures r <==> name in Rules()
    {
      for i := 0 to count
        invariant name !in domains[..i]
      {
        if domains[i] == name { return true; }
      }
      return false;
    }

    /** `domain_add`, behind `adblock_add_domain`. */
    method AddDomain(name: Str) returns (r: int)
      requires Valid()
      modifies `count, domains
      ensures Valid() && Rules() == AfterAdd(old(Rules()), name) && r == AddCode(old(Rules()), name)
    {
      if name == [] || count >= MAX_DOMAINS { return -1; }
      var norm := DomainToLower(name);
      if norm == [] || norm[0] == '#' { return -1; }
      var exists' := DomainExists(norm);
      if exists' { return 0; }
      domains[count] := norm;
      count := count + 1;
      return 0;
    }

    method ShiftDown(i: nat)
      requires Valid() && i < count
      modifies domains
      ensures domains[..count - 1] == old(domains[..i]) + old(domains[i + 1..count])
    {
      for j := i to count - 1
        invariant forall k :: 0 <= k < i ==> domains[k] == old(domains[k])
        invariant forall k :: i <= k < j ==> domains[k] == old(domains[k + 1])
        invariant forall k :: j <= k < count ==> domains[k] == old(domains[k])
      {
        domains[j] := domains[j + 1];
      }
    }

    /** `adblock_remove_domain`: later rules move down by one. */
    method RemoveDomain(name: Str) returns (r: int)
      requires Valid()
      modifies `count, domains
      ensures Valid() && Rules() == AfterRemove(old(Rules()), name) && r == RemoveCode(old(Rules()), name)
    {
      if name == [] { return -1; }
      hide Norm;
      var norm := DomainToLower(name);
      ghost var rules := Rules();
      for i := 0 to count
        invariant count == old(count) && domains[..] == old(domains[..])
        invariant forall j :: 0 <= j < i ==> rules[j] != norm
      {
        if domains[i] == norm {
          assert rules[i] == norm && IndexOf(rules, norm) == i;
          ShiftDown(i);
          count := count - 1;
          assert Rules() == rules[..i] + rules[i + 1..];
          return 0;
        }
      }
      return -1;
    }

    /** `adblock_check_host`. */
    method CheckHost(host: Str) returns (r: bool)
      requires Valid()
      ensures r <==> enabled && Blocked(Rules(), host)
    {
      hide Norm, Globs, Effective;
      if !enabled || host == [] {
        EmptyNorm();
        return false;
      }
      var norm := DomainToLower(host);
      if norm == [] { return false; }
      for i := 0 to count
        invariant forall j :: 0 <= j < i ==> !RuleBlocks(domains[j], norm)
      {
        var rule := domains[i];
        if '*' in rule || '?' in rule {
          var m := WildcardMatch(norm, rule);
          if m {
            assert RuleBlocks(Rules()[i], norm);
            return true;
          }
          continue;
        }
        var rlen, hlen := |rule|, |norm|;
        if norm == rule {
          assert RuleBlocks(Rules()[i], norm);
          return true;
        }
        SuffixAtDot(norm, rule);
        if hlen > rlen && norm[hlen - rlen - 1] == '.' && norm[hlen - rlen..] == rule {
          assert RuleBlocks(Rules()[i], norm);
          return true;
        }
      }
      return false;
    }
  }

  lemma EmptyNorm()
    ensures Norm([]) == []
  {
  }

  /** The code tests the dot and the rest apart. */
  lemma SuffixAtDot(host: Str, rule: Str)
    ensures EndsWith(host, ['.'] + rule) <==>
            |host| > |rule| && host[|host| - |rule| - 1] == '.' && host[|host| - |rule|..] == rule
  {
    if |host| > |rule| {
      assert host[|host| - |rule| - 1..] == [host[|host| - |rule| - 1]] + host[|host| - |rule|..];
    }
  }

  /** A host below a rule is any text, a dot, and the rule. */
  lemma EndsWithIff(host: Str, rule: Str)
    ensures EndsWith(host, rule) <==> exists pre: Str :: host == pre + rule
  {
    if EndsWith(host, rule) {
      assert host == host[..|host| - |rule|] + rule;
    }
  }

  /** Main result on the host check: a host is blocked exactly when something is left
      of it in normal form, and that is a rule without wildcards, or text, a dot and
      such a rule, or is globbed by a rule with wildcards (for stars at the end of a
      rule see `StarsAtEndInsist`). */
  lemma BlockedIff(rules: seq<Str>, host: Str)
    ensures var h := Norm(host);
            Blocked(rules, host) <==>
            (h != [] && exists i ::
               0 <= i < |rules| && if '*' in rules[i] || '?' in rules[i] then Globs(Effective(rules[i]), h)
                                   else h == rules[i] || exists pre: Str :: h == pre + (['.'] + rules[i]))
  {
    hide Norm, Globs, Effective;
    forall i | 0 <= i < |rules|
      ensures EndsWith(Norm(host), ['.'] + rules[i]) <==> exists pre: Str :: Norm(host) == pre + (['.'] + rules[i])
    {
      EndsWithIff(Norm(host), ['.'] + rules[i]);
    }
  }

  // ----- the store under any adds and removes -----

  datatype Change = Add(name: Str) | Remove(name: Str)

  function Changed(rules: seq<Str>, c: Change): seq<Str> {
    match c
    case Add(name) => AfterAdd(rules, name)
    case Remove(name) => AfterRemove(rules, name)
  }

  function ChangedBy(rules: seq<Str>, cs: seq<Change>): seq<Str>
    decreases cs
  {
    if cs == [] then rules else ChangedBy(Changed(rules, cs[0]), cs[1..])
  }

  lemma ChangeKeepsStore(rules: seq<Str>, c: Change)
    requires StoreOk(rules)
    ensures StoreOk(Changed(rules, c))
  {
    hide Norm, IndexOf;
    NormIsIdempotent(c.name);
    if c.Remove? {
      RemoveKeepsStore(rules, IndexOf(rules, Norm(c.name)));
    }
  }

  lemma RemoveKeepsStore(rules: seq<Str>, k: nat)
    requires StoreOk(rules)
    ensures k < |rules| ==> StoreOk(rules[..k] + rules[k + 1..])
  {
    hide WellFormed;
    if k < |rules| {
      var after := rules[..k] + rules[k + 1..];
      assert forall i :: 0 <= i < |after| ==> after[i] == if i < k then rules[i] else rules[i + 1];
    }
  }

  /** The store stays free of duplicates, normalised and within its size. */
  lemma {:induction false} StoreStaysOk(rules: seq<Str>, cs: seq<Change>)
    requires StoreOk(rules)
    ensures StoreOk(ChangedBy(rules, cs))
    decreases cs
  {
    if cs != [] {
      ChangeKeepsStore(rules, cs[0]);
      StoreStaysOk(Changed(rules, cs[0]), cs[1..]);
    }
  }

  /** A name is accepted exactly when there is room, it does not begin a comment, and
      some of its first 79 characters is not a dot. */
  lemma AcceptedIff(rules: seq<Str>, name: Str)
    ensures AddCode(rules, name) == 0 <==>
            |rules| < 256 && name != [] && name[0] != '#' && exists i :: 0 <= i < |name| && i < 79 && name[i] != '.'
    ensures AddCode(rules, name) == 0 || AddCode(rules, name) == -1
  {
    hide Norm;
    NormShape(name);
    if Norm(name) != [] {
      NormKeepsText(name);
    }
  }

  /** A normal form that is not empty ends where the name has text. */
  lemma NormKeepsText(name: Str)
    requires Norm(name) != []
    ensures var i := |Norm(name)| - 1; i < |name| && i < 79 && name[i] != '.'
  {
    NormShape(name);
  }

  /** What a change does to the order: an add appends the normal form or, if it is
      refused or there already, changes nothing; a remove closes one gap. */
  lemma ChangesInOrder(rules: seq<Str>, name: Str)
    ensures AfterAdd(rules, name) == rules + [Norm(name)] || AfterAdd(rules, name) == rules
    ensures AfterAdd(rules, name) == rules <==> AddCode(rules, name) == -1 || Norm(name) in rules
    ensures forall k :: 0 <= k < |rules| && name != [] && rules[k] == Norm(name) && Norm(name) !in rules[..k] ==>
              RemoveCode(rules, name) == 0 && AfterRemove(rules, name) == Drop(rules, k)
    ensures name == [] || Norm(name) !in rules ==> RemoveCode(rules, name) == -1 && AfterRemove(rules, name) == rules
  {
    hide Norm;
    forall k | 0 <= k < |rules| && name != [] && rules[k] == Norm(name) && Norm(name) !in rules[..k]
      ensures AfterRemove(rules, name) == Drop(rules, k)
    {
      assert forall j :: 0 <= j < k ==> rules[..k][j] != Norm(name);
    }
  }

  /** In a well-formed store, the rules behave as a set: an accepted add puts in
      exactly the normal form, a remove takes out exactly that. */
  lemma ChangesAsSet(rules: seq<Str>, name: Str, x: Str)
    requires StoreOk(rules)
    ensures AddCode(rules, name) == 0 ==> (x in AfterAdd(rules, name) <==> x in rules || x == Norm(name))
    ensures name != [] ==> (x in AfterRemove(rules, name) <==> x in rules && x != Norm(name))
  {
    hide Norm, IndexOf;
    if RemoveCode(rules, name) == 0 {
      DropAsSet(rules, IndexOf(rules, Norm(name)), x);
    }
  }

  lemma DropAsSet(rules: seq<Str>, k: nat, x: Str)
    requires StoreOk(rules) && k < |rules|
    ensures x in rules[..k] + rules[k + 1..] <==> x in rules && x != rules[k]
  {
    hide WellFormed;
    var after := rules[..k] + rules[k + 1..];
    assert forall i :: 0 <= i < |after| ==> after[i] == rules[if i < k then i else i + 1];
    if x in rules && x != rules[k] {
      var i :| 0 <= i < |rules| && rules[i] == x;
      assert after[if i < k then i else i - 1] == x;
    }
  }

  /** Adding a new name and removing it again leaves the store as it was. */
  lemma AddThenRemove(rules: seq<Str>, name: Str)
    requires StoreOk(rules) && AddCode(rules, name) == 0 && Norm(name) !in rules
    ensures AfterRemove(AfterAdd(rules, name), name) == rules
  {
    hide Norm;
    var added := AfterAdd(rules, name);
    assert added[|rules|] == Norm(name);
    assert IndexOf(added, Norm(name)) == |rules|;
  }

  // ----- adding a name blocks it -----

  lemma {:induction false} PatternGlobsItself(p: Str)
    ensures Globs(p, p)
  {
    if p != [] {
      PatternGlobsItself(p[1..]);
      if p[0] == '*' {
        assert Globs(p[1..], p[1..]);
      }
    }
  }

  lemma {:induction false} StemThenAnything(p: Str, h: Str, tail: Str)
    requires Globs(p, h) && tail != []
    ensures Globs(p + ['?', '*'], h + tail)
    decreases |p|
  {
    if p == [] {
      QuestionStar(tail);
      assert p + ['?', '*'] == ['?', '*'] && h + tail == tail;
    } else {
      assert (p + ['?', '*'])[1..] == p[1..] + ['?', '*'];
      if p[0] == '*' {
        var k :| 0 <= k <= |h| && Globs(p[1..], h[k..]);
        StemThenAnything(p[1..], h[k..], tail);
        assert (h + tail)[k..] == h[k..] + tail;
      } else {
        StemThenAnything(p[1..], h[1..], tail);
        assert (h + tail)[1..] == h[1..] + tail;
      }
    }
  }

  lemma {:induction false} StemIsPrefix(p: Str)
    ensures Stem(p) <= p && (EndsInTwoStars(p) ==> |Stem(p)| < |p|)
    decreases |p|
  {
    if p != [] && p[|p| - 1] == '*' {
      StemIsPrefix(p[..|p| - 1]);
    }
  }

  /** A name that was accepted is blocked, wildcards and all, and so is every host
      below it when it has none. */
  lemma AddedNameIsBlocked(rules: seq<Str>, name: Str)
    requires AddCode(rules, name) == 0
    ensures Blocked(AfterAdd(rules, name), name)
    ensures forall sub: Str ::
              (!HasWildcard(Norm(name)) && EndsWith(Norm(sub), ['.'] + Norm(name)) ==> Blocked(AfterAdd(rules, name), sub))
  {
    hide Norm;
    var n, after := Norm(name), AfterAdd(rules, name);
    var i :| 0 <= i < |after| && after[i] == n;
    if HasWildcard(n) {
      if EndsInTwoStars(n) {
        var s := Stem(n);
        StemIsPrefix(n);
        PatternGlobsItself(s);
        StemThenAnything(s, s, n[|s|..]);
        assert s + n[|s|..] == n;
      } else {
        PatternGlobsItself(n);
      }
    }
    assert RuleBlocks(after[i], n);
    forall sub: Str | !HasWildcard(n) && EndsWith(Norm(sub), ['.'] + n)
      ensures Blocked(after, sub)
    {
      assert RuleBlocks(after[i], Norm(sub));
    }
  }
}
