/** Which requests go through a proxy: include and exclude rules with wildcards, decided by the
    most specific rule that matches. */
module Proxy {
  import opened Wrappers

  type Domain = string
  type Url = string

  datatype Rule = WildCard | WildCarded(suffix: string) | Exact(domain: Domain)

  predicate EndsWith(s: string, suffix: string) {
    |suffix| <= |s| && s[|s| - |suffix|..] == suffix
  }

  predicate Matches(rule: Rule, domain: Domain) {
    match rule
    case WildCard => true
    case WildCarded(d) => EndsWith(domain, d)
    case Exact(d) => domain == d
  }

  predicate MoreSpecific(a: Rule, b: Rule) {
    match (a, b)
    case (WildCard, WildCard) => false
    case (_, WildCard) => true
    case (Exact(x), WildCarded(_)) => Matches(b, x)
    case (WildCarded(x), WildCarded(y)) => x != y && EndsWith(x, y)
    case _ => false
  }

  /** A leading `*.` keeps its dot, a lone `*` matches every suffix. */
  function ParseRule(s: string): (rule: Rule)
    ensures !rule.WildCard?
  {
    if "*." <= s then WildCarded(s[1..])
    else if s == "*" then WildCarded("")
    else Exact(s)
  }

  // ---------- what a rule matches ----------

  ghost predicate HasSuffix(s: string, suffix: string) {
    exists front :: s == front + suffix
  }

  lemma EndsWithIff(s: string, suffix: string)
    ensures EndsWith(s, suffix) <==> HasSuffix(s, suffix)
  {
    if EndsWith(s, suffix) { assert s == s[..|s| - |suffix|] + suffix; }
  }

  /** A wildcard matches everything before its suffix, any other rule one domain. */
  lemma MatchesIff(rule: Rule, domain: Domain)
    ensures rule.WildCarded? ==> (Matches(rule, domain) <==> exists front :: domain == front + rule.suffix)
    ensures rule.Exact? ==> (Matches(rule, domain) <==> domain == rule.domain)
    ensures rule.WildCard? ==> Matches(rule, domain)
  {
    if rule.WildCarded? { EndsWithIff(domain, rule.suffix); }
  }

  /** What the written forms stand for: `*.s` all subdomains of `s` but not `s` itself, `*` every domain, and
      anything else itself. */
  lemma ParsedMatches(s: string, domain: Domain)
    ensures Matches(ParseRule("*." + s), domain) <==> exists front :: domain == front + ("." + s)
    ensures !Matches(ParseRule("*." + s), s)
    ensures Matches(ParseRule("*"), domain)
    ensures s != "*" && !("*." <= s) ==> (Matches(ParseRule(s), domain) <==> domain == s)
  {
    var wild := "*." + s;
    assert wild[1..] == "." + s && "*." <= wild;
    MatchesIff(ParseRule(wild), domain);
  }

  // ---------- specificity ----------

  /** Below the implicit wildcard, one rule is more specific than another when the other is a wildcard whose
      proper extension it is. */
  lemma MoreSpecificIff(a: Rule, b: Rule)
    ensures MoreSpecific(a, b) <==>
            || (b.WildCard? && !a.WildCard?)
            || (b.WildCarded? && a.Exact? && HasSuffix(a.domain, b.suffix))
            || (b.WildCarded? && a.WildCarded? && a.suffix != b.suffix && HasSuffix(a.suffix, b.suffix))
  {
    if b.WildCarded? && a.Exact? { EndsWithIff(a.domain, b.suffix); }
    if b.WildCarded? && a.WildCarded? { EndsWithIff(a.suffix, b.suffix); }
  }

  lemma Irreflexive(a: Rule)
    ensures !MoreSpecific(a, a)
  {
  }

  lemma SuffixTrans(s: string, t: string, u: string)
    requires EndsWith(s, t) && EndsWith(t, u)
    ensures EndsWith(s, u)
  {
    assert s[|s| - |u|..] == s[|s| - |t|..][|t| - |u|..];
  }

  lemma Transitive(a: Rule, b: Rule, c: Rule)
    requires MoreSpecific(a, b) && MoreSpecific(b, c)
    ensures MoreSpecific(a, c)
  {
    match (a, b, c)
    case (Exact(x), WildCarded(y), WildCarded(z)) => SuffixTrans(x, y, z);
    case (WildCarded(x), WildCarded(y), WildCarded(z)) =>
      SuffixTrans(x, y, z);
      if x == z { SuffixEqual(y, x); }
    case _ =>
  }

  lemma SuffixEqual(s: string, t: string)
    requires EndsWith(s, t) && EndsWith(t, s)
    ensures s == t
  {
  }

  lemma SuffixesCompare(s: string, t: string, u: string)
    requires EndsWith(s, t) && EndsWith(s, u) && |u| <= |t|
    ensures EndsWith(t, u)
  {
    assert t[|t| - |u|..] == s[|s| - |t|..][|t| - |u|..] == s[|s| - |u|..];
  }

  /** Rules that match one domain are comparable, unless they are the same rule. */
  lemma TotalOnMatches(domain: Domain, a: Rule, b: Rule)
    requires Matches(a, domain) && Matches(b, domain)
    ensures a == b || MoreSpecific(a, b) || MoreSpecific(b, a)
  {
    if a.WildCarded? && b.WildCarded? {
      if |b.suffix| <= |a.suffix| {
        SuffixesCompare(domain, a.suffix, b.suffix);
      } else {
        SuffixesCompare(domain, b.suffix, a.suffix);
      }
    }
  }

  /** A more specific rule matches fewer domains. */
  lemma SpecificMatchesLess(a: Rule, b: Rule, domain: Domain)
    requires MoreSpecific(a, b) && Matches(a, domain)
    ensures Matches(b, domain)
  {
    if a.WildCarded? && b.WildCarded? { SuffixTrans(domain, a.suffix, b.suffix); }
  }

  // ---------- choosing ----------

  ghost predicate Candidate(rules: seq<Rule>, implicit: Option<Rule>, domain: Domain, a: Rule) {
    (a in rules && Matches(a, domain)) || implicit == Some(a)
  }

  /** The most specific of the matching rules and the implicit one; none if there are none. */
  ghost predicate IsReason(rules: seq<Rule>, implicit: Option<Rule>, domain: Domain, r: Option<Rule>) {
    match r
    case None => forall a :: !Candidate(rules, implicit, domain, a)
    case Some(best) =>
      && Candidate(rules, implicit, domain, best)
      && forall a :: Candidate(rules, implicit, domain, a) ==> a == best || MoreSpecific(best, a)
  }

  predicate Replaces(next: Rule, domain: Domain, reason: Option<Rule>) {
    Matches(next, domain) && (reason.None? || MoreSpecific(next, reason.value))
  }

  /** Goes through the rules and replaces the reason by each more specific match. */
  method MostSpecific(rules: seq<Rule>, implicit: Option<Rule>, domain: Domain) returns (reason: Option<Rule>)
    requires implicit.Some? ==> Matches(implicit.value, domain)
    ensures IsReason(rules, implicit, domain, reason)
  {
    reason := implicit;
    for i := 0 to |rules|
      invariant IsReason(rules[..i], implicit, domain, reason)
      invariant reason.Some? ==> Matches(reason.value, domain)
    {
      ReasonGrows(rules[..i], implicit, domain, reason, rules[i]);
      assert rules[..i] + [rules[i]] == rules[..i + 1];
      if Replaces(rules[i], domain, reason) {
        reason := Some(rules[i]);
      }
    }
    assert rules[..|rules|] == rules;
  }

  lemma ReasonGrows(rules: seq<Rule>, implicit: Option<Rule>, domain: Domain, reason: Option<Rule>, next: Rule)
    requires IsReason(rules, implicit, domain, reason) && (reason.Some? ==> Matches(reason.value, domain))
    ensures IsReason(rules + [next], implicit, domain, if Replaces(next, domain, reason) then Some(next) else reason)
  {
    var now := if Replaces(next, domain, reason) then Some(next) else reason;
    if now.Some? && reason.Some? {
      if Matches(next, domain) { TotalOnMatches(domain, next, reason.value); }
      forall a | Candidate(rules + [next], implicit, domain, a) ensures a == now.value || MoreSpecific(now.value, a) {
        assert a == next || Candidate(rules, implicit, domain, a);
        if a != next && a != reason.value && now.value == next && next != reason.value {
          Transitive(next, reason.value, a);
        }
      }
    }
    assert forall a :: Candidate(rules + [next], implicit, domain, a) <==>
      Candidate(rules, implicit, domain, a) || (a == next && Matches(next, domain));
  }

  datatype Config = Config(url: Url, includes: seq<Rule>, excludes: seq<Rule>)

  /** An empty include list stands for the implicit wildcard. */
  function Implicit(config: Config): Option<Rule> {
    if config.includes == [] then Some(WildCard) else None
  }

  /** The documented rule: some include is more specific than every exclude. */
  ghost predicate Proxied(config: Config, domain: Domain) {
    exists a :: Candidate(config.includes, Implicit(config), domain, a) && BeatsAll(config, domain, a)
  }

  ghost predicate BeatsAll(config: Config, domain: Domain, a: Rule) {
    forall b :: Candidate(config.excludes, None, domain, b) ==> MoreSpecific(a, b)
  }

  /** A domain is proxied exactly when there are no include rules and no exclude rule matches it, or an include
      rule matches it that is more specific than every matching exclude rule. */
  lemma ProxiedIff(config: Config, domain: Domain)
    ensures Proxied(config, domain) <==>
            || (config.includes == [] && forall b :: b in config.excludes ==> !Matches(b, domain))
            || exists a :: a in config.includes && Matches(a, domain)
                 && forall b :: b in config.excludes && Matches(b, domain) ==> MoreSpecific(a, b)
  {
    assert forall b :: Candidate(config.excludes, None, domain, b) <==> b in config.excludes && Matches(b, domain);
    assert forall b :: !MoreSpecific(WildCard, b);
    if Proxied(config, domain) {
      var a :| Candidate(config.includes, Implicit(config), domain, a) && BeatsAll(config, domain, a);
      assert forall b :: b in config.excludes && Matches(b, domain) ==> MoreSpecific(a, b);
    }
    if config.includes == [] && forall b :: b in config.excludes ==> !Matches(b, domain) {
      assert Candidate(config.includes, Implicit(config), domain, WildCard) && BeatsAll(config, domain, WildCard);
    }
    if a :| a in config.includes && Matches(a, domain)
            && forall b :: b in config.excludes && Matches(b, domain) ==> MoreSpecific(a, b) {
      assert Candidate(config.includes, Implicit(config), domain, a) && BeatsAll(config, domain, a);
    }
  }

  /** The decision by the two most specific reasons is the documented one. */
  lemma ReasonsDecide(config: Config, domain: Domain, included: Option<Rule>, excluded: Option<Rule>)
    requires IsReason(config.includes, Implicit(config), domain, included)
    requires IsReason(config.excludes, None, domain, excluded)
    ensures Proxied(config, domain) <==>
            included.Some? && (excluded.None? || MoreSpecific(included.value, excluded.value))
  {
    if included.Some? && (excluded.None? || MoreSpecific(included.value, excluded.value)) {
      forall b | Candidate(config.excludes, None, domain, b) ensures MoreSpecific(included.value, b) {
        if b != excluded.value { Transitive(included.value, excluded.value, b); }
      }
      assert BeatsAll(config, domain, included.value);
    }
    if Proxied(config, domain) {
      var a :| Candidate(config.includes, Implicit(config), domain, a) && BeatsAll(config, domain, a);
      if excluded.Some? && a != included.value {
        Transitive(included.value, a, excluded.value);
      }
    }
  }

  method ForUrl(config: Config, domain: Option<Domain>) returns (r: Option<Url>)
    ensures r == if domain.Some? && Proxied(config, domain.value) then Some(config.url) else None
  {
    if domain.None? { return None; }
    var included := MostSpecific(config.includes, Implicit(config), domain.value);
    var excluded := MostSpecific(config.excludes, None, domain.value);
    ReasonsDecide(config, domain.value, included, excluded);
    if included.Some? && (excluded.None? || MoreSpecific(included.value, excluded.value)) {
      r := Some(config.url);
    } else {
      r := None;
    }
  }

  /** The first configuration that proxies the domain decides. */
  method FirstProxy(configs: seq<Config>, domain: Option<Domain>) returns (r: Option<Url>)
    ensures domain.None? ==> r.None?
    ensures domain.Some? && r.None? ==> forall i :: 0 <= i < |configs| ==> !Proxied(configs[i], domain.value)
    ensures r.Some? ==> exists i :: 0 <= i < |configs| && domain.Some? && Proxied(configs[i], domain.value)
                          && r.value == configs[i].url && forall j :: 0 <= j < i ==> !Proxied(configs[j], domain.value)
  {
    for i := 0 to |configs|
      invariant domain.Some? ==> forall j :: 0 <= j < i ==> !Proxied(configs[j], domain.value)
    {
      r := ForUrl(configs[i], domain);
      if r.Some? { return; }
    }
    return None;
  }

  lemma SameEmpty(a: seq<Rule>, b: seq<Rule>)
    requires forall x :: x in a ==> x in b
    ensures b == [] ==> a == []
  {
    if a != [] { assert a[0] in b; }
  }

  /** The order and repetition of the rules do not matter. */
  lemma OrderIrrelevant(c: Config, d: Config, domain: Domain)
    requires forall a :: (a in c.includes <==> a in d.includes) && (a in c.excludes <==> a in d.excludes)
    ensures Proxied(c, domain) <==> Proxied(d, domain)
  {
    SameEmpty(c.includes, d.includes);
    SameEmpty(d.includes, c.includes);
    assert Implicit(c) == Implicit(d);
    forall a ensures Candidate(c.includes, Implicit(c), domain, a) <==> Candidate(d.includes, Implicit(d), domain, a) {}
    forall a ensures BeatsAll(c, domain, a) <==> BeatsAll(d, domain, a) {
      assert forall b :: Candidate(c.excludes, None, domain, b) <==> Candidate(d.excludes, None, domain, b);
    }
  }

  /** An empty include list is assumed to be `["*"]`. Its implicit rule is not the rule that `*`
      parses to, yet with parsed exclude rules the two always decide alike. */
  lemma EmptyIncludeIsStar(config: Config, domain: Domain)
    requires config.includes == [] && forall b :: b in config.excludes ==> !b.WildCard?
    ensures Proxied(config, domain) <==> Proxied(config.(includes := [ParseRule("*")]), domain)
  {
    var star := config.(includes := [ParseRule("*")]);
    var empty: Rule := ParseRule("*");
    assert EndsWith(domain, "") && star.includes[0] == empty;
    assert Candidate(star.includes, Implicit(star), domain, empty);
    assert forall a :: Candidate(star.includes, Implicit(star), domain, a) ==> a == empty;
    assert Candidate(config.includes, Implicit(config), domain, WildCard);
    assert forall a :: Candidate(config.includes, Implicit(config), domain, a) ==> a == WildCard;
    assert BeatsAll(config, domain, WildCard) <==> BeatsAll(star, domain, empty) by {
      assert forall b: Rule :: !b.WildCard? ==> !MoreSpecific(WildCard, b) && !MoreSpecific(empty, b);
    }
  }
}
