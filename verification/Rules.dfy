/** Cache rules: per-field resolution over the rules that match a key. */
module Rules {
  import opened Basics
  import opened Glob

  /** The optional settings of a rule; durations are in milliseconds. */
  datatype Rule = Rule(
    pattern: string,
    getTtl: Option<nat>, headTtl: Option<nat>, putTtl: Option<nat>,
    readCache: Option<bool>, writeCache: Option<bool>, compression: Option<bool>,
    ramEligible: Option<bool>, evaluateConditions: Option<bool>,
    pageWidening: Option<bool>, pageSize: Option<nat>,
    hedging: Option<bool>, hedgeTrigger: Option<nat>, hedgeMax: Option<nat>)

  datatype Source = Global | FromRule(index: nat, pattern: string)

  datatype Settings = Settings(
    getTtl: nat, headTtl: nat, putTtl: nat,
    readCache: bool, writeCache: bool, compression: bool, compressionFromRule: bool,
    ramEligible: bool, evaluateConditions: bool,
    pageWidening: bool, pageSize: nat,
    hedging: bool, hedgeTrigger: nat, hedgeMax: nat,
    source: Source)

  datatype GlobalDefaults = GlobalDefaults(
    getTtl: nat, headTtl: nat, putTtl: nat,
    readCache: bool, writeCache: bool, compression: bool, ramCache: bool, evaluateConditions: bool)

  const DEFAULT_PAGE_SIZE: nat := 16777216
  const MAX_PAGE_SIZE: nat := 67108864
  const DEFAULT_HEDGE_TRIGGER: nat := 250
  const DEFAULT_HEDGE_MAX: nat := 1

  /** What holds when no rule sets anything. Widening and hedging have no global switch. */
  function Base(g: GlobalDefaults): Settings {
    Settings(g.getTtl, g.headTtl, g.putTtl, g.readCache, g.writeCache, g.compression, false, g.ramCache,
             g.evaluateConditions, false, DEFAULT_PAGE_SIZE, false, DEFAULT_HEDGE_TRIGGER, DEFAULT_HEDGE_MAX, Global)
  }

  /** Whether the compiled expression of a rule accepts the key. */
  predicate RuleMatches(r: Rule, key: string) {
    var re := ReadRegex("^" + Translate(r.pattern) + "$");
    re.Some? && Matches(re.value, key)
  }

  // ---- Resolution ----

  /** The indices of the matching rules, ascending; `at` is the index of the first rule. */
  function Matched(rules: seq<Rule>, key: string, at: nat): seq<(nat, Rule)>
    decreases |rules|
  {
    if rules == [] then []
    else (if RuleMatches(rules[0], key) then [(at, rules[0])] else []) + Matched(rules[1..], key, at + 1)
  }

  /** The first matched rule that sets a field. */
  function First<T>(matched: seq<(nat, Rule)>, pick: Rule -> Option<T>): Option<T> {
    if matched == [] then None
    else if pick(matched[0].1).Some? then pick(matched[0].1)
    else First(matched[1..], pick)
  }

  function Or<T>(o: Option<T>, default: T): T { if o.Some? then o.value else default }

  /** First match per field, with `base` below; before the RAM adjustment. */
  function Layer(matched: seq<(nat, Rule)>, base: Settings): Settings {
    Settings(
      Or(First(matched, (x: Rule) => x.getTtl), base.getTtl),
      Or(First(matched, (x: Rule) => x.headTtl), base.headTtl),
      Or(First(matched, (x: Rule) => x.putTtl), base.putTtl),
      Or(First(matched, (x: Rule) => x.readCache), base.readCache),
      Or(First(matched, (x: Rule) => x.writeCache), base.writeCache),
      Or(First(matched, (x: Rule) => x.compression), base.compression),
      First(matched, (x: Rule) => x.compression).Some? || base.compressionFromRule,
      Or(First(matched, (x: Rule) => x.ramEligible), base.ramEligible),
      Or(First(matched, (x: Rule) => x.evaluateConditions), base.evaluateConditions),
      Or(First(matched, (x: Rule) => x.pageWidening), base.pageWidening),
      Or(First(matched, (x: Rule) => x.pageSize), base.pageSize),
      Or(First(matched, (x: Rule) => x.hedging), base.hedging),
      Or(First(matched, (x: Rule) => x.hedgeTrigger), base.hedgeTrigger),
      Or(First(matched, (x: Rule) => x.hedgeMax), base.hedgeMax),
      if matched == [] then base.source else FromRule(matched[0].0, matched[0].1.pattern))
  }

  /** The RAM tier bypasses revalidation, so it needs a TTL and an enabled read cache. */
  function AdjustRam(s: Settings): Settings {
    s.(ramEligible := s.ramEligible && s.getTtl != 0 && s.readCache)
  }

  /** `RuleSet::resolve`. */
  function Resolve(rules: seq<Rule>, key: string, g: GlobalDefaults): Settings {
    AdjustRam(Layer(Matched(rules, key, 0), Base(g)))
  }

  // ---- What each field resolves to ----

  /** The first rule that matches the key and sets the field. */
  ghost predicate FirstToSet<T>(rules: seq<Rule>, key: string, pick: Rule -> Option<T>, i: int) {
    && 0 <= i < |rules| && RuleMatches(rules[i], key) && pick(rules[i]).Some?
    && forall j :: 0 <= j < i && RuleMatches(rules[j], key) ==> pick(rules[j]).None?
  }

  ghost predicate Unset<T>(rules: seq<Rule>, key: string, pick: Rule -> Option<T>) {
    forall i :: 0 <= i < |rules| && RuleMatches(rules[i], key) ==> pick(rules[i]).None?
  }

  /** The field has the value of the first matching rule that sets it, or else the default. */
  ghost predicate Resolves<T>(rules: seq<Rule>, key: string, pick: Rule -> Option<T>, default: T, value: T) {
    || (exists i :: FirstToSet(rules, key, pick, i) && pick(rules[i]) == Some(value))
    || (Unset(rules, key, pick) && value == default)
  }

  lemma {:induction false} FirstInRules<T>(rules: seq<Rule>, key: string, at: nat, pick: Rule -> Option<T>)
    ensures match First(Matched(rules, key, at), pick)
      case None => Unset(rules, key, pick)
      case Some(v) => exists i :: FirstToSet(rules, key, pick, i) && pick(rules[i]) == Some(v)
    decreases |rules|
  {
    hide RuleMatches;
    if rules != [] {
      var r, rest := rules[0], rules[1..];
      var more := Matched(rest, key, at + 1);
      FirstInRules(rest, key, at + 1, pick);
      assert forall i :: 0 < i < |rules| ==> rules[i] == rest[i - 1];
      FirstCons(at, r, more, pick);
      assert [] + more == more;
      if RuleMatches(r, key) && pick(r).Some? {
        assert FirstToSet(rules, key, pick, 0);
      } else if First(more, pick).Some? {
        var i :| FirstToSet(rest, key, pick, i) && pick(rest[i]) == First(more, pick);
        assert FirstToSet(rules, key, pick, i + 1);
      }
    }
  }

  lemma FieldResolves<T>(rules: seq<Rule>, key: string, pick: Rule -> Option<T>, default: T)
    ensures Resolves(rules, key, pick, default, Or(First(Matched(rules, key, 0), pick), default))
  {
    hide RuleMatches, First, Matched;
    FirstInRules(rules, key, 0, pick);
  }

  /** Every caching field resolves to the value of the first matching rule that sets it, and to the
      global default of the same name when none does. */
  lemma CachingFieldsResolve(rules: seq<Rule>, key: string, g: GlobalDefaults)
    ensures var s := Resolve(rules, key, g);
      && Resolves(rules, key, (x: Rule) => x.getTtl, g.getTtl, s.getTtl)
      && Resolves(rules, key, (x: Rule) => x.headTtl, g.headTtl, s.headTtl)
      && Resolves(rules, key, (x: Rule) => x.putTtl, g.putTtl, s.putTtl)
      && Resolves(rules, key, (x: Rule) => x.readCache, g.readCache, s.readCache)
      && Resolves(rules, key, (x: Rule) => x.writeCache, g.writeCache, s.writeCache)
      && Resolves(rules, key, (x: Rule) => x.compression, g.compression, s.compression)
      && Resolves(rules, key, (x: Rule) => x.evaluateConditions, g.evaluateConditions, s.evaluateConditions)
  {
    hide First, Matched, Or, Resolves;
    FieldResolves(rules, key, (x: Rule) => x.getTtl, g.getTtl);
    FieldResolves(rules, key, (x: Rule) => x.headTtl, g.headTtl);
    FieldResolves(rules, key, (x: Rule) => x.putTtl, g.putTtl);
    FieldResolves(rules, key, (x: Rule) => x.readCache, g.readCache);
    FieldResolves(rules, key, (x: Rule) => x.writeCache, g.writeCache);
    FieldResolves(rules, key, (x: Rule) => x.compression, g.compression);
    FieldResolves(rules, key, (x: Rule) => x.evaluateConditions, g.evaluateConditions);
  }

  /** The fields without a global switch fall back to constants: no widening, pages of 16 MiB, no
      hedging, a trigger of 250 ms and one hedge. */
  lemma FetchingFieldsResolve(rules: seq<Rule>, key: string, g: GlobalDefaults)
    ensures var s := Resolve(rules, key, g);
      && Resolves(rules, key, (x: Rule) => x.pageWidening, false, s.pageWidening)
      && Resolves(rules, key, (x: Rule) => x.pageSize, 16 * 1024 * 1024, s.pageSize)
      && Resolves(rules, key, (x: Rule) => x.hedging, false, s.hedging)
      && Resolves(rules, key, (x: Rule) => x.hedgeTrigger, 250, s.hedgeTrigger)
      && Resolves(rules, key, (x: Rule) => x.hedgeMax, 1, s.hedgeMax)
  {
    hide First, Matched, Or, Resolves;
    FieldResolves(rules, key, (x: Rule) => x.pageWidening, false);
    FieldResolves(rules, key, (x: Rule) => x.pageSize, 16 * 1024 * 1024);
    FieldResolves(rules, key, (x: Rule) => x.hedging, false);
    FieldResolves(rules, key, (x: Rule) => x.hedgeTrigger, 250);
    FieldResolves(rules, key, (x: Rule) => x.hedgeMax, 1);
  }

  /** RAM is eligible exactly when the rules or the global default say so, GET responses have a
      lifetime and reads are cached. */
  lemma RamEligibleIff(rules: seq<Rule>, key: string, g: GlobalDefaults)
    ensures var s := Resolve(rules, key, g);
      s.ramEligible <==>
        Resolves(rules, key, (x: Rule) => x.ramEligible, g.ramCache, true) && s.getTtl != 0 && s.readCache
  {
    hide First, Matched, Resolves;
    var wanted := Or(First(Matched(rules, key, 0), (x: Rule) => x.ramEligible), g.ramCache);
    FieldResolves(rules, key, (x: Rule) => x.ramEligible, g.ramCache);
    if Resolves(rules, key, (x: Rule) => x.ramEligible, g.ramCache, true) {
      ResolvesToOne(rules, key, (x: Rule) => x.ramEligible, g.ramCache, true, wanted);
    }
  }

  lemma ResolvesToOne<T>(rules: seq<Rule>, key: string, pick: Rule -> Option<T>, default: T, a: T, b: T)
    requires Resolves(rules, key, pick, default, a) && Resolves(rules, key, pick, default, b)
    ensures a == b
  {
    hide RuleMatches;
    if !Unset(rules, key, pick) {
      var i :| FirstToSet(rules, key, pick, i) && pick(rules[i]) == Some(a);
      var j :| FirstToSet(rules, key, pick, j) && pick(rules[j]) == Some(b);
      assert !(i < j) && !(j < i);
    }
  }

  /** Where the settings are said to come from: the first matching rule, or the globals. */
  lemma SourceIsFirstMatch(rules: seq<Rule>, key: string, g: GlobalDefaults)
    ensures match Resolve(rules, key, g).source
      case Global => forall i :: 0 <= i < |rules| ==> !RuleMatches(rules[i], key)
      case FromRule(n, pattern) =>
        && n < |rules| && RuleMatches(rules[n], key) && pattern == rules[n].pattern
        && forall j :: 0 <= j < n ==> !RuleMatches(rules[j], key)
    ensures Resolve(rules, key, g).compressionFromRule <==> !Unset(rules, key, (x: Rule) => x.compression)
  {
    hide RuleMatches, First, Or;
    FirstMatched(rules, key, 0);
    FirstInRules(rules, key, 0, (x: Rule) => x.compression);
  }

  lemma {:induction false} FirstMatched(rules: seq<Rule>, key: string, at: nat)
    ensures var m := Matched(rules, key, at);
      if m == [] then forall i :: 0 <= i < |rules| ==> !RuleMatches(rules[i], key)
      else
        var n := m[0].0 - at;
        && 0 <= n < |rules| && m[0].1 == rules[n] && RuleMatches(rules[n], key)
        && forall j :: 0 <= j < n ==> !RuleMatches(rules[j], key)
    decreases |rules|
  {
    hide RuleMatches;
    if rules != [] {
      var rest := rules[1..];
      FirstMatched(rest, key, at + 1);
      assert forall i :: 0 < i < |rules| ==> rules[i] == rest[i - 1];
    }
  }

  /** A rule matches what its glob means, but for a newline under `**`. */
  lemma RuleMatchesGlob(r: Rule, key: string)
    requires Plain(r.pattern, key)
    ensures RuleMatches(r, key) <==> GlobMatches(r.pattern, key)
  {
    TranslationPreservesMeaning(r.pattern, key);
  }

  // ---- A rule at a time ----

  /** One matching rule laid over the settings below it. */
  function Override(at: nat, r: Rule, below: Settings): Settings {
    Settings(
      Or(r.getTtl, below.getTtl), Or(r.headTtl, below.headTtl), Or(r.putTtl, below.putTtl),
      Or(r.readCache, below.readCache), Or(r.writeCache, below.writeCache),
      Or(r.compression, below.compression), r.compression.Some? || below.compressionFromRule,
      Or(r.ramEligible, below.ramEligible), Or(r.evaluateConditions, below.evaluateConditions),
      Or(r.pageWidening, below.pageWidening), Or(r.pageSize, below.pageSize),
      Or(r.hedging, below.hedging), Or(r.hedgeTrigger, below.hedgeTrigger), Or(r.hedgeMax, below.hedgeMax),
      FromRule(at, r.pattern))
  }

  /** The rules laid over the defaults one by one, the first on top. */
  function Stack(rules: seq<Rule>, key: string, base: Settings, at: nat): Settings
    decreases |rules|
  {
    if rules == [] then base
    else
      var below := Stack(rules[1..], key, base, at + 1);
      if RuleMatches(rules[0], key) then Override(at, rules[0], below) else below
  }

  lemma FirstCons<T>(at: nat, r: Rule, rest: seq<(nat, Rule)>, pick: Rule -> Option<T>)
    ensures First([(at, r)] + rest, pick) == if pick(r).Some? then pick(r) else First(rest, pick)
  {
    var m := [(at, r)] + rest;
    assert m[1..] == rest && m[0] == (at, r);
  }

  lemma FieldCons<T>(at: nat, r: Rule, rest: seq<(nat, Rule)>, pick: Rule -> Option<T>, default: T)
    ensures Or(First([(at, r)] + rest, pick), default) == Or(pick(r), Or(First(rest, pick), default))
  {
    FirstCons(at, r, rest, pick);
  }

  lemma CachingCons(at: nat, r: Rule, rest: seq<(nat, Rule)>, base: Settings)
    ensures var s, t := Layer([(at, r)] + rest, base), Override(at, r, Layer(rest, base));
      && s.getTtl == t.getTtl && s.headTtl == t.headTtl && s.putTtl == t.putTtl
      && s.readCache == t.readCache && s.writeCache == t.writeCache
      && s.compression == t.compression && s.compressionFromRule == t.compressionFromRule
  {
    hide First, Or;
    FieldCons(at, r, rest, (x: Rule) => x.getTtl, base.getTtl);
    FieldCons(at, r, rest, (x: Rule) => x.headTtl, base.headTtl);
    FieldCons(at, r, rest, (x: Rule) => x.putTtl, base.putTtl);
    FieldCons(at, r, rest, (x: Rule) => x.readCache, base.readCache);
    FieldCons(at, r, rest, (x: Rule) => x.writeCache, base.writeCache);
    FieldCons(at, r, rest, (x: Rule) => x.compression, base.compression);
    FirstCons(at, r, rest, (x: Rule) => x.compression);
  }

  lemma FetchingCons(at: nat, r: Rule, rest: seq<(nat, Rule)>, base: Settings)
    ensures var s, t := Layer([(at, r)] + rest, base), Override(at, r, Layer(rest, base));
      && s.ramEligible == t.ramEligible && s.evaluateConditions == t.evaluateConditions
      && s.pageWidening == t.pageWidening && s.pageSize == t.pageSize
      && s.hedging == t.hedging && s.hedgeTrigger == t.hedgeTrigger && s.hedgeMax == t.hedgeMax
  {
    hide First, Or;
    FieldCons(at, r, rest, (x: Rule) => x.ramEligible, base.ramEligible);
    FieldCons(at, r, rest, (x: Rule) => x.evaluateConditions, base.evaluateConditions);
    FieldCons(at, r, rest, (x: Rule) => x.pageWidening, base.pageWidening);
    FieldCons(at, r, rest, (x: Rule) => x.pageSize, base.pageSize);
    FieldCons(at, r, rest, (x: Rule) => x.hedging, base.hedging);
    FieldCons(at, r, rest, (x: Rule) => x.hedgeTrigger, base.hedgeTrigger);
    FieldCons(at, r, rest, (x: Rule) => x.hedgeMax, base.hedgeMax);
  }

  lemma SourceCons(at: nat, r: Rule, rest: seq<(nat, Rule)>, base: Settings)
    ensures Layer([(at, r)] + rest, base).source == Override(at, r, Layer(rest, base)).source
  {
    hide First, Or;
  }

  lemma LayerCons(at: nat, r: Rule, rest: seq<(nat, Rule)>, base: Settings)
    ensures Layer([(at, r)] + rest, base) == Override(at, r, Layer(rest, base))
  {
    hide Layer, Override;
    CachingCons(at, r, rest, base);
    FetchingCons(at, r, rest, base);
    SourceCons(at, r, rest, base);
  }

  /** First match per field is the same as stacking whole rules. */
  lemma {:induction false} ResolutionIsStacking(rules: seq<Rule>, key: string, base: Settings, at: nat)
    ensures Layer(Matched(rules, key, at), base) == Stack(rules, key, base, at)
    decreases |rules|
  {
    hide Layer, Override, RuleMatches;
    if rules == [] {
      LayerNothing(base);
    } else {
      var rest := Matched(rules[1..], key, at + 1);
      ResolutionIsStacking(rules[1..], key, base, at + 1);
      LayerCons(at, rules[0], rest, base);
      assert [] + rest == rest;
    }
  }

  lemma LayerNothing(base: Settings)
    ensures Layer([], base) == base
  {
  }

  /** Resolving `a + b` is resolving `a` with the result of `b` as its defaults. */
  lemma {:induction false} StackConcat(a: seq<Rule>, b: seq<Rule>, key: string, base: Settings, at: nat)
    ensures Stack(a + b, key, base, at) == Stack(a, key, Stack(b, key, base, at + |a|), at)
    decreases |a|
  {
    hide Override, RuleMatches;
    if a == [] {
      assert a + b == b;
    } else {
      assert (a + b)[1..] == a[1..] + b;
      StackConcat(a[1..], b, key, base, at + 1);
    }
  }

  lemma LayeredResolution(a: seq<Rule>, b: seq<Rule>, key: string, g: GlobalDefaults)
    ensures Resolve(a + b, key, g) ==
      AdjustRam(Layer(Matched(a, key, 0), Layer(Matched(b, key, |a|), Base(g))))
  {
    hide Layer, Stack, Matched, AdjustRam, Base;
    ResolutionIsStacking(a + b, key, Base(g), 0);
    StackConcat(a, b, key, Base(g), 0);
    ResolutionIsStacking(b, key, Base(g), |a|);
    ResolutionIsStacking(a, key, Layer(Matched(b, key, |a|), Base(g)), 0);
  }

  // ---- Appending rules ----

  /** Whether some matched rule sets each field. */
  predicate Sets<T(!new)>(matched: seq<(nat, Rule)>, pick: Rule -> Option<T>) { First(matched, pick).Some? }

  /** What the matched rules set does not depend on the settings below them. */
  ghost predicate SameWhereSet(m: seq<(nat, Rule)>, s: Settings, t: Settings) {
    SameCaching(m, s, t) && SameFetching(m, s, t) && (m != [] ==> t.source == s.source)
  }

  ghost predicate SameCaching(m: seq<(nat, Rule)>, s: Settings, t: Settings) {
    && (Sets(m, (x: Rule) => x.getTtl) ==> t.getTtl == s.getTtl)
    && (Sets(m, (x: Rule) => x.headTtl) ==> t.headTtl == s.headTtl)
    && (Sets(m, (x: Rule) => x.putTtl) ==> t.putTtl == s.putTtl)
    && (Sets(m, (x: Rule) => x.readCache) ==> t.readCache == s.readCache)
    && (Sets(m, (x: Rule) => x.writeCache) ==> t.writeCache == s.writeCache)
    && (Sets(m, (x: Rule) => x.compression) ==> t.compression == s.compression && t.compressionFromRule)
  }

  ghost predicate SameFetching(m: seq<(nat, Rule)>, s: Settings, t: Settings) {
    && (Sets(m, (x: Rule) => x.evaluateConditions) ==> t.evaluateConditions == s.evaluateConditions)
    && (Sets(m, (x: Rule) => x.pageWidening) ==> t.pageWidening == s.pageWidening)
    && (Sets(m, (x: Rule) => x.pageSize) ==> t.pageSize == s.pageSize)
    && (Sets(m, (x: Rule) => x.hedging) ==> t.hedging == s.hedging)
    && (Sets(m, (x: Rule) => x.hedgeTrigger) ==> t.hedgeTrigger == s.hedgeTrigger)
    && (Sets(m, (x: Rule) => x.hedgeMax) ==> t.hedgeMax == s.hedgeMax)
  }

  lemma FieldIsSet<T(!new)>(m: seq<(nat, Rule)>, pick: Rule -> Option<T>, a: T, b: T)
    ensures Sets(m, pick) ==> Or(First(m, pick), a) == Or(First(m, pick), b)
  {
    hide First;
  }

  lemma LayerKeepsCaching(m: seq<(nat, Rule)>, a: Settings, b: Settings)
    ensures SameCaching(m, Layer(m, a), Layer(m, b))
  {
    hide First, Or;
    FieldIsSet(m, (x: Rule) => x.getTtl, a.getTtl, b.getTtl);
    FieldIsSet(m, (x: Rule) => x.headTtl, a.headTtl, b.headTtl);
    FieldIsSet(m, (x: Rule) => x.putTtl, a.putTtl, b.putTtl);
    FieldIsSet(m, (x: Rule) => x.readCache, a.readCache, b.readCache);
    FieldIsSet(m, (x: Rule) => x.writeCache, a.writeCache, b.writeCache);
    FieldIsSet(m, (x: Rule) => x.compression, a.compression, b.compression);
  }

  lemma LayerKeepsFetching(m: seq<(nat, Rule)>, a: Settings, b: Settings)
    ensures SameFetching(m, Layer(m, a), Layer(m, b))
  {
    hide First, Or;
    FieldIsSet(m, (x: Rule) => x.evaluateConditions, a.evaluateConditions, b.evaluateConditions);
    FieldIsSet(m, (x: Rule) => x.pageWidening, a.pageWidening, b.pageWidening);
    FieldIsSet(m, (x: Rule) => x.pageSize, a.pageSize, b.pageSize);
    FieldIsSet(m, (x: Rule) => x.hedging, a.hedging, b.hedging);
    FieldIsSet(m, (x: Rule) => x.hedgeTrigger, a.hedgeTrigger, b.hedgeTrigger);
    FieldIsSet(m, (x: Rule) => x.hedgeMax, a.hedgeMax, b.hedgeMax);
  }

  lemma LayerKeepsSource(m: seq<(nat, Rule)>, a: Settings, b: Settings)
    ensures m != [] ==> Layer(m, a).source == Layer(m, b).source
    ensures Sets(m, (x: Rule) => x.ramEligible) ==> Layer(m, a).ramEligible == Layer(m, b).ramEligible
  {
    hide First, Or;
    FieldIsSet(m, (x: Rule) => x.ramEligible, a.ramEligible, b.ramEligible);
  }

  lemma LayerKeepsSet(m: seq<(nat, Rule)>, a: Settings, b: Settings)
    ensures SameWhereSet(m, Layer(m, a), Layer(m, b))
    ensures Sets(m, (x: Rule) => x.ramEligible) ==> Layer(m, a).ramEligible == Layer(m, b).ramEligible
  {
    hide Layer, Sets, SameCaching, SameFetching;
    LayerKeepsCaching(m, a, b);
    LayerKeepsFetching(m, a, b);
    LayerKeepsSource(m, a, b);
  }

  lemma AdjustKeepsSet(m: seq<(nat, Rule)>, s: Settings, t: Settings)
    requires SameWhereSet(m, s, t)
    ensures SameWhereSet(m, AdjustRam(s), AdjustRam(t))
  {
    hide Sets;
  }

  /** Rules appended behind others change only fields that no earlier matching rule set, and RAM
      eligibility through the two fields it is derived from. */
  lemma AppendingFillsGaps(a: seq<Rule>, b: seq<Rule>, key: string, g: GlobalDefaults)
    ensures var m, s, t := Matched(a, key, 0), Resolve(a, key, g), Resolve(a + b, key, g);
      && SameWhereSet(m, s, t)
      && (Sets(m, (x: Rule) => x.ramEligible) && t.getTtl == s.getTtl && t.readCache == s.readCache ==>
        t.ramEligible == s.ramEligible)
  {
    hide Matched, Layer, Sets, SameWhereSet, Base;
    LayeredResolution(a, b, key, g);
    var m, below := Matched(a, key, 0), Layer(Matched(b, key, |a|), Base(g));
    LayerKeepsSet(m, Base(g), below);
    AdjustKeepsSet(m, Layer(m, Base(g)), Layer(m, below));
  }

  // ---- Validation does not bound what is resolved ----

  predicate SizeOk(size: nat) { 0 < size <= MAX_PAGE_SIZE }

  /** `validate`, for the page size: checked only on the rule that itself enables widening. */
  predicate PageOk(r: Rule) { r.pageWidening == Some(true) && r.pageSize.Some? ==> SizeOk(r.pageSize.value) }

  /** With widening, a rule may set pages of one byte to 64 MiB. */
  lemma PageBounds(r: Rule, size: nat)
    requires r.pageWidening == Some(true) && r.pageSize == Some(size)
    ensures PageOk(r) <==> 1 <= size <= 64 * 1024 * 1024
  {
  }

  function Bare(pattern: string): Rule {
    Rule(pattern, None, None, None, None, None, None, None, None, None, None, None, None, None)
  }

  /** The first matched rule that sets a field is the one at `i`. */
  predicate SetsFirst<T>(matched: seq<(nat, Rule)>, pick: Rule -> Option<T>, i: int) {
    && 0 <= i < |matched| && pick(matched[i].1).Some?
    && forall j :: 0 <= j < i ==> pick(matched[j].1).None?
  }

  lemma {:induction false} FirstIsSetter<T>(matched: seq<(nat, Rule)>, pick: Rule -> Option<T>)
    ensures match First(matched, pick)
      case None => forall i :: 0 <= i < |matched| ==> pick(matched[i].1).None?
      case Some(v) => exists i :: SetsFirst(matched, pick, i) && pick(matched[i].1) == Some(v)
  {
    if matched != [] && pick(matched[0].1).Some? {
      assert SetsFirst(matched, pick, 0);
    } else if matched != [] {
      var rest := matched[1..];
      FirstIsSetter(rest, pick);
      assert forall i :: 0 < i < |matched| ==> matched[i] == rest[i - 1];
      if i :| SetsFirst(rest, pick, i) && pick(rest[i].1) == First(rest, pick) {
        assert SetsFirst(matched, pick, i + 1);
      }
    }
  }

  lemma FirstIs<T>(matched: seq<(nat, Rule)>, pick: Rule -> Option<T>, i: int)
    requires SetsFirst(matched, pick, i)
    ensures First(matched, pick) == pick(matched[i].1)
  {
    FirstIsSetter(matched, pick);
    if First(matched, pick).Some? {
      var j :| SetsFirst(matched, pick, j) && pick(matched[j].1) == First(matched, pick);
      assert i == j;
    }
  }

  /** A figure out of bounds, first set by a rule that does not itself enable the feature. */
  ghost predicate Escapes(
    matched: seq<(nat, Rule)>, pick: Rule -> Option<nat>, enables: Rule -> Option<bool>, ok: nat -> bool)
  {
    exists i :: SetsFirst(matched, pick, i) && enables(matched[i].1) != Some(true) && !ok(pick(matched[i].1).value)
  }

  /** The first rule to say so enables the feature. */
  ghost predicate Switched(matched: seq<(nat, Rule)>, enables: Rule -> Option<bool>) {
    exists j :: SetsFirst(matched, enables, j) && enables(matched[j].1) == Some(true)
  }

  /** When every matched rule that enables a feature sets its figure within bounds or not at all,
      a figure out of bounds has escaped. */
  lemma EscapesIff(matched: seq<(nat, Rule)>, pick: Rule -> Option<nat>, enables: Rule -> Option<bool>, ok: nat -> bool)
    requires forall i :: 0 <= i < |matched| && enables(matched[i].1) == Some(true) && pick(matched[i].1).Some? ==>
      ok(pick(matched[i].1).value)
    ensures First(matched, pick).Some? && !ok(First(matched, pick).value) <==> Escapes(matched, pick, enables, ok)
  {
    hide First;
    FirstIsSetter(matched, pick);
    forall i | SetsFirst(matched, pick, i) ensures First(matched, pick) == pick(matched[i].1) {
      FirstIs(matched, pick, i);
    }
  }

  lemma SwitchedIff(matched: seq<(nat, Rule)>, enables: Rule -> Option<bool>)
    ensures First(matched, enables) == Some(true) <==> Switched(matched, enables)
  {
    hide First;
    FirstIsSetter(matched, enables);
    forall j | SetsFirst(matched, enables, j) ensures First(matched, enables) == enables(matched[j].1) {
      FirstIs(matched, enables, j);
    }
  }

  lemma MatchedAreRules(rules: seq<Rule>, key: string, at: nat, i: nat)
    requires i < |Matched(rules, key, at)|
    ensures Matched(rules, key, at)[i].1 in rules
    decreases |rules|
  {
    if RuleMatches(rules[0], key) {
      if i > 0 {
        MatchedAreRules(rules[1..], key, at + 1, i - 1);
      }
    } else {
      MatchedAreRules(rules[1..], key, at + 1, i);
    }
  }

  /** When every rule passes validation, a key is widened to pages out of bounds exactly when the
      first matching rule to say so enables widening and the matching rule that sets the page size
      first, out of bounds, was skipped because it does not itself enable widening. */
  lemma PageSizeEscapesValidationIff(rules: seq<Rule>, key: string, g: GlobalDefaults)
    requires forall r :: r in rules ==> PageOk(r)
    ensures var m, s := Matched(rules, key, 0), Resolve(rules, key, g);
      s.pageWidening && !SizeOk(s.pageSize) <==>
        && Switched(m, (x: Rule) => x.pageWidening)
        && Escapes(m, (x: Rule) => x.pageSize, (x: Rule) => x.pageWidening, (n: nat) => SizeOk(n))
  {
    hide Matched, First, SetsFirst, Switched, Escapes;
    var m := Matched(rules, key, 0);
    forall i | 0 <= i < |m| ensures PageOk(m[i].1) {
      MatchedAreRules(rules, key, 0, i);
    }
    EscapesIff(m, (x: Rule) => x.pageSize, (x: Rule) => x.pageWidening, (n: nat) => SizeOk(n));
    SwitchedIff(m, (x: Rule) => x.pageWidening);
  }

  predicate TriggerOk(trigger: nat, timeout: nat) { 0 < trigger < timeout }

  /** `validate`, for the hedge trigger: checked only on the rule that itself enables hedging. */
  predicate HedgeOk(r: Rule, timeout: nat) {
    r.hedging == Some(true) && r.hedgeTrigger.Some? ==> TriggerOk(r.hedgeTrigger.value, timeout)
  }

  /** When every rule passes validation, a key is hedged with a trigger out of bounds exactly when
      the first matching rule to say so enables hedging and either the matching rule that sets the
      trigger first, out of bounds, does not itself enable hedging, or no matching rule sets it
      and the timeout is no longer than the default trigger. */
  lemma HedgeTriggerEscapesValidationIff(rules: seq<Rule>, key: string, g: GlobalDefaults, timeout: nat)
    requires forall r :: r in rules ==> HedgeOk(r, timeout)
    ensures var m, s := Matched(rules, key, 0), Resolve(rules, key, g);
      s.hedging && !TriggerOk(s.hedgeTrigger, timeout) <==>
        && Switched(m, (x: Rule) => x.hedging)
        && (|| Escapes(m, (x: Rule) => x.hedgeTrigger, (x: Rule) => x.hedging, (n: nat) => TriggerOk(n, timeout))
            || (!Sets(m, (x: Rule) => x.hedgeTrigger) && timeout <= DEFAULT_HEDGE_TRIGGER))
  {
    hide Matched, First, SetsFirst, Switched, Escapes;
    var m := Matched(rules, key, 0);
    forall i | 0 <= i < |m| ensures HedgeOk(m[i].1, timeout) {
      MatchedAreRules(rules, key, 0, i);
    }
    EscapesIff(m, (x: Rule) => x.hedgeTrigger, (x: Rule) => x.hedging, (n: nat) => TriggerOk(n, timeout));
    SwitchedIff(m, (x: Rule) => x.hedging);
  }

  lemma BothMatchNothing(a: Rule, b: Rule, g: GlobalDefaults)
    requires a.pattern == b.pattern == "*"
    ensures Resolve([a, b], "", g) == AdjustRam(Override(0, a, Override(1, b, Base(g))))
  {
    hide AdjustRam, Override, Base, Layer;
    StarMatchesNothing();
    assert RuleMatches(a, "") && RuleMatches(b, "");
    assert [a, b][1..] == [b] && [b][1..] == [];
    assert Matched([b], "", 1) == [(1, b)] + [];
    assert Matched([a, b], "", 0) == [(0, a)] + [(1, b)];
    LayerCons(0, a, [(1, b)], Base(g));
    LayerCons(1, b, [], Base(g));
    LayerNothing(Base(g));
    assert [(1, b)] + [] == [(1, b)];
  }

  predicate EmptyPage(s: Settings) { s.pageWidening && s.pageSize == 0 }

  predicate HedgesAtOnce(s: Settings) { s.hedging && s.hedgeTrigger == 0 }

  /** Two rules that each pass validation resolve to widening with a page of zero bytes, and two
      others to hedging with a trigger of zero. */
  lemma ValidRulesCanResolveToZero(g: GlobalDefaults, timeout: nat)
    ensures exists a, b :: PageOk(a) && PageOk(b) && EmptyPage(Resolve([a, b], "", g))
    ensures exists a, b :: HedgeOk(a, timeout) && HedgeOk(b, timeout) && HedgesAtOnce(Resolve([a, b], "", g))
  {
    hide Resolve;
    var a, b := Bare("*").(pageWidening := Some(true)), Bare("*").(pageSize := Some(0));
    BothMatchNothing(a, b, g);
    assert PageOk(a) && PageOk(b) && EmptyPage(Resolve([a, b], "", g));
    var c, d := Bare("*").(hedging := Some(true)), Bare("*").(hedgeTrigger := Some(0));
    BothMatchNothing(c, d, g);
    assert HedgeOk(c, timeout) && HedgeOk(d, timeout) && HedgesAtOnce(Resolve([c, d], "", g));
  }

  lemma StarMatchesNothing()
    ensures var re := ReadRegex("^" + Translate("*") + "$"); re.Some? && Matches(re.value, "")
  {
    TranslationPreservesMeaning("*", "");
    assert GlobMatches("*", "") by {
      assert "*"[1..] == "" && ""[0..] == "" && GlobMatches("", ""[0..]);
    }
  }
}
