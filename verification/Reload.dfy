/** Reloading the rules file: a cache with a last-known-good fallback. */
module Reload {
  import opened Basics
  import opened Rules

  /** How one load of the rules file ends. A missing file is a valid, empty set of rules. */
  datatype Event =
    | Loaded(rules: seq<Rule>)
    | Missing
    | Failed(fileExists: bool)

  datatype Cached = Cached(rules: seq<Rule>, previous: Option<seq<Rule>>, hasFile: bool)

  datatype State = State(cache: Option<Cached>, reloads: nat, failures: nat, onFallback: bool, rulesLoaded: nat)

  const INITIAL := State(None, 0, 0, false, 0)

  /** The rules in force. */
  function Active(s: State): seq<Rule> { if s.cache.Some? then s.cache.value.rules else [] }

  function AfterValid(s: State, rules: seq<Rule>, hasFile: bool): State {
    var previous :=
      if s.cache.None? then None
      else if s.cache.value.rules != [] then Some(s.cache.value.rules)
      else s.cache.value.previous;
    State(Some(Cached(rules, previous, hasFile)), s.reloads + 1, s.failures, false, |rules|)
  }

  function AfterFailure(s: State, hasFile: bool): State {
    var kept :=
      if s.cache.None? then Cached([], None, hasFile)
      else if s.cache.value.rules != [] then s.cache.value.(hasFile := hasFile)
      else if s.cache.value.previous.Some? then Cached(s.cache.value.previous.value, None, hasFile)
      else Cached([], None, hasFile);
    s.(cache := Some(kept), failures := s.failures + 1, onFallback := true)
  }

  function Next(s: State, e: Event): State {
    match e
    case Loaded(rules) => AfterValid(s, rules, true)
    case Missing => AfterValid(s, [], false)
    case Failed(fileExists) => AfterFailure(s, fileExists)
  }

  function Run(events: seq<Event>): State {
    if events == [] then INITIAL else Next(Run(events[..|events| - 1]), events[|events| - 1])
  }

  // ---- The history of loads ----

  /** The most recent set of rules that loaded validly. */
  function LastValid(events: seq<Event>): Option<seq<Rule>> {
    if events == [] then None
    else
      match events[|events| - 1]
      case Loaded(rules) => Some(rules)
      case Missing => Some([])
      case Failed(_) => LastValid(events[..|events| - 1])
  }

  /** The most recent set of rules that loaded validly and was not empty. */
  function LastNonEmpty(events: seq<Event>): (r: Option<seq<Rule>>)
    ensures r.Some? ==> r.value != []
  {
    if events == [] then None
    else if events[|events| - 1].Loaded? && events[|events| - 1].rules != [] then Some(events[|events| - 1].rules)
    else LastNonEmpty(events[..|events| - 1])
  }

  ghost predicate KeepsLastGood(s: State, events: seq<Event>) {
    match s.cache
    case None => LastNonEmpty(events).None?
    case Some(c) => if c.rules != [] then LastNonEmpty(events) == Some(c.rules) else c.previous == LastNonEmpty(events)
  }

  /** In every reachable state, non-empty active rules are the most recent non-empty valid ones,
      and when the active rules are empty those are held as the fallback. */
  lemma {:induction false} LastGoodIsKept(events: seq<Event>)
    ensures KeepsLastGood(Run(events), events)
  {
    if events != [] {
      LastGoodIsKept(events[..|events| - 1]);
    }
  }

  /** After any failed load the active rules are the most recent non-empty valid ones, or none if
      there never were any; even when valid empty loads came in between. */
  lemma FailureRestoresLastGood(events: seq<Event>)
    requires events != [] && events[|events| - 1].Failed?
    ensures Active(Run(events)) == if LastNonEmpty(events).Some? then LastNonEmpty(events).value else []
  {
    LastGoodIsKept(events);
    LastGoodIsKept(events[..|events| - 1]);
  }

  /** After a valid load the active rules are exactly the rules loaded. */
  lemma ValidLoadTakesEffect(events: seq<Event>)
    requires events != [] && !events[|events| - 1].Failed?
    ensures LastValid(events) == Some(Active(Run(events)))
  {
  }

  // ---- The health counters ----

  function Failures(events: seq<Event>): nat {
    if events == [] then 0 else Failures(events[..|events| - 1]) + if events[|events| - 1].Failed? then 1 else 0
  }

  /** Whether a load found a file. */
  predicate FileSeen(e: Event) { e.Loaded? || (e.Failed? && e.fileExists) }

  lemma {:induction false} CountersCountLoads(events: seq<Event>)
    ensures var s := Run(events);
      && s.failures == Failures(events) && s.reloads + s.failures == |events|
      && (s.onFallback <==> events != [] && events[|events| - 1].Failed?)
      && (s.cache.None? <==> events == [])
      && (events != [] ==> s.cache.value.hasFile == FileSeen(events[|events| - 1]))
      && s.rulesLoaded == if LastValid(events).Some? then |LastValid(events).value| else 0
  {
    if events != [] {
      CountersCountLoads(events[..|events| - 1]);
    }
  }

  /** The counter of rules loaded agrees with the rules in force, except after a failure that
      brought rules back from before a valid empty load. */
  lemma {:induction false} RulesLoadedIsRightIff(events: seq<Event>)
    ensures var s := Run(events);
      s.rulesLoaded == |Active(s)| <==>
        !(events != [] && events[|events| - 1].Failed? && LastValid(events) == Some([]) && LastNonEmpty(events).Some?)
    decreases |events|
  {
    CountersCountLoads(events);
    if events != [] {
      if events[|events| - 1].Failed? {
        FailureRestoresLastGood(events);
        LastValidNonEmpty(events);
      } else {
        ValidLoadTakesEffect(events);
      }
    }
  }

  /** One rule, a file removed and a file that does not parse: one rule in force, none counted. */
  lemma RestoredRuleIsNotCounted(r: Rule)
    ensures var s := Run([Loaded([r]), Missing, Failed(true)]); Active(s) == [r] && s.rulesLoaded == 0
  {
    var events := [Loaded([r]), Missing, Failed(true)];
    assert events[..2] == [Loaded([r]), Missing] && events[..2][..1] == [Loaded([r])] && events[..2][..1][..0] == [];
    assert Run(events[..2][..1]) == Next(INITIAL, Loaded([r]));
    assert Run(events[..2]) == Next(Run(events[..2][..1]), Missing);
  }

  lemma {:induction false} LastValidNonEmpty(events: seq<Event>)
    ensures LastValid(events).Some? && LastValid(events).value != [] ==> LastNonEmpty(events) == LastValid(events)
    ensures LastValid(events).None? ==> LastNonEmpty(events).None?
  {
    if events != [] {
      LastValidNonEmpty(events[..|events| - 1]);
    }
  }

  // ---- The class ----

  class RulesCache {
    var cache: Option<Cached>
    var reloads: nat
    var failures: nat
    var onFallback: bool
    var rulesLoaded: nat

    ghost function View(): State
      reads this
    {
      State(cache, reloads, failures, onFallback, rulesLoaded)
    }

    constructor ()
      ensures View() == INITIAL
    {
      cache, reloads, failures, onFallback, rulesLoaded := None, 0, 0, false, 0;
    }

    /** `load_rules`, given how reading, parsing, validating and compiling the file ended. */
    method LoadRules(e: Event)
      modifies this
      ensures View() == Next(old(View()), e)
    {
      match e
      case Loaded(rules) => StoreValid(rules, true);
      case Missing => StoreValid([], false);
      case Failed(fileExists) => UseFallback(fileExists);
    }

    /** `store_valid`. */
    method StoreValid(rules: seq<Rule>, hasFile: bool)
      modifies this
      ensures View() == AfterValid(old(View()), rules, hasFile)
    {
      var previous := None;
      if cache.Some? {
        previous := if cache.value.rules != [] then Some(cache.value.rules) else cache.value.previous;
      }
      cache := Some(Cached(rules, previous, hasFile));
      reloads := reloads + 1;
      onFallback := false;
      rulesLoaded := |rules|;
    }

    /** `use_fallback`. */
    method UseFallback(hasFile: bool)
      modifies this
      ensures View() == AfterFailure(old(View()), hasFile)
    {
      failures := failures + 1;
      onFallback := true;
      if cache.Some? && cache.value.rules != [] {
        cache := Some(cache.value.(hasFile := hasFile));
      } else if cache.Some? && cache.value.previous.Some? {
        cache := Some(Cached(cache.value.previous.value, None, hasFile));
      } else {
        cache := Some(Cached([], None, hasFile));
      }
    }
  }
}
